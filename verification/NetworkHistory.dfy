/** What the delegate's state is after any run, read off the notifications alone
    (android/network_change_notifier_delegate_android.cc). */
module NetworkHistory {
  import opened Basics
  import opened NetworkDelegates

  // ----- Running one more notification ---------------------------------------------------------------

  lemma {:induction false} ExecSnoc(s: State, evs: seq<Event>, e: Event)
    ensures Exec(s, evs + [e]) == Step(Exec(s, evs), e)
    ensures AllNews(s, evs + [e]) == AllNews(s, evs) + News(Exec(s, evs), e)
    decreases |evs|
  {
    hide Step, News;
    var all := evs + [e];
    if evs == [] {
      assert all[0] == e && all[1..] == [];
      assert News(s, e) + [] == [] + News(s, e);
    } else {
      assert all[0] == evs[0] && all[1..] == evs[1..] + [e];
      var s1 := Step(s, evs[0]);
      ExecSnoc(s1, evs[1..], e);
      Assoc(News(s, evs[0]), AllNews(s1, evs[1..]), News(Exec(s, evs), e));
    }
  }

  lemma ExecLast(s: State, evs: seq<Event>)
    requires evs != []
    ensures var n := |evs| - 1;
            && Exec(s, evs) == Step(Exec(s, evs[..n]), evs[n])
            && AllNews(s, evs) == AllNews(s, evs[..n]) + News(Exec(s, evs[..n]), evs[n])
  {
    var n := |evs| - 1;
    assert evs == evs[..n] + [evs[n]];
    ExecSnoc(s, evs[..n], evs[n]);
  }

  // ----- The state ---------------------------------------------------------------------------------------

  /** The type of network n, None if it is not connected: that of its last connect, unless a
      disconnect or a purge that does not list it came later. */
  function TypeAfter(s: State, evs: seq<Event>, n: Handle): Option<int> {
    if evs == [] then if n in s.networks then Some(s.networks[n]) else None
    else
      var last, before := evs[|evs| - 1], evs[..|evs| - 1];
      if last.OnConnect? && last.n == n then Some(last.connectionType)
      else if last.OnDisconnect? && last.n == n then None
      else if last.OnPurge? && n !in last.active then None
      else TypeAfter(s, before, n)
  }

  /** The default: the one last named, unless that network was disconnected since, or was
      connected when a purge did not list it. */
  function DefaultAfter(s: State, evs: seq<Event>): Handle {
    if evs == [] then s.default
    else
      var last, before := evs[|evs| - 1], evs[..|evs| - 1];
      var d := DefaultAfter(s, before);
      if last.OnType? then last.default
      else if last.OnDisconnect? && last.n == d then -1
      else if last.OnPurge? && d !in last.active && TypeAfter(s, before, d).Some? then -1
      else d
  }

  /** The connection type: the one last reported, 0 for any that is not known. */
  function ConnectionTypeAfter(s: State, evs: seq<Event>): int {
    if evs == [] then s.connectionType
    else
      var last, before := evs[|evs| - 1], evs[..|evs| - 1];
      if !last.OnType? then ConnectionTypeAfter(s, before)
      else if last.connectionType in [0, 1, 2, 3, 4, 5, 6, 7] then last.connectionType
      else 0
  }

  /** How often observers are to be told that n will go: each time the system says so while n is
      connected. */
  function SoonAfter(s: State, evs: seq<Event>, n: Handle): nat {
    if evs == [] then 0
    else
      var last, before := evs[|evs| - 1], evs[..|evs| - 1];
      SoonAfter(s, before, n) + if last == OnSoon(n) && TypeAfter(s, before, n).Some? then 1 else 0
  }

  function TypeReports(evs: seq<Event>): nat {
    if evs == [] then 0
    else TypeReports(evs[..|evs| - 1]) + if evs[|evs| - 1].OnType? then 1 else 0
  }

  function Lookup(s: State, n: Handle): Option<int> { if n in s.networks then Some(s.networks[n]) else None }

  lemma StepNetworks(s: State, e: Event, n: Handle)
    ensures Lookup(Step(s, e), n)
            == if e.OnConnect? && e.n == n then Some(e.connectionType)
               else if (e.OnDisconnect? && e.n == n) || (e.OnPurge? && n !in e.active) then None
               else Lookup(s, n)
  {
    if e.OnPurge? {
      var gone := Gone(s, e.active);
      DisconnectAllKeys(s, gone);
      assert n in gone <==> n in s.networks && n !in e.active;
    }
  }

  lemma StepRest(s: State, e: Event)
    ensures Step(s, e).default
            == if e.OnType? then e.default
               else if (e.OnDisconnect? && e.n == s.default)
                       || (e.OnPurge? && s.default in s.networks && s.default !in e.active) then -1
               else s.default
    ensures Step(s, e).connectionType
            == if !e.OnType? then s.connectionType else if 0 <= e.connectionType <= 7 then e.connectionType else 0
  {
    if e.OnPurge? {
      PurgeLeavesActive(s, e.active);
      DisconnectAllType(s, Gone(s, e.active));
    }
  }

  lemma {:induction false} DisconnectAllType(s: State, ns: seq<Handle>)
    ensures DisconnectAll(s, ns).connectionType == s.connectionType
    decreases |ns|
  {
    if ns != [] { DisconnectAllType(Disconnect(s, ns[0]), ns[1..]); }
  }

  /** After any run the networks and their types, the default and the connection type are what
      the notifications say. */
  lemma {:induction false} StateOfARun(s: State, evs: seq<Event>, n: Handle)
    ensures Lookup(Exec(s, evs), n) == TypeAfter(s, evs, n)
    ensures Exec(s, evs).default == DefaultAfter(s, evs)
    ensures Exec(s, evs).connectionType == ConnectionTypeAfter(s, evs)
    decreases |evs|
  {
    if evs != [] {
      var before, last := evs[..|evs| - 1], evs[|evs| - 1];
      var s1 := Exec(s, before);
      ExecLast(s, evs);
      StateOfARun(s, before, n);
      StateOfARun(s, before, s1.default);
      StepNetworks(s1, last, n);
      StepRest(s1, last);
      hide Step, Exec;
    }
  }

  // ----- The notices that carry no change of networks ---------------------------------------------------------

  lemma {:induction false} LossesOnly(ns: seq<Handle>, x: Notice)
    requires !x.Disconnected?
    ensures multiset(Losses(ns))[x] == 0
  {
    if ns != [] { LossesOnly(ns[1..], x); }
  }

  lemma NewsCounts(s: State, e: Event, n: Handle)
    ensures multiset(News(s, e))[TypeChanged] == if e.OnType? then 1 else 0
    ensures multiset(News(s, e))[SoonToDisconnect(n)] == if e == OnSoon(n) && n in s.networks then 1 else 0
  {
    if e.OnPurge? {
      LossesOnly(Gone(s, e.active), TypeChanged);
      LossesOnly(Gone(s, e.active), SoonToDisconnect(n));
    }
  }

  /** After any run observers have been told of a change of type once for each report of one, and
      that a network will go once for each time the system said so while it was connected. */
  lemma {:induction false} NoticesOfARun(s: State, evs: seq<Event>, n: Handle)
    ensures multiset(AllNews(s, evs))[TypeChanged] == TypeReports(evs)
    ensures multiset(AllNews(s, evs))[SoonToDisconnect(n)] == SoonAfter(s, evs, n)
    decreases |evs|
  {
    if evs != [] {
      var before, last := evs[..|evs| - 1], evs[|evs| - 1];
      var s1 := Exec(s, before);
      ExecLast(s, evs);
      NoticesOfARun(s, before, n);
      StateOfARun(s, before, n);
      NewsCounts(s1, last, n);
      hide News, Step, AllNews, Exec;
    }
  }
}
