/** `NetworkChangeNotifierDelegateAndroid`
    (android/network_change_notifier_delegate_android.cc): the notifications coming from the
    system, the state they lead to, and what observers are told. */
module NetworkDelegates {
  import opened Basics

  type Handle = int

  const INVALID: Handle := -1

  datatype Notice =
    | Connected(n: Handle)
    | SoonToDisconnect(n: Handle)
    | Disconnected(n: Handle)
    | MadeDefault(n: Handle)
    | TypeChanged

  datatype State = State(networks: map<Handle, int>, default: Handle, connectionType: int, log: seq<Notice>)

  function Tell(s: State, notices: seq<Notice>): State { s.(log := s.log + notices) }

  /** Connection types the native side knows, or CONNECTION_UNKNOWN. */
  function ConvertConnectionType(t: int): (r: int)
    ensures 0 <= r <= 7
  {
    if 0 <= t <= 7 then t else 0
  }

  // ----- The notifications --------------------------------------------------------------------------

  function ConnectionTypeChanged(s: State, connectionType: int, default: Handle): State {
    var s1 := s.(connectionType := connectionType);
    if default != s.default then
      Tell(s1.(default := default), (if default in s.networks then [MadeDefault(default)] else []) + [TypeChanged])
    else Tell(s1, [TypeChanged])
  }

  function Connect(s: State, n: Handle, connectionType: int): State {
    var s1 := s.(networks := s.networks[n := connectionType]);
    if n in s.networks then s1 else Tell(s1, [Connected(n)] + if n == s.default then [MadeDefault(n)] else [])
  }

  function SoonDisconnect(s: State, n: Handle): State {
    if n in s.networks then Tell(s, [SoonToDisconnect(n)]) else s
  }

  function Disconnect(s: State, n: Handle): State {
    var s1 := if n == s.default then s.(default := INVALID) else s;
    if n in s.networks then Tell(s1.(networks := s.networks - {n}), [Disconnected(n)]) else s1
  }

  function DisconnectAll(s: State, ns: seq<Handle>): State
    decreases |ns|
  {
    if ns == [] then s else DisconnectAll(Disconnect(s, ns[0]), ns[1..])
  }

  /** std::map runs through its keys in ascending order. */
  ghost function Ascending(keys: set<Handle>): (r: seq<Handle>)
    ensures forall n :: n in r <==> n in keys
    ensures forall i, j :: 0 <= i < j < |r| ==> r[i] < r[j]
  {
    if keys == {} then []
    else
      LeastExists(keys);
      var m :| m in keys && forall k :: k in keys ==> m <= k;
      [m] + Ascending(keys - {m})
  }

  lemma Pick<T>(s: set<T>) returns (x: T)
    requires s != {}
    ensures x in s
  {
    x :| x in s;
  }

  lemma {:induction false} LeastExists(keys: set<Handle>)
    requires keys != {}
    ensures exists m :: m in keys && forall k :: k in keys ==> m <= k
    decreases |keys|
  {
    var x := Pick(keys);
    var rest := keys - {x};
    if rest == {} {
      assert forall k :: k in keys ==> k == x by { assert forall k :: k in keys ==> k in rest || k == x; }
    } else {
      LeastExists(rest);
      var m :| m in rest && forall k :: k in rest ==> m <= k;
      var l := if x <= m then x else m;
      assert l in keys && forall k :: k in keys ==> l <= k by {
        assert forall k :: k in keys ==> k in rest || k == x;
      }
    }
  }

  /** The connected networks that are not listed, in the order of the map. */
  ghost function Gone(s: State, active: seq<Handle>): seq<Handle> {
    Ascending(s.networks.Keys - set n | n in active)
  }

  ghost function Purge(s: State, active: seq<Handle>): State { DisconnectAll(s, Gone(s, active)) }

  // ----- What the log says ------------------------------------------------------------------------------

  /** Replaying connects and disconnects on a set of networks; None if a network is connected
      twice in a row or disconnected without being connected. */
  function Replay(keys: set<Handle>, log: seq<Notice>): Option<set<Handle>>
    decreases |log|
  {
    if log == [] then Some(keys)
    else
      match log[0]
      case Connected(n) => if n in keys then None else Replay(keys + {n}, log[1..])
      case Disconnected(n) => if n in keys then Replay(keys - {n}, log[1..]) else None
      case _ => Replay(keys, log[1..])
  }

  lemma {:induction false} ReplayConcat(keys: set<Handle>, a: seq<Notice>, b: seq<Notice>)
    ensures Replay(keys, a + b) == if Replay(keys, a).None? then None else Replay(Replay(keys, a).value, b)
    decreases |a|
  {
    if a == [] {
      assert a + b == b;
    } else {
      assert (a + b)[0] == a[0] && (a + b)[1..] == a[1..] + b;
      match a[0]
      case Connected(n) => if n !in keys { ReplayConcat(keys + {n}, a[1..], b); }
      case Disconnected(n) => if n in keys { ReplayConcat(keys - {n}, a[1..], b); }
      case _ => ReplayConcat(keys, a[1..], b);
    }
  }

  /** The network that is both the default and connected. */
  function Active(s: State): Option<Handle> { if s.default in s.networks then Some(s.default) else None }

  /** The networks observers are told have become the default, in order. */
  function Defaults(log: seq<Notice>): seq<Handle> {
    if log == [] then []
    else (if log[0].MadeDefault? then [log[0].n] else []) + Defaults(log[1..])
  }

  lemma {:induction false} DefaultsConcat(a: seq<Notice>, b: seq<Notice>)
    ensures Defaults(a + b) == Defaults(a) + Defaults(b)
    decreases |a|
  {
    if a == [] {
      assert a + b == b;
    } else {
      assert (a + b)[0] == a[0] && (a + b)[1..] == a[1..] + b;
      DefaultsConcat(a[1..], b);
    }
  }

  /** The network that becomes active between two states. */
  function Activated(s: State, s': State): seq<Handle> {
    if Active(s').Some? && Active(s') != Active(s) then [Active(s').value] else []
  }

  /** The step adds news to the log; they replay to the networks connected now; and they
      announce a default exactly when a network becomes active. */
  ghost predicate Faithful(s: State, s': State, news: seq<Notice>) {
    && s'.log == s.log + news
    && Replay(s.networks.Keys, news) == Some(s'.networks.Keys)
    && Defaults(news) == Activated(s, s')
  }

  // ----- One notification ------------------------------------------------------------------------------------

  datatype Event =
    | OnType(connectionType: int, default: Handle)
    | OnConnect(n: Handle, connectionType: int)
    | OnSoon(n: Handle)
    | OnDisconnect(n: Handle)
    | OnPurge(active: seq<Handle>)

  ghost function Step(s: State, e: Event): State {
    match e
    case OnType(t, d) => ConnectionTypeChanged(s, ConvertConnectionType(t), d)
    case OnConnect(n, t) => Connect(s, n, t)
    case OnSoon(n) => SoonDisconnect(s, n)
    case OnDisconnect(n) => Disconnect(s, n)
    case OnPurge(active) => Purge(s, active)
  }

  function Losses(ns: seq<Handle>): seq<Notice> {
    if ns == [] then [] else [Disconnected(ns[0])] + Losses(ns[1..])
  }

  /** What observers are told about an event: in a purge, of every network that is gone. */
  ghost function News(s: State, e: Event): seq<Notice> {
    match e
    case OnType(t, d) => (if d != s.default && d in s.networks then [MadeDefault(d)] else []) + [TypeChanged]
    case OnConnect(n, t) => if n in s.networks then [] else [Connected(n)] + if n == s.default then [MadeDefault(n)] else []
    case OnSoon(n) => if n in s.networks then [SoonToDisconnect(n)] else []
    case OnDisconnect(n) => if n in s.networks then [Disconnected(n)] else []
    case OnPurge(active) => Losses(Gone(s, active))
  }

  /** Losing the default falls back on the invalid handle, which must not itself be connected. */
  predicate LosesDefaultToInvalid(s: State, e: Event) {
    match e
    case OnDisconnect(n) => n == s.default && n != INVALID && INVALID in s.networks
    case OnPurge(active) =>
      s.default in s.networks && s.default !in active && INVALID in s.networks && INVALID in active
    case _ => false
  }

  /** Every notification is reported faithfully, unless the invalid handle is connected and the
      default network goes away; and then it is not. */
  lemma StepFaithful(s: State, e: Event)
    ensures Faithful(s, Step(s, e), News(s, e)) <==> !LosesDefaultToInvalid(s, e)
  {
    var s' := Step(s, e);
    var news := News(s, e);
    assert s.log + [] == s.log;
    if e.OnPurge? {
      PurgeFaithful(s, e.active);
      return;
    }
    assert s'.log == s.log + news;
    match e
    case OnType(t, d) =>
      OneNotice(s.networks.Keys, TypeChanged);
      if d != s.default && d in s.networks {
        assert news == [MadeDefault(d), TypeChanged] && news[1..] == [TypeChanged];
      } else {
        assert news == [TypeChanged];
      }
    case OnConnect(n, t) =>
      if n !in s.networks {
        assert s'.networks.Keys == s.networks.Keys + {n};
        var rest := if n == s.default then [MadeDefault(n)] else [];
        OneNotice(s'.networks.Keys, MadeDefault(n));
        assert news == [Connected(n)] + rest && news[1..] == rest;
      } else {
        assert s'.networks.Keys == s.networks.Keys;
      }
    case OnSoon(n) => OneNotice(s.networks.Keys, SoonToDisconnect(n));
    case OnDisconnect(n) =>
      OneNotice(s.networks.Keys, Disconnected(n));
      assert n in s.networks ==> s'.networks.Keys == s.networks.Keys - {n};
    case _ =>
  }

  /** A log of one entry. */
  lemma OneNotice(keys: set<Handle>, x: Notice)
    ensures Defaults([x]) == if x.MadeDefault? then [x.n] else []
    ensures Replay(keys, [x]) == if x.Connected? then if x.n in keys then None else Some(keys + {x.n})
                                 else if x.Disconnected? then if x.n in keys then Some(keys - {x.n}) else None
                                 else Some(keys)
  {
    assert [x][1..] == [];
  }

  // ----- Runs -------------------------------------------------------------------------------------------------

  ghost function Exec(s: State, evs: seq<Event>): State
    decreases |evs|
  {
    if evs == [] then s else Exec(Step(s, evs[0]), evs[1..])
  }

  /** Everything told to observers in the course of a run. */
  ghost function AllNews(s: State, evs: seq<Event>): seq<Notice>
    decreases |evs|
  {
    if evs == [] then [] else News(s, evs[0]) + AllNews(Step(s, evs[0]), evs[1..])
  }

  /** The networks that become active in the course of a run, in order. */
  ghost function AllActivated(s: State, evs: seq<Event>): seq<Handle>
    decreases |evs|
  {
    if evs == [] then []
    else Activated(s, Step(s, evs[0])) + AllActivated(Step(s, evs[0]), evs[1..])
  }

  /** No network has the invalid handle. */
  predicate ValidHandles(s: State) { INVALID !in s.networks }

  ghost predicate ValidEvents(evs: seq<Event>) {
    forall i :: 0 <= i < |evs| && evs[i].OnConnect? ==> evs[i].n != INVALID
  }

  lemma StepKeepsValid(s: State, e: Event)
    requires ValidHandles(s) && (e.OnConnect? ==> e.n != INVALID)
    ensures ValidHandles(Step(s, e))
  {
    if e.OnPurge? { PurgeLeavesActive(s, e.active); }
  }

  /** Over every run with valid handles, replaying what observers were told from the initial
      networks gives the networks connected now, with connects and disconnects of each network
      alternating strictly, and the defaults announced are exactly the networks that became
      both default and connected, in that order. */
  lemma {:induction false} RunFaithful(s: State, evs: seq<Event>)
    requires ValidHandles(s) && ValidEvents(evs)
    ensures ValidHandles(Exec(s, evs))
    ensures Exec(s, evs).log == s.log + AllNews(s, evs)
    ensures Replay(s.networks.Keys, AllNews(s, evs)) == Some(Exec(s, evs).networks.Keys)
    ensures Defaults(AllNews(s, evs)) == AllActivated(s, evs)
    decreases |evs|
  {
    if evs == [] {
      assert s.log + [] == s.log;
    } else {
      hide Step, News, Replay, Defaults, Activated;
      var s1, news := Step(s, evs[0]), News(s, evs[0]);
      var rest := AllNews(s1, evs[1..]);
      StepFaithful(s, evs[0]);
      StepKeepsValid(s, evs[0]);
      RunFaithful(s1, evs[1..]);
      ReplayConcat(s.networks.Keys, news, rest);
      DefaultsConcat(news, rest);
      Assoc(s.log, news, rest);
    }
  }

  // ----- Purging ------------------------------------------------------------------------------------------------

  function Disconnects(ns: seq<Handle>): seq<Event> { seq(|ns|, i requires 0 <= i < |ns| => OnDisconnect(ns[i])) }

  /** A purge does what a row of disconnects does. */
  lemma {:induction false} PurgeIsDisconnects(s: State, ns: seq<Handle>)
    ensures DisconnectAll(s, ns) == Exec(s, Disconnects(ns))
    decreases |ns|
  {
    if ns != [] {
      assert Disconnects(ns)[1..] == Disconnects(ns[1..]);
      PurgeIsDisconnects(Disconnect(s, ns[0]), ns[1..]);
    }
  }

  lemma {:induction false} DisconnectAllKeys(s: State, ns: seq<Handle>)
    ensures DisconnectAll(s, ns).networks == s.networks - (set n | n in ns)
    ensures DisconnectAll(s, ns).default == if s.default in ns then INVALID else s.default
    decreases |ns|
  {
    if ns != [] {
      var s1 := Disconnect(s, ns[0]);
      DisconnectAllKeys(s1, ns[1..]);
      assert (set n | n in ns) == {ns[0]} + set n | n in ns[1..];
      assert s1.networks == s.networks - {ns[0]};
      assert s.networks - ({ns[0]} + set n | n in ns[1..]) == s1.networks - set n | n in ns[1..];
    }
  }

  /** After a purge exactly the active networks are left, and the default survives if it is
      one of them or was not connected. */
  lemma PurgeLeavesActive(s: State, active: seq<Handle>)
    ensures Purge(s, active).networks.Keys == s.networks.Keys * set n | n in active
    ensures Purge(s, active).default
            == if s.default in s.networks && s.default !in active then INVALID else s.default
  {
    var gone := Ascending(s.networks.Keys - set n | n in active);
    DisconnectAllKeys(s, gone);
    assert (set n | n in gone) == s.networks.Keys - set n | n in active;
  }

  /** Disconnecting a row of different networks tells of each of them and of nothing else. */
  lemma {:induction false} DisconnectAllNews(s: State, ns: seq<Handle>)
    requires forall i :: 0 <= i < |ns| ==> ns[i] in s.networks
    requires forall i, j :: 0 <= i < j < |ns| ==> ns[i] != ns[j]
    ensures DisconnectAll(s, ns).log == s.log + Losses(ns)
    ensures Replay(s.networks.Keys, Losses(ns)) == Some(s.networks.Keys - set n | n in ns)
    ensures Defaults(Losses(ns)) == []
    decreases |ns|
  {
    if ns == [] {
      assert s.log + [] == s.log;
      assert s.networks.Keys - (set n | n in ns) == s.networks.Keys;
    } else {
      var n, rest := ns[0], ns[1..];
      var s1 := Disconnect(s, n);
      assert s1.networks.Keys == s.networks.Keys - {n} && s1.log == s.log + [Disconnected(n)];
      forall i | 0 <= i < |rest|
        ensures rest[i] in s1.networks
      {
        assert rest[i] == ns[i + 1] != n;
      }
      DisconnectAllNews(s1, rest);
      hide Disconnect;
      var news := Losses(ns);
      assert news[0] == Disconnected(n) && news[1..] == Losses(rest);
      Assoc(s.log, [Disconnected(n)], Losses(rest));
      assert (set m | m in ns) == {n} + set m | m in rest;
      assert s.networks.Keys - (set m | m in ns) == s1.networks.Keys - set m | m in rest;
    }
  }

  /** A purge tells of every network that is gone and announces no default; that is faithful
      unless the default goes and a network with the invalid handle stays. */
  lemma PurgeFaithful(s: State, active: seq<Handle>)
    ensures Defaults(News(s, OnPurge(active))) == []
    ensures Faithful(s, Purge(s, active), News(s, OnPurge(active))) <==> !LosesDefaultToInvalid(s, OnPurge(active))
  {
    var gone := Gone(s, active);
    assert (set n | n in gone) == s.networks.Keys - set n | n in active;
    forall i | 0 <= i < |gone|
      ensures gone[i] in s.networks
    {
      assert gone[i] in gone;
    }
    DisconnectAllNews(s, gone);
    PurgeLeavesActive(s, active);
    hide DisconnectAll, Losses, Replay, Defaults, Ascending;
    assert s.networks.Keys - (s.networks.Keys - set n | n in active) == s.networks.Keys * set n | n in active;
  }

  /** The first key of an ascending run is the least one. */
  lemma AscendingFirst(keys: set<Handle>, k: Handle)
    requires k in keys && forall j :: j in keys ==> k <= j
    ensures Ascending(keys) == [k] + Ascending(keys - {k})
  {
    LeastExists(keys);
    var m :| m in keys && forall j :: j in keys ==> m <= j;
    assert m == k;
  }

  lemma EmptyAscending()
    ensures Ascending({}) == []
  {
  }

  /** Looking at the least key of todo decides whether it is the next one to go. */
  lemma NextGone(todo: set<Handle>, active: set<Handle>, k: Handle)
    requires k in todo && forall j :: j in todo ==> k <= j
    ensures Ascending(todo - active)
            == (if k in active then [] else [k]) + Ascending((todo - {k}) - active)
  {
    hide Ascending;
    if k in active {
      assert todo - active == (todo - {k}) - active;
    } else {
      AscendingFirst(todo - active, k);
      assert (todo - active) - {k} == (todo - {k}) - active;
    }
  }

  // ----- The object -----------------------------------------------------------------------------------------------

  /** s' reports the event faithfully, exactly unless the default is lost to the invalid handle,
      and still has only valid handles if it had and got only such. */
  ghost predicate Reported(s: State, s': State, e: Event) {
    && (Faithful(s, s', News(s, e)) <==> !LosesDefaultToInvalid(s, e))
    && (ValidHandles(s) && (e.OnConnect? ==> e.n != INVALID) ==> ValidHandles(s') && Faithful(s, s', News(s, e)))
  }

  lemma EventReported(s: State, e: Event)
    ensures Reported(s, Step(s, e), e)
  {
    StepFaithful(s, e);
    if ValidHandles(s) && (e.OnConnect? ==> e.n != INVALID) { StepKeepsValid(s, e); }
    hide Step, News, Faithful;
  }

  class NetworkChangeNotifierDelegateAndroid {
    var networkMap: map<Handle, int>
    var defaultNetwork: Handle
    var connectionType: int
    var observed: seq<Notice>

    function View(): State
      reads this
    {
      State(networkMap, defaultNetwork, connectionType, observed)
    }

    constructor (networks: map<Handle, int>, default: Handle, t: int)
      ensures View() == State(networks, default, ConvertConnectionType(t), [])
    {
      networkMap, defaultNetwork, connectionType, observed := networks, default, ConvertConnectionType(t), [];
    }

    method Notify(n: Notice)
      modifies this`observed
      ensures View() == Tell(old(View()), [n])
    {
      observed := observed + [n];
    }

    // Each handler reports faithfully, exactly unless a network with the invalid handle becomes
    // the default that way, and keeps the invalid handle out of the map.

    method NotifyConnectionTypeChanged(newConnectionType: int, default: Handle)
      modifies this
      ensures View() == Step(old(View()), OnType(newConnectionType, default))
      ensures Reported(old(View()), View(), OnType(newConnectionType, default))
    {
      EventReported(View(), OnType(newConnectionType, default));
      hide Reported;
      connectionType := ConvertConnectionType(newConnectionType);
      if default != defaultNetwork {
        defaultNetwork := default;
        if default in networkMap {
          Notify(MadeDefault(default));
        }
      }
      Notify(TypeChanged);
    }

    method NotifyOfNetworkConnect(n: Handle, t: int)
      modifies this
      ensures View() == Step(old(View()), OnConnect(n, t)) && Reported(old(View()), View(), OnConnect(n, t))
    {
      EventReported(View(), OnConnect(n, t));
      hide Reported;
      var alreadyExists := n in networkMap;
      networkMap := networkMap[n := t];
      if !alreadyExists {
        Notify(Connected(n));
        if n == defaultNetwork {
          Notify(MadeDefault(n));
        }
      }
    }

    method NotifyOfNetworkSoonToDisconnect(n: Handle)
      modifies this
      ensures View() == Step(old(View()), OnSoon(n)) && Reported(old(View()), View(), OnSoon(n))
    {
      EventReported(View(), OnSoon(n));
      hide Reported;
      if n !in networkMap {
        return;
      }
      Notify(SoonToDisconnect(n));
    }

    method NotifyOfNetworkDisconnect(n: Handle)
      modifies this
      ensures View() == Step(old(View()), OnDisconnect(n)) && Reported(old(View()), View(), OnDisconnect(n))
    {
      EventReported(View(), OnDisconnect(n));
      hide Reported;
      if n == defaultNetwork {
        defaultNetwork := INVALID;
      }
      if n !in networkMap {
        return;
      }
      networkMap := networkMap - {n};
      Notify(Disconnected(n));
    }

    /** The two nested loops over the map and the list of active networks. */
    method FindDisconnected(active: seq<Handle>) returns (disconnected: seq<Handle>)
      ensures disconnected == Ascending(networkMap.Keys - set n | n in active)
    {
      hide Ascending;
      disconnected := [];
      ghost var a := set n | n in active;
      EmptyAscending();
      var todo := networkMap.Keys;
      while todo != {}
        invariant todo <= networkMap.Keys
        invariant disconnected + Ascending(todo - a) == Ascending(networkMap.Keys - a)
        decreases |todo|
      {
        LeastExists(todo);
        var i :| i in todo && forall j :: j in todo ==> i <= j;
        NextGone(todo, a, i);
        var found := IsListed(i, active);
        assert found <==> i in a;
        Assoc(disconnected, if found then [] else [i], Ascending((todo - {i}) - a));
        if !found {
          disconnected := disconnected + [i];
        } else {
          assert disconnected + [] == disconnected;
        }
        todo := todo - {i};
      }
      assert todo - a == {};
    }

    /** The inner loop. */
    static method IsListed(i: Handle, active: seq<Handle>) returns (found: bool)
      ensures found <==> i in active
    {
      found := false;
      var j := 0;
      while j < |active|
        invariant 0 <= j <= |active| && !found
        invariant i !in active[..j]
      {
        if active[j] == i {
          found := true;
          break;
        }
        j := j + 1;
      }
    }

    method NotifyPurgeActiveNetworkList(active: seq<Handle>)
      modifies this
      ensures View() == Step(old(View()), OnPurge(active)) && Reported(old(View()), View(), OnPurge(active))
      ensures networkMap.Keys == old(networkMap).Keys * set n | n in active
    {
      EventReported(View(), OnPurge(active));
      PurgeLeavesActive(View(), active);
      hide Reported, Ascending;
      var disconnected := FindDisconnected(active);
      var k := 0;
      assert disconnected[0..] == disconnected;
      while k < |disconnected|
        invariant 0 <= k <= |disconnected|
        invariant DisconnectAll(View(), disconnected[k..]) == Purge(old(View()), active)
      {
        assert disconnected[k..][1..] == disconnected[k + 1..];
        NotifyOfNetworkDisconnect(disconnected[k]);
        k := k + 1;
      }
    }
  }

  /** Any notification. */
  method Dispatch(d: NetworkChangeNotifierDelegateAndroid, e: Event)
    modifies d
    ensures d.View() == Step(old(d.View()), e)
  {
    hide Step, Reported;
    match e
    case OnType(t, default) => d.NotifyConnectionTypeChanged(t, default);
    case OnConnect(n, t) => d.NotifyOfNetworkConnect(n, t);
    case OnSoon(n) => d.NotifyOfNetworkSoonToDisconnect(n);
    case OnDisconnect(n) => d.NotifyOfNetworkDisconnect(n);
    case OnPurge(active) => d.NotifyPurgeActiveNetworkList(active);
  }

  /** After any sequence of notifications with valid handles, what observers of the object were
      told replays from the initial networks to the networks it has now, and the defaults they
      were told of are the networks that became default and connected, in that order. */
  method Drive(networks: map<Handle, int>, default: Handle, t: int, evs: seq<Event>)
    returns (d: NetworkChangeNotifierDelegateAndroid)
    requires INVALID !in networks && ValidEvents(evs)
    ensures fresh(d) && d.View() == Exec(State(networks, default, ConvertConnectionType(t), []), evs)
    ensures Replay(networks.Keys, d.observed) == Some(d.networkMap.Keys)
    ensures Defaults(d.observed) == AllActivated(State(networks, default, ConvertConnectionType(t), []), evs)
  {
    d := new NetworkChangeNotifierDelegateAndroid(networks, default, t);
    ghost var s := d.View();
    RunFaithful(s, evs);
    hide Step, News, Replay, Defaults, Activated;
    var i := 0;
    assert evs[0..] == evs;
    while i < |evs|
      invariant 0 <= i <= |evs| && fresh(d)
      invariant Exec(d.View(), evs[i..]) == Exec(s, evs)
    {
      assert evs[i..][0] == evs[i] && evs[i..][1..] == evs[i + 1..];
      Dispatch(d, evs[i]);
      i := i + 1;
    }
    assert [] + AllNews(s, evs) == AllNews(s, evs);
  }
}
