/** IP address prefixes (base/ip_address.cc): byte and mask arithmetic against a
    specification in single bits. An address is a sequence of bytes, most significant
    first; valid addresses have 4 or 16. */
module IpAddresses {

  type Address = seq<bv8>

  predicate IsIPv4(a: Address) { |a| == 4 }

  predicate IsIPv6(a: Address) { |a| == 16 }

  predicate IsValid(a: Address) { IsIPv4(a) || IsIPv6(a) }

  // ----- Bits ------------------------------------------------------------------------------------

  /** Bit j of a byte, counted from the most significant one. */
  predicate Bit(b: bv8, j: nat)
    requires j < 8
  {
    b & SingleBit(j) != 0
  }

  function SingleBit(j: nat): bv8
    requires j < 8
  {
    match j
    case 0 => 0x80 case 1 => 0x40 case 2 => 0x20 case 3 => 0x10
    case 4 => 0x08 case 5 => 0x04 case 6 => 0x02 case _ => 0x01
  }

  /** Bit k of an address. */
  predicate AddrBit(a: Address, k: nat)
    requires k < 8 * |a|
  {
    Bit(a[k / 8], k % 8)
  }

  ghost predicate SamePrefix(a: Address, b: Address, n: nat) {
    && n <= 8 * |a| && n <= 8 * |b|
    && forall k :: 0 <= k < n ==> AddrBit(a, k) == AddrBit(b, k)
  }

  /** n is the length of the longest common leading bit string. */
  ghost predicate IsCommonPrefixLength(a: Address, b: Address, n: nat)
    requires |a| == |b|
  {
    SamePrefix(a, b, n) && (n < 8 * |a| ==> AddrBit(a, n) != AddrBit(b, n))
  }

  lemma CommonPrefixDecides(a: Address, b: Address, c: nat, n: nat)
    requires |a| == |b| && IsCommonPrefixLength(a, b, c)
    ensures SamePrefix(a, b, n) <==> n <= c
  {
    if c < 8 * |a| {
      assert AddrBit(a, c) != AddrBit(b, c);
    }
  }

  // ----- One byte -----------------------------------------------------------------------------------

  /** `0xFF << (8 - r)` in eight bits. */
  function Mask(r: nat): bv8
    requires 1 <= r <= 7
  {
    0xFF << (8 - r)
  }

  /** Equal bits before j. */
  ghost predicate SameBits(x: bv8, y: bv8, j: nat)
    requires j <= 8
  {
    forall k :: 0 <= k < j ==> Bit(x, k) == Bit(y, k)
  }

  lemma MaskGrows(r: nat)
    requires 1 <= r <= 7
    ensures Mask(1) == SingleBit(0)
    ensures r < 7 ==> Mask(r + 1) == Mask(r) | SingleBit(r)
  {
  }

  predicate EqualUnder(x: bv8, y: bv8, m: bv8) { (x & m) == (y & m) }

  lemma AndSplit(x: bv8, y: bv8, m: bv8, s: bv8)
    ensures EqualUnder(x, y, m | s) <==> EqualUnder(x, y, m) && EqualUnder(x, y, s)
  {
    DiffUnder(x, y, m);
    DiffUnder(x, y, s);
    DiffUnder(x, y, m | s);
    ZeroUnder(x ^ y, m, s);
  }

  lemma DiffUnder(x: bv8, y: bv8, m: bv8)
    ensures EqualUnder(x, y, m) <==> (x ^ y) & m == 0
  {
  }

  lemma ZeroUnder(d: bv8, m: bv8, s: bv8)
    ensures d & (m | s) == 0 <==> d & m == 0 && d & s == 0
  {
  }

  lemma OneBit(x: bv8, y: bv8, j: nat)
    requires j < 8
    ensures EqualUnder(x, y, SingleBit(j)) <==> Bit(x, j) == Bit(y, j)
    ensures Bit(x ^ y, j) <==> Bit(x, j) != Bit(y, j)
  {
  }

  lemma SameBitsStep(x: bv8, y: bv8, r: nat)
    requires 1 <= r <= 8
    ensures SameBits(x, y, r) <==> SameBits(x, y, r - 1) && Bit(x, r - 1) == Bit(y, r - 1)
    ensures SameBits(x, y, 0)
  {
    hide Bit;
  }

  /** Comparing under the mask compares the first r bits. */
  lemma {:induction false} MaskedEqual(x: bv8, y: bv8, r: nat)
    requires 1 <= r <= 7
    ensures EqualUnder(x, y, Mask(r)) <==> SameBits(x, y, r)
  {
    hide Mask, SingleBit, Bit, SameBits, EqualUnder;
    MaskGrows(if r > 1 then r - 1 else 1);
    OneBit(x, y, r - 1);
    SameBitsStep(x, y, r);
    if r > 1 {
      MaskedEqual(x, y, r - 1);
      AndSplit(x, y, Mask(r - 1), SingleBit(r - 1));
    }
  }

  lemma AllBitsEqual(x: bv8, y: bv8)
    ensures x == y <==> SameBits(x, y, 8)
  {
    MaskedEqual(x, y, 7);
    OneBit(x, y, 7);
    assert Mask(7) == 0xFE && SingleBit(7) == 0x01;
    AndSplit(x, y, 0xFE, 0x01);
    assert x & 0xFF == x && y & 0xFF == y;
    SameBitsStep(x, y, 8);
    hide Mask, SingleBit, Bit, SameBits;
  }

  function ShiftedBy(z: bv8, j: nat): bv8 {
    if j == 0 then z else ShiftedBy(z, j - 1) << 1
  }

  /** Left shifts bring the next bit to the top. */
  lemma BitMovesUp(z: bv8, j: nat)
    requires j < 7
    ensures Bit(z << 1, j) == Bit(z, j + 1)
  {
  }

  lemma {:induction false} TopAfter(z: bv8, j: nat, k: nat)
    requires j + k < 8
    ensures Bit(ShiftedBy(z, j), k) == Bit(z, j + k)
    decreases j
  {
    if j > 0 {
      TopAfter(z, j - 1, k + 1);
      BitMovesUp(ShiftedBy(z, j - 1), k);
    }
  }

  // ----- From bytes to addresses --------------------------------------------------------------------------

  /** Equal whole bytes and equal leading bits of the next byte are equal leading bits. */
  lemma PrefixByBytes(a: Address, b: Address, i: nat, r: nat)
    requires r <= 8 && i <= |a| && i <= |b| && (r > 0 ==> i < |a| && i < |b|)
    requires forall k :: 0 <= k < i ==> a[k] == b[k]
    ensures SamePrefix(a, b, 8 * i + r) <==> (r > 0 ==> SameBits(a[i], b[i], r))
  {
    hide Bit;
    if r > 0 && SamePrefix(a, b, 8 * i + r) {
      forall k | 0 <= k < r
        ensures Bit(a[i], k) == Bit(b[i], k)
      {
        assert AddrBit(a, 8 * i + k) == AddrBit(b, 8 * i + k);
      }
    }
    if r > 0 ==> SameBits(a[i], b[i], r) {
      forall k | 0 <= k < 8 * i + r
        ensures AddrBit(a, k) == AddrBit(b, k)
      {
        assert k / 8 < i || (k / 8 == i && k % 8 < r);
      }
    }
  }

  lemma DifferentByte(a: Address, b: Address, i: nat, n: nat)
    requires i < |a| && i < |b| && a[i] != b[i] && 8 * i + 8 <= n
    ensures !SamePrefix(a, b, n)
  {
    if SamePrefix(a, b, n) {
      forall k | 0 <= k < 8
        ensures Bit(a[i], k) == Bit(b[i], k)
      {
        assert AddrBit(a, 8 * i + k) == AddrBit(b, 8 * i + k);
      }
      AllBitsEqual(a[i], b[i]);
    }
  }

  /** `IPAddressPrefixCheck`: whole bytes, then one byte under a mask. */
  method IPAddressPrefixCheck(ipAddress: Address, ipPrefix: Address, bits: nat) returns (ok: bool)
    requires bits <= 8 * |ipAddress| && bits <= 8 * |ipPrefix|
    ensures ok <==> SamePrefix(ipAddress, ipPrefix, bits)
  {
    hide SamePrefix, SameBits, Bit, Mask, EqualUnder;
    var entire := bits / 8;
    var i := 0;
    while i < entire
      invariant 0 <= i <= entire
      invariant forall k :: 0 <= k < i ==> ipAddress[k] == ipPrefix[k]
    {
      if ipAddress[i] != ipPrefix[i] {
        DifferentByte(ipAddress, ipPrefix, i, bits);
        return false;
      }
      i := i + 1;
    }
    var remaining := bits % 8;
    PrefixByBytes(ipAddress, ipPrefix, entire, remaining);
    if remaining != 0 {
      var mask := Mask(remaining);
      MaskedEqual(ipAddress[entire], ipPrefix[entire], remaining);
      if !EqualUnder(ipAddress[entire], ipPrefix[entire], mask) {
        return false;
      }
    }
    ok := true;
  }

  /** The inner loop of `CommonPrefixLength`: the first bit in which two different bytes differ. */
  method FirstDifference(x: bv8, y: bv8) returns (j: nat)
    requires x != y
    ensures j < 8 && SameBits(x, y, j) && Bit(x, j) != Bit(y, j)
  {
    var diff := x ^ y;
    j := 0;
    while j < 8
      invariant 0 <= j <= 8
      invariant diff == ShiftedBy(x ^ y, j)
      invariant SameBits(x, y, j)
    {
      TopAfter(x ^ y, j, 0);
      OneBit(x, y, j);
      assert SingleBit(0) == 0x80;
      if diff & 0x80 != 0 {
        return;
      }
      diff := diff << 1;
      j := j + 1;
    }
    AllBitsEqual(x, y);
    assert false;
  }

  /** `CommonPrefixLength`: the length of the longest common leading bit string. */
  method CommonPrefixLength(a1: Address, a2: Address) returns (n: nat)
    requires |a1| == |a2|
    ensures IsCommonPrefixLength(a1, a2, n)
  {
    hide Bit;
    var i := 0;
    while i < |a1|
      invariant 0 <= i <= |a1|
      invariant forall k :: 0 <= k < i ==> a1[k] == a2[k]
    {
      if a1[i] != a2[i] {
        var j := FirstDifference(a1[i], a2[i]);
        PrefixByBytes(a1, a2, i, j);
        assert (8 * i + j) / 8 == i && (8 * i + j) % 8 == j;
        return i * 8 + j;
      }
      i := i + 1;
    }
    PrefixByBytes(a1, a2, |a1|, 0);
    n := |a1| * 8;
  }

  /** `MaskPrefixLength`: how many ones the mask starts with. */
  method MaskPrefixLength(mask: Address) returns (n: nat)
    ensures n <= 8 * |mask|
    ensures forall k :: 0 <= k < n ==> AddrBit(mask, k)
    ensures n < 8 * |mask| ==> !AddrBit(mask, n)
  {
    var allOnes := seq(|mask|, _ => 0xFF as bv8);
    n := CommonPrefixLength(mask, allOnes);
    forall k | 0 <= k < 8 * |mask|
      ensures AddrBit(allOnes, k)
    {
      OnesHaveBits(k % 8);
      assert allOnes[k / 8] == 0xFF;
    }
  }

  lemma OnesHaveBits(j: nat)
    requires j < 8
    ensures Bit(0xFF, j)
  {
  }

  // ----- IPv4-mapped addresses ------------------------------------------------------------------------------

  /** Ten zero bytes and two of ones, section 2.5.5.2 of RFC 4291. */
  const MAPPED_PREFIX: Address := [0, 0, 0, 0, 0, 0, 0, 0, 0, 0, 0xFF, 0xFF]

  predicate IsIPv4MappedIPv6(a: Address) { IsIPv6(a) && MAPPED_PREFIX <= a }

  function ConvertIPv4ToIPv4MappedIPv6(a: Address): (r: Address)
    requires IsIPv4(a)
    ensures IsIPv4MappedIPv6(r) && ConvertIPv4MappedIPv6ToIPv4(r) == a
  {
    MAPPED_PREFIX + a
  }

  function ConvertIPv4MappedIPv6ToIPv4(a: Address): (r: Address)
    requires IsIPv4MappedIPv6(a)
    ensures IsIPv4(r) && MAPPED_PREFIX + r == a
  {
    a[12..]
  }

  /** The form of a mapped address: ten bytes of zeros, two of ones, and the IPv4 address. */
  lemma MappedForm(a: Address, v4: Address)
    ensures IsIPv4MappedIPv6(a)
            <==> |a| == 16 && (forall i :: 0 <= i < 10 ==> a[i] == 0) && a[10] == 0xFF && a[11] == 0xFF
    ensures IsIPv4(v4) ==>
              var r := ConvertIPv4ToIPv4MappedIPv6(v4);
              && |r| == 16 && (forall i :: 0 <= i < 10 ==> r[i] == 0) && r[10] == 0xFF && r[11] == 0xFF
              && forall i :: 0 <= i < 4 ==> r[12 + i] == v4[i]
  {
    if |a| == 16 && (forall i :: 0 <= i < 10 ==> a[i] == 0) && a[10] == 0xFF && a[11] == 0xFF {
      assert a[..12] == MAPPED_PREFIX;
      assert MAPPED_PREFIX <= a;
    }
    if IsIPv4MappedIPv6(a) {
      assert forall i :: 0 <= i < 12 ==> a[i] == MAPPED_PREFIX[i];
    }
  }

  /** The address in 128 bits. */
  function Widen(a: Address): (r: Address)
    requires IsValid(a)
    ensures IsIPv6(r)
  {
    if IsIPv4(a) then ConvertIPv4ToIPv4MappedIPv6(a) else a
  }

  /** A common front of whole bytes adds its bits to a prefix. */
  lemma PrefixBehindFront(front: Address, a: Address, b: Address, n: nat)
    requires n <= 8 * |a| && n <= 8 * |b|
    ensures SamePrefix(front + a, front + b, 8 * |front| + n) <==> SamePrefix(a, b, n)
  {
    hide Bit;
    var f := |front|;
    forall k | 0 <= k < n
      ensures AddrBit(front + a, 8 * f + k) == AddrBit(a, k) && AddrBit(front + b, 8 * f + k) == AddrBit(b, k)
    {
      assert (8 * f + k) / 8 == f + k / 8 && (8 * f + k) % 8 == k % 8;
    }
    if SamePrefix(a, b, n) {
      forall k | 0 <= k < 8 * f + n
        ensures AddrBit(front + a, k) == AddrBit(front + b, k)
      {
        if k >= 8 * f {
          assert AddrBit(a, k - 8 * f) == AddrBit(b, k - 8 * f);
        }
      }
    }
    if SamePrefix(front + a, front + b, 8 * f + n) {
      forall k | 0 <= k < n
        ensures AddrBit(a, k) == AddrBit(b, k)
      {
        assert AddrBit(front + a, 8 * f + k) == AddrBit(front + b, 8 * f + k);
      }
    }
  }

  /** `IPAddressMatchesPrefix`: agreement on the prefix, in 128 bits, whatever the two sizes. */
  method IPAddressMatchesPrefix(ipAddress: Address, ipPrefix: Address, bits: nat) returns (ok: bool)
    requires IsValid(ipAddress) && IsValid(ipPrefix) && bits <= 8 * |ipPrefix|
    ensures ok <==> SamePrefix(Widen(ipAddress), Widen(ipPrefix), if IsIPv4(ipPrefix) then 96 + bits else bits)
    decreases if |ipAddress| == |ipPrefix| then 0 else 1
  {
    hide SamePrefix;
    if |ipAddress| != |ipPrefix| {
      if IsIPv4(ipAddress) {
        ok := IPAddressMatchesPrefix(ConvertIPv4ToIPv4MappedIPv6(ipAddress), ipPrefix, bits);
        return;
      }
      ok := IPAddressMatchesPrefix(ipAddress, ConvertIPv4ToIPv4MappedIPv6(ipPrefix), 96 + bits);
      return;
    }
    ok := IPAddressPrefixCheck(ipAddress, ipPrefix, bits);
    if IsIPv4(ipAddress) {
      PrefixBehindFront(MAPPED_PREFIX, ipAddress, ipPrefix, bits);
    }
  }

  /** Matching a prefix is having a common prefix that is long enough. */
  lemma MatchesIffCommonPrefix(a: Address, p: Address, bits: nat, common: nat)
    requires IsValid(a) && IsValid(p) && bits <= 8 * |p|
    requires IsCommonPrefixLength(Widen(a), Widen(p), common)
    ensures SamePrefix(Widen(a), Widen(p), if IsIPv4(p) then 96 + bits else bits)
            <==> common >= if IsIPv4(p) then 96 + bits else bits
  {
    CommonPrefixDecides(Widen(a), Widen(p), common, if IsIPv4(p) then 96 + bits else bits);
  }
}
