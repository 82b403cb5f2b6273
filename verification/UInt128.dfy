/** `uint128` (base/int128.h): a 128-bit unsigned integer kept as two 64-bit words. Every
    uint64_t operation is written out modulo two to the 64. */
module UInt128s {
  import opened Powers

  const H: int := 0x1_0000_0000
  const W: int := 0x1_0000_0000_0000_0000
  const Q: int := 0x1_0000_0000_0000_0000_0000_0000_0000_0000

  type Word = x: int | 0 <= x < W

  function Shl(x: Word, n: nat): Word
    requires n < 64
  {
    (x * Pow2(n)) % W
  }

  function Shr(x: Word, n: nat): (r: Word)
    requires n < 64
  {
    DivSmaller(x, Pow2(n));
    x / Pow2(n)
  }

  function OrWord(x: Word, y: Word): Word {
    Widths();
    OrBound(x, y, 64);
    Or(x, y)
  }

  function Flip(x: Word): Word { W - 1 - x }

  datatype U128 = U128(hi: Word, lo: Word) {

    function Value(): nat { hi * W + lo }
  }

  lemma DivSmaller(x: nat, p: nat)
    requires p >= 1
    ensures 0 <= x / p <= x
  {
    MulMono(1, p, x / p);
  }

  lemma Widths()
    ensures Pow2(32) == H && Pow2(64) == W && Pow2(128) == Q
  {
    Width16();
    Pow2Add(16, 16);
    assert 0x1_0000 * 0x1_0000 == H;
    Pow2Add(32, 32);
    assert H * H == W;
    Pow2Add(64, 64);
    assert W * W == Q;
  }

  lemma Width16()
    ensures Pow2(16) == 0x1_0000
  {
    assert Pow2(4) == 16;
    Pow2Add(4, 4);
    Pow2Add(8, 8);
  }

  /** The two words are determined by the value. */
  lemma ValueInjective(a: U128, b: U128)
    ensures a.Value() == b.Value() ==> a == b
  {
  }

  // ----- Comparisons and construction ----------------------------------------------------

  predicate Less(a: U128, b: U128) { if a.hi == b.hi then a.lo < b.lo else a.hi < b.hi }

  predicate LessOrEqual(a: U128, b: U128) { if a.hi == b.hi then a.lo <= b.lo else a.hi <= b.hi }

  predicate Greater(a: U128, b: U128) { if a.hi == b.hi then a.lo > b.lo else a.hi > b.hi }

  predicate GreaterOrEqual(a: U128, b: U128) { if a.hi == b.hi then a.lo >= b.lo else a.hi >= b.hi }

  lemma ComparesByValue(a: U128, b: U128)
    ensures Less(a, b) <==> a.Value() < b.Value()
    ensures LessOrEqual(a, b) <==> a.Value() <= b.Value()
    ensures Greater(a, b) <==> a.Value() > b.Value()
    ensures GreaterOrEqual(a, b) <==> a.Value() >= b.Value()
  {
  }

  /** `uint128(int)`: sign-extends. */
  function FromInt(bottom: int): (r: U128)
    requires -0x8000_0000 <= bottom < 0x8000_0000
    ensures r.Value() == bottom % Q
  {
    U128(if bottom < 0 then (0 - 1) % W else 0, bottom % W)
  }

  // ----- Addition, subtraction, negation ---------------------------------------------------

  lemma WrapWord(x: int)
    requires -W <= x < 2 * W
    ensures x % W == if x < 0 then x + W else if x < W then x else x - W
  {
  }

  lemma WrapValue(x: int)
    requires -Q <= x < 2 * Q
    ensures x % Q == if x < 0 then x + Q else if x < Q then x else x - Q
  {
  }

  /** The test `lolo < lo_` recovers exactly the carry. */
  function Add(a: U128, b: U128): (r: U128)
    ensures r.Value() == (a.Value() + b.Value()) % Q
  {
    var hi := (a.hi + b.hi) % W;
    var lolo := (a.lo + b.lo) % W;
    WrapWord(a.hi + b.hi);
    WrapWord(a.lo + b.lo);
    WrapWord(hi + 1);
    WrapValue(a.Value() + b.Value());
    U128(if lolo < a.lo then (hi + 1) % W else hi, lolo)
  }

  function Sub(a: U128, b: U128): (r: U128)
    ensures r.Value() == (a.Value() - b.Value()) % Q
  {
    var hi := (a.hi - b.hi) % W;
    WrapWord(a.hi - b.hi);
    WrapWord(a.lo - b.lo);
    WrapWord(hi - 1);
    WrapValue(a.Value() - b.Value());
    U128(if b.lo > a.lo then (hi - 1) % W else hi, (a.lo - b.lo) % W)
  }

  /** Unary minus: flip both words and add one with carry. */
  function Negate(v: U128): (r: U128)
    ensures r.Value() == (0 - v.Value()) % Q
  {
    var hiFlip, loFlip := Flip(v.hi), Flip(v.lo);
    var loAdd := (loFlip + 1) % W;
    WrapWord(loFlip + 1);
    WrapWord(hiFlip + 1);
    WrapValue(0 - v.Value());
    if loAdd < loFlip then U128((hiFlip + 1) % W, loAdd) else U128(hiFlip, loAdd)
  }

  // ----- Shifts ----------------------------------------------------------------------------

  /** `operator<<`, with its special cases around the 64-bit word. */
  function ShiftLeft(v: U128, amount: nat): U128 {
    if amount < 64 then
      if amount == 0 then v
      else U128(OrWord(Shl(v.hi, amount), Shr(v.lo, 64 - amount)), Shl(v.lo, amount))
    else if amount < 128 then U128(Shl(v.lo, amount - 64), 0)
    else U128(0, 0)
  }

  /** `operator>>`. */
  function ShiftRight(v: U128, amount: nat): U128 {
    if amount < 64 then
      if amount == 0 then v
      else U128(Shr(v.hi, amount), OrWord(Shr(v.lo, amount), Shl(v.hi, 64 - amount)))
    else if amount < 128 then U128(0, Shr(v.hi, amount - 64))
    else U128(0, 0)
  }

  /** The pieces of a word split at bit 64 - n. */
  lemma SplitWord(x: Word, n: nat)
    requires 0 < n < 64
    ensures Pow2(64 - n) * Pow2(n) == W
    ensures Shl(x, n) == (x % Pow2(64 - n)) * Pow2(n)
    ensures 0 <= x / Pow2(64 - n) < Pow2(n)
    ensures x * Pow2(n) == (x / Pow2(64 - n)) * W + Shl(x, n)
  {
    hide Pow2;
    Pow2Add(64 - n, n);
    Widths();
    SplitAt(x, Pow2(64 - n), Pow2(n));
  }

  lemma SplitAt(x: Word, m: nat, p: nat)
    requires m > 0 && p > 0 && m * p == W
    ensures (x * p) % W == (x % m) * p
    ensures x / m < p
    ensures x * p == (x / m) * W + (x * p) % W
  {
    ModScale(x, m, p);
    QuotientBelow(x, m, p);
  }

  lemma QuotientBelow(x: nat, m: nat, p: nat)
    requires m > 0 && x < m * p
    ensures x / m < p
  {
    if x / m >= p {
      MulMono(p, x / m, m);
    }
  }

  lemma ShiftLeftHigh(hi: Word, lo: Word, n: nat)
    requires 0 < n < 64
    ensures OrWord(Shl(hi, n), Shr(lo, 64 - n)) == Shl(hi, n) + lo / Pow2(64 - n)
  {
    hide Pow2, Or;
    SplitWord(hi, n);
    SplitWord(lo, n);
    OrDisjoint(hi % Pow2(64 - n), n, lo / Pow2(64 - n));
  }

  lemma LeftValue(hi: int, lo: int, p: int, hq: int, hr: int, lq: int, lr: int)
    requires hi * p == hq * W + hr && lo * p == lq * W + lr
    requires 0 <= hr + lq < W && 0 <= lr < W
    ensures ((hi * W + lo) * p) % Q == (hr + lq) * W + lr
  {
    assert (hi * W + lo) * p == hq * Q + ((hr + lq) * W + lr);
    DivModUnique((hi * W + lo) * p, Q, hq, (hr + lq) * W + lr);
  }

  lemma ShiftLeftSmall(v: U128, n: nat)
    requires 0 < n < 64
    ensures ShiftLeft(v, n).Value() == (v.Value() * Pow2(n)) % Q
  {
    hide Pow2, OrWord, Shl;
    var m := Pow2(64 - n);
    ShiftLeftHigh(v.hi, v.lo, n);
    SplitWord(v.hi, n);
    SplitWord(v.lo, n);
    LeftValue(v.hi, v.lo, Pow2(n), v.hi / m, Shl(v.hi, n), v.lo / m, Shl(v.lo, n));
  }

  lemma ShiftLeftMiddle(v: U128, n: nat)
    requires 64 <= n < 128
    ensures Shl(v.lo, n - 64) * W == (v.Value() * Pow2(n)) % Q
  {
    hide Pow2;
    Pow2Add(64, n - 64);
    Widths();
    MiddleValue(v.hi, v.lo, Pow2(n - 64));
  }

  lemma MiddleValue(hi: nat, lo: nat, p: nat)
    ensures ((hi * W + lo) * (W * p)) % Q == ((lo * p) % W) * W
  {
    ModScale(lo * p, W, W);
    assert (hi * W + lo) * (W * p) == (lo * p) * W + (hi * p) * Q;
    ModPlusMultiple((lo * p) * W, hi * p, Q);
  }

  lemma ShiftLeftLarge(v: U128, n: nat)
    requires 128 <= n
    ensures (v.Value() * Pow2(n)) % Q == 0
  {
    hide Pow2;
    var p := Pow2(n - 128);
    Pow2Add(128, n - 128);
    Widths();
    assert v.Value() * (Q * p) == (v.Value() * p) * Q;
    DivModUnique((v.Value() * p) * Q, Q, v.Value() * p, 0);
  }

  /** `<<` multiplies by two to the n, modulo two to the 128. */
  lemma ShiftLeftMultiplies(v: U128, n: nat)
    ensures ShiftLeft(v, n).Value() == (v.Value() * Pow2(n)) % Q
  {
    if n == 0 {
      DivModUnique(v.Value(), Q, 0, v.Value());
    } else if n < 64 {
      ShiftLeftSmall(v, n);
    } else if n < 128 {
      ShiftLeftMiddle(v, n);
    } else {
      ShiftLeftLarge(v, n);
    }
  }

  lemma RightValue(hi: int, lo: int, p: int, m: int, hq: int, hr: int, lq: int, lr: int)
    requires m * p == W && hi == hq * p + hr && lo == lq * p + lr && 0 <= lr < p
    ensures (hi * W + lo) / p == hq * W + (hr * m + lq)
  {
    var r := hq * W + (hr * m + lq);
    calc {
      hi * W + lo;
      (hq * p) * W + hr * (m * p) + lq * p + lr;
      { MulAssoc(hr, m, p); }
      (hq * W) * p + (hr * m) * p + lq * p + lr;
      { Distribute(hq * W, hr * m + lq, p); Distribute(hr * m, lq, p); }
      r * p + lr;
    }
    DivModUnique(hi * W + lo, p, r, lr);
  }

  lemma ShiftRightLow(hi: Word, lo: Word, n: nat)
    requires 0 < n < 64
    ensures OrWord(Shr(lo, n), Shl(hi, 64 - n)) == (hi % Pow2(n)) * Pow2(64 - n) + lo / Pow2(n)
    ensures Pow2(64 - n) * Pow2(n) == W
  {
    hide Pow2, Or;
    SplitWord(hi, 64 - n);
    SplitWord(lo, 64 - n);
    OrComm(lo / Pow2(n), Shl(hi, 64 - n));
    OrDisjoint(hi % Pow2(n), 64 - n, lo / Pow2(n));
  }

  lemma ShiftRightSmall(v: U128, n: nat)
    requires 0 < n < 64
    ensures ShiftRight(v, n).Value() == v.Value() / Pow2(n)
  {
    hide Pow2, OrWord, Shl;
    var p, m := Pow2(n), Pow2(64 - n);
    ShiftRightLow(v.hi, v.lo, n);
    Euclid(v.hi, p);
    Euclid(v.lo, p);
    RightValue(v.hi, v.lo, p, m, v.hi / p, v.hi % p, v.lo / p, v.lo % p);
  }

  lemma ShiftRightMiddle(v: U128, n: nat)
    requires 64 <= n < 128
    ensures v.hi / Pow2(n - 64) == v.Value() / Pow2(n)
  {
    Pow2Add(64, n - 64);
    Widths();
    DivDiv(v.Value(), W, Pow2(n - 64));
    DivModUnique(v.Value(), W, v.hi, v.lo);
  }

  lemma ShiftRightLarge(v: U128, n: nat)
    requires 128 <= n
    ensures v.Value() / Pow2(n) == 0
  {
    hide Pow2;
    Pow2Add(128, n - 128);
    Widths();
    MulMono(1, Pow2(n - 128), Q);
    DivModUnique(v.Value(), Pow2(n), 0, v.Value());
  }

  /** `>>` divides by two to the n, rounding down. */
  lemma ShiftRightDivides(v: U128, n: nat)
    ensures ShiftRight(v, n).Value() == v.Value() / Pow2(n)
  {
    if n == 0 {
    } else if n < 64 {
      ShiftRightSmall(v, n);
    } else if n < 128 {
      ShiftRightMiddle(v, n);
    } else {
      ShiftRightLarge(v, n);
    }
  }

  /** Shifting left and back loses nothing exactly when nothing was pushed out. */
  lemma ShiftRoundTrip(v: U128, n: nat)
    ensures ShiftRight(ShiftLeft(v, n), n) == v <==> v.Value() * Pow2(n) < Q
  {
    ShiftLeftMultiplies(v, n);
    ShiftRightDivides(ShiftLeft(v, n), n);
    ValueInjective(ShiftRight(ShiftLeft(v, n), n), v);
    CutAndDivide(v.Value(), Pow2(n));
    hide ShiftLeft, ShiftRight;
  }

  lemma CutAndDivide(x: nat, p: nat)
    requires p > 0
    ensures ((x * p) % Q) / p == x <==> x * p < Q
  {
    if x * p < Q {
      DivModUnique(x * p, Q, 0, x * p);
      DivModUnique(x * p, p, x, 0);
    } else {
      QuotientBelow((x * p) % Q, p, x);
    }
  }

  // ----- Multiplication ------------------------------------------------------------------------

  /** A 32-bit half of a word. */
  type Half = x: int | 0 <= x < H

  function HighHalf(x: Word): Half {
    Widths();
    QuotientBelow(x, H, H);
    Shr(x, 32)
  }

  /** `x & 0xffffffff`. */
  function LowHalf(x: Word): Half {
    Widths();
    AndMask(x, 32);
    And(x, 0xffff_ffff)
  }

  /** The product of two halves fits a word. */
  function HalfMul(x: Half, y: Half): Word {
    HalfMulFits(x, y);
    x * y
  }

  lemma HalfMulFits(x: Half, y: Half)
    ensures 0 <= x * y < W
  {
    MulMono(0, x, y);
    MulMono(x, H - 1, y);
    assert (H - 1) * y <= (H - 1) * (H - 1);
  }

  lemma HalvesValue(v: U128)
    ensures v.Value() == (HighHalf(v.hi) * H + LowHalf(v.hi)) * W + (HighHalf(v.lo) * H + LowHalf(v.lo))
  {
    Widths();
    AndMask(v.hi, 32);
    AndMask(v.lo, 32);
  }

  lemma Product2x2(a1: int, a0: int, b1: int, b0: int, r: int)
    ensures (a1 * r + a0) * (b1 * r + b0) == (a1 * b1) * (r * r) + (a1 * b0 + a0 * b1) * r + a0 * b0
  {
    Distribute(a1 * r, a0, b1 * r + b0);
    assert (a1 * r) * (b1 * r + b0) == (a1 * b1) * (r * r) + (a1 * b0) * r;
    assert a0 * (b1 * r + b0) == (a0 * b1) * r + a0 * b0;
  }

  /** The schoolbook product of [a96 .. a00] and [b96 .. b00] without the terms beyond bit 128:
      c96 and c64 are the sums of the terms that start at bits 96 and 64. */
  lemma Schoolbook(a: int, b: int, a96: Half, a64: Half, a32: Half, a00: Half,
                   b96: Half, b64: Half, b32: Half, b00: Half)
    requires a == (a96 * H + a64) * W + (a32 * H + a00)
    requires b == (b96 * H + b64) * W + (b32 * H + b00)
    ensures (a * b) % Q
            == ((Sum96(a96, a64, a32, a00, b96, b64, b32, b00) * H + Sum64(a64, a32, a00, b64, b32, b00)) * W
                + HalfMul(a32, b00) * H + HalfMul(a00, b32) * H + HalfMul(a00, b00)) % Q
  {
    var a1, a0, b1, b0 := a96 * H + a64, a32 * H + a00, b96 * H + b64, b32 * H + b00;
    Product2x2(a1, a0, b1, b0, W);
    Product2x2(a96, a64, b32, b00, H);
    Product2x2(a32, a00, b96, b64, H);
    Product2x2(a32, a00, b32, b00, H);
    var c96 := Sum96(a96, a64, a32, a00, b96, b64, b32, b00);
    var c64 := Sum64(a64, a32, a00, b64, b32, b00);
    var low := (c96 * H + c64) * W + HalfMul(a32, b00) * H + HalfMul(a00, b32) * H + HalfMul(a00, b00);
    var k := a1 * b1 + a96 * b32 + a32 * b96;
    Collect(a * b, a1 * b1, a1 * b0, a0 * b1, a0 * b0,
            a96 * b32, a96 * b00 + a64 * b32, a64 * b00,
            a32 * b96, a32 * b64 + a00 * b96, a00 * b64,
            a32 * b32, a32 * b00 + a00 * b32, a00 * b00);
    assert a * b == low + k * Q;
    ModPlusMultiple(low, k, Q);
  }

  /** The same sums, with the partial products as unknowns. */
  lemma Collect(ab: int, p11: int, p10: int, p01: int, p00: int, u2: int, u1: int, u0: int,
                v2: int, v1: int, v0: int, w2: int, w1: int, w0: int)
    requires ab == p11 * (W * W) + (p10 + p01) * W + p00
    requires p10 == u2 * (H * H) + u1 * H + u0
    requires p01 == v2 * (H * H) + v1 * H + v0
    requires p00 == w2 * (H * H) + w1 * H + w0
    ensures ab == ((u1 + v1) * H + (u0 + w2 + v0)) * W + w1 * H + w0 + (p11 + u2 + v2) * Q
  {
  }

  function Sum96(a96: Half, a64: Half, a32: Half, a00: Half, b96: Half, b64: Half, b32: Half, b00: Half): nat {
    HalfMul(a96, b00) + HalfMul(a64, b32) + HalfMul(a32, b64) + HalfMul(a00, b96)
  }

  function Sum64(a64: Half, a32: Half, a00: Half, b64: Half, b32: Half, b00: Half): nat {
    HalfMul(a64, b00) + HalfMul(a32, b32) + HalfMul(a00, b64)
  }

  /** The high word the code starts from, before the carries are added in. */
  lemma HighPart(c96: nat, c64: nat)
    ensures ((((c96 % W) * H) % W + c64 % W) % W) * W == ((c96 * H + c64) * W) % Q
  {
    ModMul(c96, H, W);
    ModAdd(c96 * H, c64 % W, W);
    ModAdd(c64, c96 * H, W);
    ModScale(c96 * H + c64, W, W);
  }

  /** Adding three more terms modulo Q, one at a time. */
  lemma AddThree(x: int, y: int, z: int, t: int)
    ensures (((x % Q + y) % Q + z) % Q + t) % Q == (x + y + z + t) % Q
  {
    ModAdd(x, y, Q);
    ModAdd(x + y, z, Q);
    ModAdd(x + y + z, t, Q);
  }

  // ----- The mutable object ----------------------------------------------------------------------

  class UInt128 {
    var lo: Word
    var hi: Word

    ghost function View(): U128
      reads this
    {
      U128(hi, lo)
    }

    constructor (v: U128)
      ensures View() == v
    {
      lo, hi := v.lo, v.hi;
    }

    /** `+=`; b may be this object. */
    method AddAssign(b: UInt128)
      modifies this
      ensures View() == Add(old(View()), old(b.View()))
    {
      hi := (hi + b.hi) % W;
      var lolo := (lo + b.lo) % W;
      if lolo < lo {
        hi := (hi + 1) % W;
      }
      lo := lolo;
    }

    /** `-=`; b may be this object. */
    method SubAssign(b: UInt128)
      modifies this
      ensures View() == Sub(old(View()), old(b.View()))
    {
      hi := (hi - b.hi) % W;
      if b.lo > lo {
        hi := (hi - 1) % W;
      }
      lo := (lo - b.lo) % W;
    }

    /** `<<=` does what `<<` does. */
    method ShiftLeftAssign(amount: nat)
      modifies this
      ensures View() == ShiftLeft(old(View()), amount)
      ensures View().Value() == (old(View().Value()) * Pow2(amount)) % Q
    {
      ShiftLeftMultiplies(View(), amount);
      hide Pow2, Shl, Shr, OrWord, U128.Value;
      if amount < 64 {
        if amount != 0 {
          hi := OrWord(Shl(hi, amount), Shr(lo, 64 - amount));
          lo := Shl(lo, amount);
        }
      } else if amount < 128 {
        hi := Shl(lo, amount - 64);
        lo := 0;
      } else {
        hi := 0;
        lo := 0;
      }
    }

    /** `>>=` as written: from 64 to 127 it clears hi_ before reading it. */
    method ShiftRightAssign(amount: nat)
      modifies this
      ensures View() == ShiftRightInPlace(old(View()), amount)
      ensures View().Value() == if amount < 64 then old(View().Value()) / Pow2(amount) else 0
    {
      ShiftRightAssignValue(View(), amount);
      hide Pow2;
      if amount < 64 {
        if amount != 0 {
          lo := OrWord(Shr(lo, amount), Shl(hi, 64 - amount));
          hi := Shr(hi, amount);
        }
      } else if amount < 128 {
        hi := 0;
        lo := Shr(hi, amount - 64);
      } else {
        hi := 0;
        lo := 0;
      }
    }

    /** `*=`; b may be this object. */
    method MulAssign(b: UInt128)
      modifies this
      ensures IsProduct(View(), old(View()), old(b.View()))
    {
      MulIsModular(View(), b.View());
      hide MulCarries, HighHalf, LowHalf, HalfMul, Sum96, Sum64, IsProduct;
      var a96, a64, a32, a00 := HighHalf(hi), LowHalf(hi), HighHalf(lo), LowHalf(lo);
      var b96, b64, b32, b00 := HighHalf(b.hi), LowHalf(b.hi), HighHalf(b.lo), LowHalf(b.lo);
      var c96 := Sum96(a96, a64, a32, a00, b96, b64, b32, b00) % W;
      var c64 := Sum64(a64, a32, a00, b64, b32, b00) % W;
      SetAndCarry(c96, c64, HalfMul(a32, b00), HalfMul(a00, b32), HalfMul(a00, b00));
    }

    /** The second half of `*=`: the high sums are put in place, then the low terms are added. */
    method SetAndCarry(c96: Word, c64: Word, x: Word, y: Word, z: Word)
      modifies this
      ensures View() == MulCarries(c96, c64, x, y, z)
    {
      hide Add, ShiftLeft, Shl;
      hi := (Shl(c96, 32) + c64) % W;
      lo := 0;
      var t := new UInt128(ShiftLeft(U128(0, x), 32));
      AddAssign(t);
      t := new UInt128(ShiftLeft(U128(0, y), 32));
      AddAssign(t);
      t := new UInt128(U128(0, z));
      AddAssign(t);
    }
  }

  /** r is the product of a and b, modulo two to the 128. */
  predicate IsProduct(r: U128, a: U128, b: U128) { r.Value() == (a.Value() * b.Value()) % Q }

  /** What `*=` computes, step by step. */
  function Mul(a: U128, b: U128): U128 {
    var a96, a64, a32, a00 := HighHalf(a.hi), LowHalf(a.hi), HighHalf(a.lo), LowHalf(a.lo);
    var b96, b64, b32, b00 := HighHalf(b.hi), LowHalf(b.hi), HighHalf(b.lo), LowHalf(b.lo);
    MulCarries(Sum96(a96, a64, a32, a00, b96, b64, b32, b00) % W, Sum64(a64, a32, a00, b64, b32, b00) % W,
               HalfMul(a32, b00), HalfMul(a00, b32), HalfMul(a00, b00))
  }

  /** The high sums placed directly, then the three low terms added with carry. */
  function MulCarries(c96: Word, c64: Word, x: Word, y: Word, z: Word): U128 {
    Add(Add(Add(HighStart(c96, c64), ShiftLeft(U128(0, x), 32)), ShiftLeft(U128(0, y), 32)), U128(0, z))
  }

  function HighStart(c96: Word, c64: Word): U128 { U128((Shl(c96, 32) + c64) % W, 0) }

  lemma MulCarriesValue(c96: nat, c64: nat, x: Word, y: Word, z: Word)
    ensures MulCarries(c96 % W, c64 % W, x, y, z).Value()
            == ((c96 * H + c64) * W + x * H + y * H + z) % Q
  {
    hide Add, ShiftLeft, HighStart, U128.Value;
    StartValue(c96, c64);
    ShiftedValue(x);
    ShiftedValue(y);
    LowValue(z);
    AddThree((c96 * H + c64) * W, x * H, y * H, z);
  }

  lemma LowValue(z: Word)
    ensures U128(0, z).Value() == z
  {
  }

  lemma StartValue(c96: nat, c64: nat)
    ensures HighStart(c96 % W, c64 % W).Value() == ((c96 * H + c64) * W) % Q
  {
    Widths();
    HighPart(c96, c64);
  }

  lemma ShiftedValue(x: Word)
    ensures ShiftLeft(U128(0, x), 32).Value() == x * H
  {
    Widths();
    ShiftLeftMultiplies(U128(0, x), 32);
    hide ShiftLeft;
    DivModUnique(x * H, Q, 0, x * H);
  }

  /** `*=` is multiplication modulo two to the 128. */
  lemma MulIsModular(a: U128, b: U128)
    ensures IsProduct(Mul(a, b), a, b)
  {
    hide MulCarries, HighHalf, LowHalf, HalfMul, Sum96, Sum64, U128.Value;
    var a96, a64, a32, a00 := HighHalf(a.hi), LowHalf(a.hi), HighHalf(a.lo), LowHalf(a.lo);
    var b96, b64, b32, b00 := HighHalf(b.hi), LowHalf(b.hi), HighHalf(b.lo), LowHalf(b.lo);
    HalvesValue(a);
    HalvesValue(b);
    Schoolbook(a.Value(), b.Value(), a96, a64, a32, a00, b96, b64, b32, b00);
    MulCarriesValue(Sum96(a96, a64, a32, a00, b96, b64, b32, b00), Sum64(a64, a32, a00, b64, b32, b00),
                    HalfMul(a32, b00), HalfMul(a00, b32), HalfMul(a00, b00));
  }

  function ShiftRightInPlace(v: U128, amount: nat): U128 {
    if 64 <= amount < 128 then U128(0, 0) else ShiftRight(v, amount)
  }

  /** `>>=` and `>>` agree exactly on the values `>>` sends to zero and outside 64 .. 127. */
  lemma ShiftRightAssignDiverges(v: U128, amount: nat)
    ensures ShiftRightInPlace(v, amount) == ShiftRight(v, amount)
            <==> amount < 64 || amount >= 128 || v.Value() < Pow2(amount)
  {
    if 64 <= amount < 128 {
      ShiftRightDivides(v, amount);
      ZeroQuotient(v.Value(), Pow2(amount));
    }
  }

  /** What `>>=` computes: the floor quotient below 64, and zero from there on. */
  lemma ShiftRightAssignValue(v: U128, amount: nat)
    ensures ShiftRightInPlace(v, amount).Value() == if amount < 64 then v.Value() / Pow2(amount) else 0
  {
    hide Pow2;
    if amount < 64 { ShiftRightDivides(v, amount); }
  }

  lemma ZeroQuotient(x: nat, p: nat)
    requires p > 0
    ensures x / p == 0 <==> x < p
  {
    if x < p { DivModUnique(x, p, 0, x); }
  }

  /** A value on which they differ: two to the 64, shifted by 64. */
  lemma ShiftRightAssignWitness()
    ensures ShiftRight(U128(1, 0), 64) == U128(0, 1)
    ensures ShiftRightInPlace(U128(1, 0), 64) == U128(0, 0)
  {
  }
}
