/** Conversion between IEEE double and half precision as `half.hpp` does it, on bit patterns, specified by
    correct rounding (sections 4.3.1 and 4.3.2 of IEEE 754-2008).

    Magnitudes are exact integers in units of 2^-1074, the smallest positive double. */
module HalfConvert {
  import opened Arith

  /** `std::float_round_style`; Indeterminate is the library's default. */
  datatype Style = Indeterminate | TowardZero | ToNearest | TowardInfinity | TowardNegInfinity

  const SIGN_BIT := 0x8000
  const INFINITE := 0x7C00
  const LARGEST := 0x7BFF

  type u64 = n: nat | n < 0x1_0000_0000_0000_0000

  // ---------------------------------------------------------------- values

  function SignBit(bits: u64): nat { bits / 0x8000_0000_0000_0000 }
  function Exponent(bits: u64): nat { bits / 0x10_0000_0000_0000 % 0x800 }
  function Mantissa(bits: u64): nat { bits % 0x10_0000_0000_0000 }

  predicate Finite(bits: u64) { Exponent(bits) != 2047 }

  /** The significand with its hidden bit, and the exponent of its unit. */
  function Significand(bits: u64): nat {
    Mantissa(bits) + if Exponent(bits) == 0 then 0 else 0x10_0000_0000_0000
  }

  function Shift(bits: u64): nat {
    if Exponent(bits) == 0 then 0 else Exponent(bits) - 1
  }

  /** The magnitude of a finite double. */
  function DoubleMag(bits: u64): int {
    Significand(bits) * Pow2(Shift(bits))
  }

  /** The magnitude code `h` stands for, in units of 2^-24.  Code 0x7C00 continues the progression to 2^16,
      the value at which rounding overflows to infinity. */
  function HalfSig(h: nat): nat {
    if h < 0x400 then h else (0x400 + h % 0x400) * Pow2(h / 0x400 - 1)
  }

  function HalfMag(h: nat): nat {
    HalfSig(h) * Pow2(1050)
  }

  /** The distance to the next code. */
  function HalfStep(h: nat): nat {
    if h < 0x400 then Pow2(1050) else Pow2(h / 0x400 - 1) * Pow2(1050)
  }

  lemma NextHalf(h: nat)
    ensures HalfMag(h + 1) == HalfMag(h) + HalfStep(h)
  {
    if h < 0x400 {
      Distribute(h, 1, Pow2(1050));
      if h + 1 == 0x400 { assert (h + 1) / 0x400 - 1 == 0; }
    } else {
      var e, m := h / 0x400, h % 0x400;
      var p := Pow2(e - 1);
      if m == 0x3FF {
        assert (h + 1) / 0x400 == e + 1 && (h + 1) % 0x400 == 0;
        assert HalfSig(h + 1) == 0x400 * (2 * p) == (0x400 + m) * p + p;
      } else {
        assert (h + 1) / 0x400 == e && (h + 1) % 0x400 == m + 1;
        Distribute(0x400 + m, 1, p);
      }
      Distribute(HalfSig(h), p, Pow2(1050));
    }
  }

  lemma {:induction false} HalfIncreases(c: nat, d: nat)
    requires c <= d
    ensures HalfMag(c) <= HalfMag(d)
    ensures c < d ==> HalfMag(c) < HalfMag(d)
  {
    if c < d {
      HalfIncreases(c, d - 1);
      NextHalf(d - 1);
      if d - 1 >= 0x400 { MulLt(0, Pow2((d - 1) / 0x400 - 1), Pow2(1050)); }
    }
  }

  // ---------------------------------------------------------------- correct rounding

  function Dist(a: int, b: int): int {
    if a <= b then b - a else a - b
  }

  datatype Direction = Down | DownToInfinity | Up | NearestAway | NearestEven

  /** Code `h` is the correctly rounded magnitude `a`.
      Down: the largest finite code not above `a`.  DownToInfinity: the same, except that 2^16 and more
      overflow.  Up: the smallest code not below `a`, infinity when there is none.  Nearest: no code is
      nearer, infinity counting as 2^16; ties go to the larger code or to the even one. */
  ghost predicate Rounded(a: int, d: Direction, h: nat) {
    && h <= INFINITE
    && match d
       case Down => h <= LARGEST && HalfMag(h) <= a && forall c :: h < c <= LARGEST ==> a < HalfMag(c)
       case DownToInfinity => HalfMag(h) <= a && forall c :: h < c <= INFINITE ==> a < HalfMag(c)
       case Up => (a <= HalfMag(h) || h == INFINITE) && forall c :: 0 <= c < h ==> HalfMag(c) < a
       case NearestAway => forall c :: 0 <= c <= INFINITE && c != h ==>
           Dist(a, HalfMag(h)) < Dist(a, HalfMag(c)) || (Dist(a, HalfMag(h)) == Dist(a, HalfMag(c)) && c < h)
       case NearestEven => forall c :: 0 <= c <= INFINITE && c != h ==>
           Dist(a, HalfMag(h)) < Dist(a, HalfMag(c)) || (Dist(a, HalfMag(h)) == Dist(a, HalfMag(c)) && h % 2 == 0)
  }

  /** The direction in which a magnitude moves, given the sign. */
  function DirectionOf(style: Style, tiesToEven: bool, sign: nat): Direction {
    match style
    case Indeterminate => DownToInfinity
    case TowardZero => Down
    case ToNearest => if tiesToEven then NearestEven else NearestAway
    case TowardInfinity => if sign == 0 then Up else Down
    case TowardNegInfinity => if sign == 0 then Down else Up
  }

  /** `hbits` is what converting `bits` must return: sign kept, infinity and NaN mapped to infinity and the
      all-ones NaN, every finite value correctly rounded. */
  ghost predicate ToHalf(bits: u64, style: Style, tiesToEven: bool, hbits: nat) {
    var sign := SignBit(bits);
    && sign * SIGN_BIT <= hbits < sign * SIGN_BIT + SIGN_BIT
    && var h := hbits - sign * SIGN_BIT;
       if Finite(bits) then Rounded(DoubleMag(bits), DirectionOf(style, tiesToEven, sign), h)
       else h == if Mantissa(bits) == 0 then INFINITE else 0x7FFF
  }

  // ---------------------------------------------------------------- locating a magnitude between two codes

  /** `a` lies in the interval from code `t` to the next; `g` says it is in the upper half, `s` that it is
      neither at the start nor in the middle. */
  ghost predicate Located(a: int, t: nat, g: bool, s: bool) {
    var low, step := HalfMag(t), HalfStep(t);
    && low <= a < low + step
    && (g <==> 2 * (a - low) >= step)
    && (!s <==> a == low || 2 * (a - low) == step)
  }

  lemma LocatedFrame(a: int, t: nat, g: bool, s: bool)
    requires Located(a, t, g, s)
    ensures forall c :: 0 <= c <= t ==> HalfMag(c) <= HalfMag(t) <= a
    ensures forall c :: t < c ==> a < HalfMag(t + 1) <= HalfMag(c)
  {
    NextHalf(t);
    forall c | 0 <= c <= t ensures HalfMag(c) <= HalfMag(t) { HalfIncreases(c, t); }
    forall c | t < c ensures HalfMag(t + 1) <= HalfMag(c) { HalfIncreases(t + 1, c); }
  }

  lemma RoundDirected(a: int, t: nat, g: bool, s: bool)
    requires Located(a, t, g, s) && t <= LARGEST
    ensures Rounded(a, Down, t) && Rounded(a, DownToInfinity, t)
    ensures Rounded(a, Up, if s || g then t + 1 else t)
  {
    LocatedFrame(a, t, g, s);
    forall c | 0 <= c < t ensures HalfMag(c) < HalfMag(t) { HalfIncreases(c, t); }
  }

  /** Distances from a point of [low, next) to its ends, and to a point v outside the open interval. */
  lemma Nearer(a: int, low: int, next: int, v: int)
    requires low <= a < next && (v <= low || next <= v)
    ensures 2 * (a - low) < next - low ==> Dist(a, low) < Dist(a, v) || v == low
    ensures 2 * (a - low) > next - low ==> Dist(a, next) < Dist(a, v) || v == next
    ensures 2 * (a - low) == next - low ==>
      Dist(a, low) == Dist(a, next) && (Dist(a, low) < Dist(a, v) || v == low || v == next)
  {
  }

  lemma OtherCode(a: int, t: nat, g: bool, s: bool, c: nat)
    requires Located(a, t, g, s)
    ensures HalfMag(c) <= HalfMag(t) || HalfMag(t + 1) <= HalfMag(c)
    ensures HalfMag(c) == HalfMag(t) ==> c == t
    ensures HalfMag(c) == HalfMag(t + 1) ==> c == t + 1
  {
    if c <= t { HalfIncreases(c, t); } else { HalfIncreases(t, c); }
    if c <= t + 1 { HalfIncreases(c, t + 1); } else { HalfIncreases(t + 1, c); }
  }

  lemma RoundNearest(a: int, t: nat, g: bool, s: bool, h: nat, d: Direction)
    requires Located(a, t, g, s) && t <= LARGEST
    requires (d == NearestAway && h == if g then t + 1 else t)
          || (d == NearestEven && h == if g && (s || t % 2 == 1) then t + 1 else t)
    ensures Rounded(a, d, h)
  {
    forall c | 0 <= c <= INFINITE && c != h
      ensures Dist(a, HalfMag(h)) < Dist(a, HalfMag(c))
           || (Dist(a, HalfMag(h)) == Dist(a, HalfMag(c)) && if d == NearestAway then c < h else h % 2 == 0)
    {
      OtherFarther(a, t, g, s, h, d, c);
    }
  }

  lemma OtherFarther(a: int, t: nat, g: bool, s: bool, h: nat, d: Direction, c: nat)
    requires Located(a, t, g, s) && c != h
    requires (d == NearestAway && h == if g then t + 1 else t)
          || (d == NearestEven && h == if g && (s || t % 2 == 1) then t + 1 else t)
    ensures Dist(a, HalfMag(h)) < Dist(a, HalfMag(c))
         || (Dist(a, HalfMag(h)) == Dist(a, HalfMag(c)) && if d == NearestAway then c < h else h % 2 == 0)
  {
    NextHalf(t);
    OtherCode(a, t, g, s, c);
    Nearer(a, HalfMag(t), HalfMag(t + 1), HalfMag(c));
  }

  // ---------------------------------------------------------------- the conversion's shifts

  /** Shifting the 53-bit significand M = hi * 2^32 + lo right by 32 + k looks only at hi. */
  lemma HighWord(hi: nat, lo: nat, d: nat)
    requires d > 0 && lo < 0x1_0000_0000
    ensures (hi * 0x1_0000_0000 + lo) / (d * 0x1_0000_0000) == hi / d
    ensures (hi * 0x1_0000_0000 + lo) % (d * 0x1_0000_0000) == (hi % d) * 0x1_0000_0000 + lo
  {
    DivMod(hi, d);
    Associate(hi / d, d, 0x1_0000_0000);
    Distribute((hi / d) * d, hi % d, 0x1_0000_0000);
    DivModUnique(hi * 0x1_0000_0000 + lo, d * 0x1_0000_0000, hi / d, (hi % d) * 0x1_0000_0000 + lo);
  }

  /** The guard bit and the bits below it. */
  lemma GuardBits(m: nat, half: nat)
    requires half > 0
    ensures (m / half) % 2 == 1 <==> 2 * (m % (2 * half)) >= 2 * half
    ensures m % half == 0 <==> m % (2 * half) == 0 || 2 * (m % (2 * half)) == 2 * half
    ensures (m / half) / 2 == m / (2 * half)
  {
    var q, r := m / (2 * half), m % (2 * half);
    DivMod(m, 2 * half);
    Associate(q, 2, half);
    if r < half {
      DivModUnique(m, half, 2 * q, r);
    } else {
      Distribute(2 * q, 1, half);
      DivModUnique(m, half, 2 * q + 1, r - half);
    }
  }

  /** A magnitude M * w, cut after its low bits: quotient t in units of 2 * half * w. */
  lemma CutLocated(m: nat, half: nat, w: nat, code: nat)
    requires half > 0 && w > 0
    requires HalfStep(code) == (2 * half) * w
    requires HalfMag(code) == (m / (2 * half)) * ((2 * half) * w)
    ensures Located(m * w, code, (m / half) % 2 == 1, m % half != 0)
  {
    GuardBits(m, half);
    var q, r := m / (2 * half), m % (2 * half);
    DivMod(m, 2 * half);
    Distribute(q * (2 * half), r, w);
    Associate(q, 2 * half, w);
    assert m * w == HalfMag(code) + r * w;
    MulLt(r, 2 * half, w);
    ScaleOrder(2 * r, 2 * half, w);
    Associate(2, r, w);
    ScaleOrder(r, 0, w);
  }

  lemma ScaleOrder(x: nat, y: nat, w: nat)
    requires w > 0
    ensures x * w >= y * w <==> x >= y
    ensures x * w == y * w <==> x == y
  {
    if x < y { MulLt(x, y, w); }
    if y < x { MulLt(y, x, w); }
  }

  lemma Pow2Values()
    ensures Pow2(10) == 0x400 && Pow2(11) == 0x800 && Pow2(20) == 0x10_0000 && Pow2(30) == 0x4000_0000
    ensures Pow2(32) == 0x1_0000_0000 && Pow2(42) == 0x400_0000_0000
    ensures Pow2(52) == 0x10_0000_0000_0000 && Pow2(53) == 0x20_0000_0000_0000
  {
    assert Pow2(5) == 32;
    Pow2Add(5, 5);
    Pow2Add(10, 1);
    Pow2Add(10, 10);
    Pow2Add(20, 10);
    Pow2Add(30, 2);
    Pow2Add(32, 10);
    Pow2Add(42, 10);
    Pow2Add(52, 1);
  }

  /** The fields of a pattern in terms of the two words the code works on. */
  lemma Words(bits: u64)
    ensures var hi, lo := bits / 0x1_0000_0000 % 0x8000_0000, bits % 0x1_0000_0000;
      && bits / 0x1_0000_0000 / 0x8000_0000 == SignBit(bits) < 2
      && hi / 0x10_0000 == Exponent(bits) < 0x800
      && Mantissa(bits) == hi % 0x10_0000 * 0x1_0000_0000 + lo
  {
  }

  lemma NormalScale(k: nat)
    requires k >= 1
    ensures Pow2(k - 1) * Pow2(1050) == 0x400_0000_0000 * Pow2(k + 1007)
  {
    Pow2Values();
    Pow2Add(k - 1, 1050);
    Pow2Add(42, k + 1007);
  }

  lemma SubnormalScale(i: nat)
    requires i <= 20
    ensures 2 * (Pow2(i) * 0x1_0000_0000) == Pow2(i + 1) * 0x1_0000_0000
    ensures (Pow2(i + 1) * 0x1_0000_0000) * Pow2(1017 - i) == Pow2(1050)
  {
    Pow2Values();
    Pow2Add(i + 1, 32);
    Pow2Add(i + 33, 1017 - i);
  }

  lemma NormalCode(k: nat, top: nat)
    requires k >= 1 && top < 0x400
    ensures var code := k * 0x400 + top;
      && HalfStep(code) == 0x400_0000_0000 * Pow2(k + 1007)
      && HalfMag(code) == (0x400 + top) * (0x400_0000_0000 * Pow2(k + 1007))
  {
    var code := k * 0x400 + top;
    assert code / 0x400 == k && code % 0x400 == top;
    NormalScale(k);
    Associate(0x400 + top, Pow2(k - 1), Pow2(1050));
  }

  /** A significand m = hi * 2^32 + lo cut below bit 42. */
  lemma CutNormal(hi: nat, top: nat, lo: nat, m: nat, w: nat, code: nat)
    requires w > 0 && lo < 0x1_0000_0000 && m == hi * 0x1_0000_0000 + lo && top == hi / 0x400
    requires HalfStep(code) == 0x400_0000_0000 * w
    requires HalfMag(code) == top * (0x400_0000_0000 * w)
    ensures Located(m * w, code, (hi / 0x200) % 2 == 1, lo != 0 || hi % 0x200 != 0)
  {
    HighWord(hi, lo, 0x200);
    HighWord(hi, lo, 0x400);
    CutLocated(m, 0x200_0000_0000, w, code);
  }

  lemma HiddenBit(high: nat)
    requires high < 0x10_0000
    ensures var hi := 0x10_0000 + high;
      hi / 0x400 == 0x400 + high / 0x400 && (hi / 0x200) % 2 == (high / 0x200) % 2 && hi % 0x200 == high % 0x200
  {
  }

  /** exp > 1008: a normal half. */
  lemma LocateNormal(exp: nat, high: nat, lo: nat, m: nat, code: nat)
    requires 1008 < exp <= 1038 && high < 0x10_0000 && lo < 0x1_0000_0000
    requires m == (0x10_0000 + high) * 0x1_0000_0000 + lo
    requires code == (exp - 1008) * 0x400 + high / 0x400
    ensures code <= LARGEST
    ensures Located(m * Pow2(exp - 1), code, (high / 0x200) % 2 == 1, lo != 0 || high % 0x200 != 0)
  {
    HiddenBit(high);
    NormalCode(exp - 1008, high / 0x400);
    CutNormal(0x10_0000 + high, 0x400 + high / 0x400, lo, m, Pow2(exp - 1), code);
  }

  lemma SmallCode(i: nat, hi: nat)
    requires 10 <= i <= 20 && hi < 0x20_0000
    ensures 0 <= hi / Pow2(i + 1) < 0x400
  {
    Pow2Values();
    Pow2Mono(11, i + 1);
    DivMod(hi, Pow2(i + 1));
    DivLt(hi, Pow2(i + 1), 0x400);
  }

  lemma CutSubnormal(hi: nat, lo: nat, m: nat, p: nat, w: nat, code: nat)
    requires p > 0 && w > 0 && lo < 0x1_0000_0000 && m == hi * 0x1_0000_0000 + lo
    requires code == hi / (2 * p) && code < 0x400
    requires (2 * (p * 0x1_0000_0000)) * w == Pow2(1050)
    ensures Located(m * w, code, (hi / p) % 2 == 1, lo != 0 || hi % p != 0)
  {
    HighWord(hi, lo, p);
    HighWord(hi, lo, 2 * p);
    assert (2 * p) * 0x1_0000_0000 == 2 * (p * 0x1_0000_0000);
    CutLocated(m, p * 0x1_0000_0000, w, code);
  }

  /** 997 < exp <= 1008: a subnormal half, or the first normal one after rounding. */
  lemma LocateSubnormal(exp: nat, hi: nat, lo: nat, m: nat, i: nat, code: nat)
    requires 997 < exp <= 1008 && 0x10_0000 <= hi < 0x20_0000 && lo < 0x1_0000_0000
    requires m == hi * 0x1_0000_0000 + lo
    requires i == 1018 - exp && code == hi / Pow2(i + 1)
    ensures code < 0x400
    ensures Located(m * Pow2(exp - 1), code, (hi / Pow2(i)) % 2 == 1, lo != 0 || hi % Pow2(i) != 0)
  {
    SmallCode(i, hi);
    SubnormalScale(i);
    CutSubnormal(hi, lo, m, Pow2(i), Pow2(exp - 1), code);
  }

  lemma TinyProduct(sig: nat, p: nat, q: nat, bound: nat)
    requires sig < bound && 0 < p <= q
    ensures 0 <= sig * p < bound * q
    ensures sig * p == 0 <==> sig == 0
  {
    MulLt(sig, bound, p);
    MulLe(p, q, bound);
    ScaleOrder(sig, 0, p);
  }

  lemma TinyMagnitude(sig: nat, shift: nat)
    requires sig < 0x20_0000_0000_0000 && shift <= 996
    ensures 0 <= 2 * (sig * Pow2(shift)) < Pow2(1050)
    ensures sig * Pow2(shift) == 0 <==> sig == 0
  {
    Pow2Mono(shift, 996);
    Pow2Values();
    TinyProduct(sig, Pow2(shift), Pow2(996), Pow2(53));
    Pow2Add(53, 996);
    assert Pow2(1050) == 2 * Pow2(1049);
  }

  /** exp <= 997: below half of the smallest subnormal. */
  lemma LocateTiny(sig: nat, shift: nat, s: bool)
    requires sig < 0x20_0000_0000_0000 && shift <= 996 && (s <==> sig != 0)
    ensures Located(sig * Pow2(shift), 0, false, s)
  {
    TinyMagnitude(sig, shift);
  }

  /** exp > 1038: at least 2^16. */
  lemma HugeMagnitude(sig: nat, shift: nat)
    requires 0x10_0000_0000_0000 <= sig && 1038 <= shift
    ensures HalfMag(INFINITE) <= sig * Pow2(shift)
  {
    Pow2Values();
    Pow2Mono(1038, shift);
    MulLe(Pow2(1038), Pow2(shift), Pow2(52));
    MulLe(Pow2(52), sig, Pow2(shift));
    Pow2Add(52, 1038);
    Pow2Add(10, 30);
    Pow2Add(40, 1050);
    assert HalfSig(INFINITE) == Pow2(10) * Pow2(30);
  }

  lemma Overflow(a: int)
    requires HalfMag(INFINITE) <= a
    ensures Rounded(a, Down, LARGEST) && Rounded(a, DownToInfinity, INFINITE) && Rounded(a, Up, INFINITE)
    ensures Rounded(a, NearestAway, INFINITE) && Rounded(a, NearestEven, INFINITE)
  {
    forall c | 0 <= c < INFINITE ensures HalfMag(c) < HalfMag(INFINITE) { HalfIncreases(c, INFINITE); }
  }

  // ---------------------------------------------------------------- double to half

  function Round(b: bool): nat { if b then 1 else 0 }

  /** What rounding adds to the truncated code in the final branches of the conversion. */
  function Increment(odd: bool, g: bool, s: bool, style: Style, tiesToEven: bool, sign: nat): nat {
    match style
    case ToNearest => Round(g && (!tiesToEven || s || odd))
    case TowardInfinity => Round(sign == 0 && (s || g))
    case TowardNegInfinity => Round(sign == 1 && (s || g))
    case _ => 0
  }

  lemma Adjusted(a: int, code: nat, g: bool, s: bool, style: Style, tiesToEven: bool, sign: nat, h: nat)
    requires Located(a, code, g, s) && code <= LARGEST && sign < 2
    requires h == code + Increment(code % 2 == 1, g, s, style, tiesToEven, sign)
    ensures Rounded(a, DirectionOf(style, tiesToEven, sign), h)
  {
    RoundDirected(a, code, g, s);
    if style == ToNearest {
      RoundNearest(a, code, g, s, h, DirectionOf(style, tiesToEven, sign));
    }
  }

  lemma NormalFields(hi: nat)
    ensures hi / 0x400 % 0x400 == (hi % 0x10_0000) / 0x400
    ensures hi / 0x200 % 2 == (hi % 0x10_0000) / 0x200 % 2
    ensures hi % 0x200 == (hi % 0x10_0000) % 0x200
  {
    var q, r := hi / 0x10_0000, hi % 0x10_0000;
    var t := r / 0x200;
    DivMod(r, 0x400);
    DivMod(r, 0x200);
    DivModUnique(hi, 0x400, q * 0x400 + r / 0x400, r % 0x400);
    DivModUnique(q * 0x400 + r / 0x400, 0x400, q, r / 0x400);
    DivModUnique(hi, 0x200, q * 0x800 + t, r % 0x200);
    DivModUnique(q * 0x800 + t, 2, q * 0x400 + t / 2, t % 2);
  }

  /** The branches of the conversion for exponents up to 1038: the truncated code, the guard bit and the
      sticky bit, from the two words of the pattern without its sign. */
  method Cut(exp: nat, high: nat, low: nat, ghost m: nat, ghost shift: nat) returns (code: nat, g: bool, s: bool)
    requires exp == high / 0x10_0000 <= 1038 && low < 0x1_0000_0000
    requires m == high % 0x10_0000 * 0x1_0000_0000 + low + if exp == 0 then 0 else 0x10_0000_0000_0000
    requires shift == if exp == 0 then 0 else exp - 1
    ensures code <= LARGEST && Located(m * Pow2(shift), code, g, s)
  {
    var hi := high;
    g, s := false, low != 0;
    if exp > 1008 {
      g := hi / 0x200 % 2 == 1;
      s := s || hi % 0x200 != 0;
      code := (exp - 1008) * 0x400 + hi / 0x400 % 0x400;
      NormalFields(high);
      LocateNormal(exp, high % 0x10_0000, low, m, code);
    } else if exp > 997 {
      var i := 1018 - exp;
      hi := hi % 0x10_0000 + 0x10_0000;
      g := hi / Pow2(i) % 2 == 1;
      s := s || hi % Pow2(i) != 0;
      SmallCode(i, hi);
      code := hi / Pow2(i + 1);
      LocateSubnormal(exp, hi, low, m, i, code);
    } else {
      s := s || hi != 0;
      code := 0;
      LocateTiny(m, shift, s);
    }
  }

  lemma SignedParts(cut: nat, sign: nat, code: nat)
    requires code < SIGN_BIT && cut == sign * SIGN_BIT + code
    ensures cut % 2 == code % 2 && cut / 0x8000 == sign
  {
  }

  /** The final rounding branches, on the pattern with its sign. */
  method RoundBits(cut: nat, g: bool, s: bool, style: Style, tiesToEven: bool) returns (hbits: nat)
    ensures hbits == cut + Increment(cut % 2 == 1, g, s, style, tiesToEven, cut / 0x8000)
  {
    hbits := cut;
    if style == ToNearest {
      if tiesToEven {
        hbits := hbits + Round(g && (s || hbits % 2 == 1));
      } else {
        hbits := hbits + Round(g);
      }
    } else if style == TowardInfinity {
      hbits := hbits + Round(hbits / 0x8000 == 0 && (s || g));
    } else if style == TowardNegInfinity {
      hbits := hbits + Round(hbits / 0x8000 == 1 && (g || s));
    }
  }

  /** The magnitude returned for exponents above 1038. */
  function OverflowTop(style: Style, sign: nat): nat
    requires sign < 2
  {
    if style == TowardInfinity then 0x7C00 - sign
    else if style == TowardNegInfinity then 0x7BFF + sign
    else 0x7BFF + Round(style != TowardZero)
  }

  lemma OverflowResult(bits: u64, style: Style, tiesToEven: bool, h: nat)
    requires 1038 < Exponent(bits) < 2047
    requires SignBit(bits) < 2 && h == OverflowTop(style, SignBit(bits))
    ensures ToHalf(bits, style, tiesToEven, SignBit(bits) * SIGN_BIT + h)
  {
    HugeMagnitude(Significand(bits), Exponent(bits) - 1);
    TopRounded(DoubleMag(bits), style, tiesToEven, SignBit(bits));
  }

  lemma TopRounded(a: int, style: Style, tiesToEven: bool, sign: nat)
    requires HalfMag(INFINITE) <= a && sign < 2
    ensures Rounded(a, DirectionOf(style, tiesToEven, sign), OverflowTop(style, sign)) && OverflowTop(style, sign) <= INFINITE
  {
    Overflow(a);
  }

  lemma SpecialResult(bits: u64, style: Style, tiesToEven: bool)
    requires Exponent(bits) == 2047
    ensures ToHalf(bits, style, tiesToEven, SignBit(bits) * SIGN_BIT + 0x7C00 + if Mantissa(bits) != 0 then 0x3FF else 0)
  {
  }

  lemma FiniteResult(bits: u64, style: Style, tiesToEven: bool, cut: nat, code: nat, g: bool, s: bool, hbits: nat)
    requires Finite(bits) && Located(DoubleMag(bits), code, g, s) && code <= LARGEST
    requires cut == SignBit(bits) * SIGN_BIT + code
    requires hbits == cut + Increment(cut % 2 == 1, g, s, style, tiesToEven, cut / 0x8000)
    ensures ToHalf(bits, style, tiesToEven, hbits)
  {
    SignIsBit(bits);
    SignedParts(cut, SignBit(bits), code);
    Adjusted(DoubleMag(bits), code, g, s, style, tiesToEven, SignBit(bits), hbits - SignBit(bits) * SIGN_BIT);
  }

  /** `float2half_impl(double)`.  Fields joined by `|` in the source occupy different bits and are added. */
  method Float2Half(bits: u64, style: Style, tiesToEven: bool) returns (hbits: nat)
    ensures ToHalf(bits, style, tiesToEven, hbits)
  {
    Words(bits);
    var hi, lo := bits / 0x1_0000_0000, bits % 0x1_0000_0000;
    hbits := hi / 0x8000_0000 * 0x8000;
    hi := hi % 0x8000_0000;
    var exp := hi / 0x10_0000;
    if exp == 2047 {
      SpecialResult(bits, style, tiesToEven);
      return hbits + 0x7C00 + if bits % 0x10_0000_0000_0000 != 0 then 0x3FF else 0;
    }
    if exp > 1038 {
      var top := OverflowTop(style, hbits / 0x8000);
      OverflowResult(bits, style, tiesToEven, top);
      return hbits + top;
    }
    var code, g, s := Cut(exp, hi, lo, Significand(bits), Shift(bits));
    var cut := hbits + code;
    hbits := RoundBits(cut, g, s, style, tiesToEven);
    FiniteResult(bits, style, tiesToEven, cut, code, g, s, hbits);
  }

  // ---------------------------------------------------------------- uniqueness and monotonicity

  lemma Between(a: int, x: int, y: int, z: int)
    requires x < y < z && Dist(a, x) == Dist(a, z)
    ensures Dist(a, y) < Dist(a, x)
  {
  }

  lemma NearestIs(a: int, d: Direction, h: nat, c: nat)
    requires d == NearestAway || d == NearestEven
    requires Rounded(a, d, h) && c <= INFINITE
    ensures Dist(a, HalfMag(h)) <= Dist(a, HalfMag(c))
    ensures d == NearestEven && c != h && Dist(a, HalfMag(h)) == Dist(a, HalfMag(c)) ==> h % 2 == 0
    ensures d == NearestAway && c != h && Dist(a, HalfMag(h)) == Dist(a, HalfMag(c)) ==> c < h
  {
  }

  /** Of two tied codes only one is the larger. */
  lemma AwayUnique(a: int, h: nat, k: nat)
    requires Rounded(a, NearestAway, h) && Rounded(a, NearestAway, k)
    ensures h >= k
  {
    if h < k {
      NearestIs(a, NearestAway, h, k);
      NearestIs(a, NearestAway, k, h);
    }
  }

  /** Of two even codes equally near, the odd one after the smaller is nearer. */
  lemma EvenUnique(a: int, h: nat, k: nat)
    requires Rounded(a, NearestEven, h) && Rounded(a, NearestEven, k)
    ensures h >= k
  {
    if h < k {
      NearestIs(a, NearestEven, h, k);
      NearestIs(a, NearestEven, k, h);
      NearestIs(a, NearestEven, h, h + 1);
      HalfIncreases(h, h + 1);
      HalfIncreases(h + 1, k);
      Between(a, HalfMag(h), HalfMag(h + 1), HalfMag(k));
    }
  }

  /** Correct rounding determines the code and never inverts an order. */
  lemma RoundedMonotone(a: int, b: int, d: Direction, h: nat, k: nat)
    requires Rounded(a, d, h) && Rounded(b, d, k) && a <= b
    ensures h <= k
  {
    if k < h {
      HalfIncreases(k, h);
      if d == NearestAway || d == NearestEven {
        NearestIs(a, d, h, k);
        NearestIs(b, d, k, h);
        if d == NearestEven { EvenUnique(a, k, h); } else { AwayUnique(a, k, h); }
      }
    }
  }

  lemma RoundedExact(c: nat, d: Direction, h: nat)
    requires c <= LARGEST && Rounded(HalfMag(c), d, h)
    ensures h == c
  {
    if h < c { HalfIncreases(h, c); }
    if c < h { HalfIncreases(c, h); }
  }

  function Value(bits: u64): int {
    if SignBit(bits) == 0 then DoubleMag(bits) else -DoubleMag(bits)
  }

  /** The value of a half that is not NaN, an infinity counting as 2^16. */
  function HalfValue(hbits: nat): int {
    var mag: int := HalfMag(hbits % SIGN_BIT);
    if hbits < SIGN_BIT then mag else -mag
  }

  lemma MagnitudesOrdered(x: u64, y: u64, style: Style, ties: bool, h: nat, k: nat)
    requires Finite(x) && Finite(y) && SignBit(x) == SignBit(y) && DoubleMag(x) <= DoubleMag(y)
    requires ToHalf(x, style, ties, h) && ToHalf(y, style, ties, k)
    ensures h <= k
  {
    var sign := SignBit(x);
    RoundedMonotone(DoubleMag(x), DoubleMag(y), DirectionOf(style, ties, sign), h - sign * SIGN_BIT, k - sign * SIGN_BIT);
  }

  lemma ZeroConverts(x: u64, style: Style, ties: bool, h: nat)
    requires Finite(x) && DoubleMag(x) == 0 && ToHalf(x, style, ties, h)
    ensures HalfValue(h) == 0
  {
    SignIsBit(x);
    SignOfHalf(x, style, ties, h);
    HalfZero();
    RoundedExact(0, DirectionOf(style, ties, SignBit(x)), h - SignBit(x) * SIGN_BIT);
  }

  lemma HalfZero()
    ensures HalfMag(0) == 0
  {
  }

  lemma HalfSigns(h: nat)
    requires h < 2 * SIGN_BIT
    ensures h < SIGN_BIT ==> HalfValue(h) == HalfMag(h)
    ensures h >= SIGN_BIT ==> HalfValue(h) == 0 - HalfMag(h - SIGN_BIT)
  {
    if h >= SIGN_BIT { assert h % SIGN_BIT == h - SIGN_BIT; }
  }

  lemma SignOfHalf(x: u64, style: Style, ties: bool, h: nat)
    requires ToHalf(x, style, ties, h) && SignBit(x) < 2
    ensures SignBit(x) * SIGN_BIT <= h < SignBit(x) * SIGN_BIT + SIGN_BIT
    ensures SignBit(x) == 0 ==> h < SIGN_BIT && HalfValue(h) == HalfMag(h)
    ensures SignBit(x) == 1 ==> SIGN_BIT <= h < 2 * SIGN_BIT && HalfValue(h) == 0 - HalfMag(h - SIGN_BIT)
  {
    HalfSigns(h);
  }

  lemma SignIsBit(x: u64)
    ensures SignBit(x) < 2
  {
  }

  lemma SameSignMonotone(x: u64, y: u64, style: Style, ties: bool, h: nat, k: nat)
    requires Finite(x) && Finite(y) && Value(x) <= Value(y) && SignBit(x) == SignBit(y) < 2
    requires ToHalf(x, style, ties, h) && ToHalf(y, style, ties, k)
    ensures HalfValue(h) <= HalfValue(k)
  {
    SignedRange(x, style, ties, h);
    SignedRange(y, style, ties, k);
    if SignBit(x) == 0 {
      MagnitudesOrdered(x, y, style, ties, h, k);
      PositiveOrder(h, k);
    } else {
      MagnitudesOrdered(y, x, style, ties, k, h);
      NegativeOrder(h, k);
    }
  }

  lemma SignedRange(x: u64, style: Style, ties: bool, h: nat)
    requires ToHalf(x, style, ties, h) && SignBit(x) < 2
    ensures SignBit(x) * SIGN_BIT <= h < SignBit(x) * SIGN_BIT + SIGN_BIT
  {
  }

  lemma PositiveOrder(h: nat, k: nat)
    requires h <= k < SIGN_BIT
    ensures HalfValue(h) <= HalfValue(k)
  {
    HalfSigns(h);
    HalfSigns(k);
    HalfIncreases(h, k);
  }

  lemma NegativeOrder(h: nat, k: nat)
    requires SIGN_BIT <= k <= h < 2 * SIGN_BIT
    ensures HalfValue(h) <= HalfValue(k)
  {
    HalfSigns(h);
    HalfSigns(k);
    HalfIncreases(k - SIGN_BIT, h - SIGN_BIT);
  }

  /** In every rounding mode the conversion is monotone over all pairs of finite doubles. */
  lemma ConversionMonotone(x: u64, y: u64, style: Style, ties: bool, h: nat, k: nat)
    requires Finite(x) && Finite(y) && Value(x) <= Value(y)
    requires ToHalf(x, style, ties, h) && ToHalf(y, style, ties, k)
    ensures HalfValue(h) <= HalfValue(k)
  {
    SignIsBit(x);
    SignIsBit(y);
    if SignBit(x) == SignBit(y) {
      SameSignMonotone(x, y, style, ties, h, k);
    } else {
      MagNonNegative(x);
      MagNonNegative(y);
      SignOfHalf(x, style, ties, h);
      SignOfHalf(y, style, ties, k);
      if SignBit(x) == 0 {
        ZeroConverts(x, style, ties, h);
        ZeroConverts(y, style, ties, k);
      }
    }
  }

  // ---------------------------------------------------------------- the rounding modes, by signed values

  /** What rounding a magnitude means against any finite code c. */
  lemma MagBounds(a: int, d: Direction, h: nat, c: nat)
    requires Rounded(a, d, h) && c < INFINITE
    ensures d == Down || d == DownToInfinity ==> HalfMag(h) <= a && (HalfMag(c) <= a ==> HalfMag(c) <= HalfMag(h))
    ensures d == Down ==> h < INFINITE
    ensures d == DownToInfinity ==> (h == INFINITE <==> HalfMag(INFINITE) <= a)
    ensures d == Up && h == INFINITE ==> HalfMag(c) < a
    ensures d == Up && h < INFINITE ==> a <= HalfMag(h) && (a <= HalfMag(c) ==> HalfMag(h) <= HalfMag(c))
    ensures d == NearestAway || d == NearestEven ==> Dist(a, HalfMag(h)) <= Dist(a, HalfMag(c))
  {
    if c <= h { HalfIncreases(c, h); } else { HalfIncreases(h, c); }
  }

  /** A value given by sign and magnitude. */
  function Signed(sign: nat, mag: int): int { if sign == 0 then mag else -mag }

  predicate FiniteCode(g: nat) { g < 2 * SIGN_BIT && g % SIGN_BIT < INFINITE }

  predicate IsInfinite(g: nat) { g % SIGN_BIT == INFINITE }

  /** Signs and magnitudes of a double, the half it converts to, and any finite half. */
  lemma Parts(bits: u64, style: Style, ties: bool, hbits: nat, g: nat)
    returns (sign: nat, a: int, h: nat, side: nat, c: nat)
    requires Finite(bits) && ToHalf(bits, style, ties, hbits) && FiniteCode(g)
    ensures sign == SignBit(bits) < 2 && side < 2 && a >= 0 && a == DoubleMag(bits) && h <= INFINITE && c < INFINITE
    ensures Value(bits) == Signed(sign, a) && HalfValue(hbits) == Signed(sign, HalfMag(h)) && HalfValue(g) == Signed(side, HalfMag(c))
    ensures Rounded(a, DirectionOf(style, ties, sign), h) && (IsInfinite(hbits) <==> h == INFINITE) && hbits == sign * SIGN_BIT + h
  {
    sign, a, h := Converted(bits, style, ties, hbits);
    side, c := CodeParts(g);
  }

  lemma Converted(bits: u64, style: Style, ties: bool, hbits: nat) returns (sign: nat, a: int, h: nat)
    requires Finite(bits) && ToHalf(bits, style, ties, hbits)
    ensures sign == SignBit(bits) < 2 && a >= 0 && a == DoubleMag(bits) && h <= INFINITE
    ensures Value(bits) == Signed(sign, a) && HalfValue(hbits) == Signed(sign, HalfMag(h))
    ensures Rounded(a, DirectionOf(style, ties, sign), h) && (IsInfinite(hbits) <==> h == INFINITE) && hbits == sign * SIGN_BIT + h
  {
    SignIsBit(bits);
    SignOfHalf(bits, style, ties, hbits);
    MagNonNegative(bits);
    sign, a := SignBit(bits), DoubleMag(bits);
    h := hbits - sign * SIGN_BIT;
    SignedParts(hbits, sign, h);
    DivModUnique(hbits, SIGN_BIT, sign, h);
  }

  lemma CodeParts(g: nat) returns (side: nat, c: nat)
    requires FiniteCode(g)
    ensures side < 2 && c < INFINITE && HalfValue(g) == Signed(side, HalfMag(c))
  {
    HalfSigns(g);
    side, c := g / SIGN_BIT, g % SIGN_BIT;
  }

  /** Toward plus infinity: the least half that is not below the double, infinity when the double is above every half. */
  lemma RoundsUp(bits: u64, ties: bool, hbits: nat, g: nat)
    requires Finite(bits) && ToHalf(bits, TowardInfinity, ties, hbits) && FiniteCode(g)
    ensures IsInfinite(hbits) ==> HalfValue(g) < Value(bits)
    ensures !IsInfinite(hbits) ==> Value(bits) <= HalfValue(hbits)
    ensures Value(bits) <= HalfValue(g) ==> HalfValue(hbits) <= HalfValue(g)
  {
    var sign, a, h, side, c := Parts(bits, TowardInfinity, ties, hbits, g);
    OutwardBounds(a, if sign == 0 then Up else Down, h, c);
  }

  /** Toward minus infinity: the greatest half that is not above it. */
  lemma RoundsDown(bits: u64, ties: bool, hbits: nat, g: nat)
    requires Finite(bits) && ToHalf(bits, TowardNegInfinity, ties, hbits) && FiniteCode(g)
    ensures IsInfinite(hbits) ==> Value(bits) < HalfValue(g)
    ensures !IsInfinite(hbits) ==> HalfValue(hbits) <= Value(bits)
    ensures HalfValue(g) <= Value(bits) ==> HalfValue(g) <= HalfValue(hbits)
  {
    var sign, a, h, side, c := Parts(bits, TowardNegInfinity, ties, hbits, g);
    OutwardBounds(a, if sign == 0 then Down else Up, h, c);
  }

  /** To nearest: no finite half is nearer. */
  lemma RoundsNearest(bits: u64, ties: bool, hbits: nat, g: nat)
    requires Finite(bits) && ToHalf(bits, ToNearest, ties, hbits) && FiniteCode(g)
    ensures Dist(Value(bits), HalfValue(hbits)) <= Dist(Value(bits), HalfValue(g))
  {
    var sign, a, h, side, c := Parts(bits, ToNearest, ties, hbits, g);
    MagBounds(a, DirectionOf(ToNearest, ties, sign), h, c);
    OutwardBounds(a, DirectionOf(ToNearest, ties, sign), h, c);
  }

  /** The same against the code and against zero. */
  lemma OutwardBounds(a: int, d: Direction, h: nat, c: nat)
    requires Rounded(a, d, h) && a >= 0 && c < INFINITE
    ensures HalfMag(c) >= 0 && HalfMag(h) >= 0
    ensures d == Down ==> h < INFINITE && HalfMag(h) <= a && (HalfMag(c) <= a ==> HalfMag(c) <= HalfMag(h))
    ensures d == Up && h == INFINITE ==> HalfMag(c) < a && 0 < a
    ensures d == Up && h < INFINITE ==> a <= HalfMag(h) && (a <= HalfMag(c) ==> HalfMag(h) <= HalfMag(c)) && (a == 0 ==> HalfMag(h) == 0)
    ensures d == NearestAway || d == NearestEven ==> Dist(a, HalfMag(h)) <= a
  {
    HalfZero();
    MagBounds(a, d, h, c);
    MagBounds(a, d, h, 0);
  }

  /** Toward zero and by default: of the double's sign, between it and zero, and no half is closer from that side. */
  lemma Truncates(bits: u64, style: Style, ties: bool, hbits: nat, g: nat)
    requires Finite(bits) && ToHalf(bits, style, ties, hbits) && (style == TowardZero || style == Indeterminate) && FiniteCode(g)
    ensures hbits / SIGN_BIT == SignBit(bits)
    ensures if SignBit(bits) == 0 then 0 <= HalfValue(hbits) <= Value(bits) else Value(bits) <= HalfValue(hbits) <= 0
    ensures 0 <= HalfValue(g) <= Value(bits) ==> HalfValue(g) <= HalfValue(hbits)
    ensures Value(bits) <= HalfValue(g) <= 0 ==> HalfValue(hbits) <= HalfValue(g)
  {
    var sign, a, h, side, c := Parts(bits, style, ties, hbits, g);
    MagBounds(a, DirectionOf(style, ties, sign), h, c);
  }

  /** Toward zero never overflows; by default the result is infinite exactly from 2^16 on. */
  lemma OverflowsFrom(bits: u64, style: Style, ties: bool, hbits: nat, g: nat)
    requires Finite(bits) && ToHalf(bits, style, ties, hbits) && (style == TowardZero || style == Indeterminate) && FiniteCode(g)
    ensures style == TowardZero ==> !IsInfinite(hbits)
    ensures style == Indeterminate ==> (IsInfinite(hbits) <==> HalfMag(INFINITE) <= DoubleMag(bits))
  {
    var sign, a, h, side, c := Parts(bits, style, ties, hbits, g);
    MagBounds(a, DirectionOf(style, ties, sign), h, c);
  }

  lemma MagNonNegative(x: u64)
    ensures DoubleMag(x) >= 0
  {
    MulLe(0, Significand(x), Pow2(Shift(x)));
  }

  // ---------------------------------------------------------------- half to double

  /** `bits` is the double with the value of the half `value`: NaN payloads are kept. */
  ghost predicate ToDouble(value: nat, bits: u64) {
    var c := value % SIGN_BIT;
    && SignBit(bits) == value / SIGN_BIT
    && (c < INFINITE ==> Finite(bits) && DoubleMag(bits) == HalfMag(c))
    && (c >= INFINITE ==> !Finite(bits) && Mantissa(bits) == (c - INFINITE) * 0x400_0000_0000)
  }

  lemma WideFields(sign: nat, e: nat, f: nat, bits: u64)
    requires sign < 2 && e < 0x800 && f < 0x400
    requires bits == (sign * 0x8000_0000 + e * 0x10_0000 + f * 0x400) * 0x1_0000_0000
    ensures SignBit(bits) == sign && Exponent(bits) == e && Mantissa(bits) == f * 0x400_0000_0000
  {
    Words(bits);
  }

  lemma NormalisedMag(c: nat, j: nat, abs: nat, bits: u64)
    requires j <= 10 && 0x400 <= abs < 0x800 && abs == c * Pow2(j)
    requires Exponent(bits) == 1009 - j && Mantissa(bits) == (abs - 0x400) * 0x400_0000_0000
    ensures DoubleMag(bits) == c * Pow2(1050)
  {
    Pow2Values();
    assert Significand(bits) == abs * 0x400_0000_0000;
    Associate(abs, Pow2(42), Pow2(1008 - j));
    Pow2Add(42, 1008 - j);
    Associate(c, Pow2(j), Pow2(1050 - j));
    Pow2Add(j, 1050 - j);
  }

  lemma NormalMag(c: nat, bits: u64)
    requires 0x400 <= c < INFINITE
    requires Exponent(bits) == 1008 + c / 0x400 && Mantissa(bits) == c % 0x400 * 0x400_0000_0000
    ensures DoubleMag(bits) == HalfMag(c)
  {
    var k, f := c / 0x400, c % 0x400;
    NormalCode(k, f);
    assert Significand(bits) == (0x400 + f) * 0x400_0000_0000;
    Associate(0x400 + f, 0x400_0000_0000, Pow2(k + 1007));
  }

  /** The loop that shifts a subnormal's significand up to its leading one, lowering the exponent. */
  method Normalise(c: nat, high: nat) returns (abs: nat, hi: nat, ghost j: nat)
    requires 0 < c && high >= 0x3F00_0000
    ensures j <= 10 && hi == high - j * 0x10_0000 && abs == c * Pow2(j) && abs >= 0x400
    ensures if c >= 0x400 then j == 0 else j > 0 && abs < 0x800
  {
    abs, hi, j := c, high, 0;
    while abs < 0x400
      invariant hi == high - j * 0x10_0000
      invariant abs == c * Pow2(j) && Pow2(j) <= abs
      invariant j > 0 ==> c < 0x400 && abs < 0x800
      invariant j <= 10
      decreases 0x400 - abs
    {
      Associate(c, Pow2(j), 2);
      MulLe(1, c, Pow2(j + 1));
      abs := 2 * abs;
      hi := hi - 0x10_0000;
      j := j + 1;
      if j > 10 { Pow2Values(); }
    }
  }

  /** `half2float_impl(uint16, double)`. */
  method Half2Float(value: nat) returns (bits: u64)
    requires value < 0x1_0000
    ensures ToDouble(value, bits)
  {
    var sign, c := value / 0x8000, value % 0x8000;
    var hi := sign * 0x8000_0000;
    if c == 0 {
      WideFields(sign, 0, 0, hi * 0x1_0000_0000);
    } else {
      var base := if c >= 0x7C00 then 0x7E00_0000 else 0x3F00_0000;
      var abs, high;
      ghost var j;
      abs, high, j := Normalise(c, hi + base);
      hi := high + abs * 0x400;
      Widened(sign, c, base, j, abs, hi, hi * 0x1_0000_0000);
    }
    bits := hi * 0x1_0000_0000;
  }

  lemma Widened(sign: nat, c: nat, base: nat, j: nat, abs: nat, hi: nat, bits: nat)
    requires sign < 2 && 0 < c < SIGN_BIT && j <= 10 && abs == c * Pow2(j)
    requires j == 0 ==> c >= 0x400
    requires j > 0 ==> c < 0x400 <= abs < 0x800
    requires base == if c >= INFINITE then 0x7E00_0000 else 0x3F00_0000
    requires hi == sign * 0x8000_0000 + base - j * 0x10_0000 + abs * 0x400
    requires bits == hi * 0x1_0000_0000
    ensures bits < 0x1_0000_0000_0000_0000 && ToDouble(sign * SIGN_BIT + c, bits)
  {
    if j == 0 {
      var k := c / 0x400 + if c >= INFINITE then 0x7E0 else 0x3F0;
      WideFields(sign, k, c % 0x400, bits);
      if c < INFINITE { NormalMag(c, bits); }
    } else {
      WideFields(sign, 1009 - j, abs - 0x400, bits);
      NormalisedMag(c, j, abs, bits);
    }
  }

  /** Widening a half and rounding it again, in any mode, gives it back; a NaN gives the all-ones NaN. */
  lemma RoundTrip(value: nat, bits: u64, style: Style, ties: bool, hbits: nat)
    requires value < 0x1_0000 && ToDouble(value, bits) && ToHalf(bits, style, ties, hbits)
    ensures hbits == if value % SIGN_BIT <= INFINITE then value else value / SIGN_BIT * SIGN_BIT + 0x7FFF
  {
    var c := value % SIGN_BIT;
    if c < INFINITE {
      RoundedExact(c, DirectionOf(style, ties, SignBit(bits)), hbits - SignBit(bits) * SIGN_BIT);
    }
  }
}
