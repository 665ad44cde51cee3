/** Fixed-width two's-complement arithmetic on naturals: a bit vector of width `w`
    is a natural below `Pow2(w)`. Widths are explicit everywhere, so wrap-around is
    always written out. */
module Bits {

  function Pow2(n: nat): (r: nat)
    ensures r >= 1
  {
    if n == 0 then 1 else 2 * Pow2(n - 1)
  }

  /** The low `w` bits of an arbitrary integer. */
  function Wrap(x: int, w: nat): (r: nat)
    ensures r < Pow2(w)
  {
    x % Pow2(w)
  }

  predicate Msb(a: nat, w: nat) {
    w > 0 && a >= Pow2(w - 1)
  }

  /** The signed integer that a `w`-bit pattern denotes. */
  function ToSigned(a: nat, w: nat): int {
    if Msb(a, w) then a - Pow2(w) else a
  }

  function BitAnd(a: nat, b: nat): nat
    decreases a
  {
    if a == 0 || b == 0 then 0 else (if a % 2 == 1 && b % 2 == 1 then 1 else 0) + 2 * BitAnd(a / 2, b / 2)
  }

  function BitOr(a: nat, b: nat): nat
    decreases a + b
  {
    if a == 0 && b == 0 then 0 else (if a % 2 == 1 || b % 2 == 1 then 1 else 0) + 2 * BitOr(a / 2, b / 2)
  }

  function BitXor(a: nat, b: nat): nat
    decreases a + b
  {
    if a == 0 && b == 0 then 0 else (if a % 2 != b % 2 then 1 else 0) + 2 * BitXor(a / 2, b / 2)
  }

  lemma {:induction false} Pow2Add(m: nat, n: nat)
    ensures Pow2(m + n) == Pow2(m) * Pow2(n)
  {
    if n > 0 { Pow2Add(m, n - 1); }
  }

  lemma {:induction false} Pow2Exceeds(n: nat)
    ensures n < Pow2(n)
  {
    if n > 0 { Pow2Exceeds(n - 1); }
  }

  lemma MulAtLeast(d: int, m: int)
    requires d >= 1 && m > 0
    ensures d * m >= m
  {
    assert (d - 1) * m >= 0;
  }

  /** A multiple of `m` strictly between `-m` and `m` is zero. */
  lemma SmallMultiple(d: int, m: int)
    requires m > 0 && -m < d * m < m
    ensures d == 0
  {
    assert (-d) * m == -(d * m);
    if d >= 1 { MulAtLeast(d, m); } else if d <= -1 { MulAtLeast(-d, m); }
  }

  /** Division with remainder is unique. */
  lemma DivModUnique(x: int, m: int, q: int, r: int)
    requires 0 <= r < m && x == q * m + r
    ensures x % m == r && x / m == q
  {
    var d := x / m - q;
    assert x == x / m * m + x % m;
    assert d * m == x / m * m - q * m;
    SmallMultiple(d, m);
  }

  lemma ModShift(x: int, k: int, m: int)
    requires m > 0
    ensures (x + k * m) % m == x % m
  {
    assert x == (x / m) * m + x % m;
    DivModUnique(x + k * m, m, x / m + k, x % m);
  }

  lemma WrapCongruent(x: int, y: int, k: int, w: nat)
    requires x == y + k * Pow2(w)
    ensures Wrap(x, w) == Wrap(y, w)
  {
    ModShift(y, k, Pow2(w));
  }

  lemma ModOfMod(x: int, m: int, n: int)
    requires m > 0 && n > 0 && m * n > 0
    ensures x % (m * n) % n == x % n
  {
    var q, r := x / (m * n), x % (m * n);
    assert x == q * (m * n) + r;
    assert q * (m * n) == (q * m) * n;
    ModShift(r, q * m, n);
  }

  /** Wrapping to `v` bits and then to `w <= v` bits is wrapping to `w` bits. */
  lemma WrapWrap(x: int, v: nat, w: nat)
    requires w <= v
    ensures Wrap(Wrap(x, v), w) == Wrap(x, w)
  {
    Pow2Add(v - w, w);
    ModOfMod(x, Pow2(v - w), Pow2(w));
  }

  lemma {:induction false} BitAndBound(a: nat, b: nat)
    ensures BitAnd(a, b) <= a && BitAnd(a, b) <= b
    decreases a
  {
    if a != 0 && b != 0 { BitAndBound(a / 2, b / 2); }
  }

  lemma {:induction false} BitOrXorBound(a: nat, b: nat, w: nat)
    requires a < Pow2(w) && b < Pow2(w)
    ensures BitOr(a, b) < Pow2(w) && BitXor(a, b) < Pow2(w)
    decreases w
  {
    if w > 0 { BitOrXorBound(a / 2, b / 2, w - 1); }
  }

  /** Reduction modulo `2m`, split into the low bit and the rest. */
  lemma HalveMod(a: nat, m: nat)
    requires m > 0
    ensures a % (2 * m) == 2 * (a / 2 % m) + a % 2
  {
    var q, r := a / 2 / m, a / 2 % m;
    assert a / 2 == q * m + r;
    assert q * (2 * m) == 2 * (q * m);
    DivModUnique(a, 2 * m, q, 2 * r + a % 2);
  }

  /** And-ing with `2^k - 1` is reduction modulo `2^k`. */
  lemma {:induction false} AndLowMask(a: nat, k: nat)
    ensures BitAnd(a, Pow2(k) - 1) == a % Pow2(k)
    decreases k
  {
    if k > 0 {
      var m := Pow2(k - 1);
      HalveMod(a, m);
      AndLowMask(a / 2, k - 1);
      assert (2 * m - 1) / 2 == m - 1 && (2 * m - 1) % 2 == 1;
    }
  }

  /** Xor-ing with all ones is the complement. */
  lemma {:induction false} XorAllOnes(a: nat, w: nat)
    requires a < Pow2(w)
    ensures BitXor(a, Pow2(w) - 1) == Pow2(w) - 1 - a
    decreases w
  {
    if w > 0 {
      assert (Pow2(w) - 1) / 2 == Pow2(w - 1) - 1;
      XorAllOnes(a / 2, w - 1);
    }
  }

  lemma WrapSmall(x: int, w: nat)
    requires 0 <= x < Pow2(w)
    ensures Wrap(x, w) == x
  {
    DivModUnique(x, Pow2(w), 0, x);
  }

  lemma WrapNegative(x: int, w: nat)
    requires x < 0 <= x + Pow2(w)
    ensures Wrap(x, w) == x + Pow2(w)
  {
    DivModUnique(x, Pow2(w), -1, x + Pow2(w));
  }

  /** The signed reading loses nothing: wrapping it gives the pattern back. */
  lemma WrapSigned(a: nat, w: nat)
    requires a < Pow2(w)
    ensures Wrap(ToSigned(a, w), w) == a
  {
    if Msb(a, w) { WrapNegative(a - Pow2(w), w); } else { WrapSmall(a, w); }
  }

  lemma {:induction false} Pow2Mono(m: nat, n: nat)
    requires m <= n
    ensures Pow2(m) <= Pow2(n)
  {
    if m < n { Pow2Mono(m, n - 1); }
  }

  lemma DivRem(a: nat, b: nat)
    requires b > 0
    ensures 0 <= a / b * b <= a && a - a / b * b == a % b && a / b <= a
  {
    var q, r := a / b, a % b;
    assert a == q * b + r;
    assert q >= 0 && b >= 1 ==> q * b >= q;
  }

  /** Flooring division of a negative number through its complement. */
  lemma FloorNegative(n: nat, d: nat)
    requires d > 0
    ensures (-1 - n) / d == -1 - n / d
  {
    var q := n / d;
    assert n == q * d + n % d;
    assert (-1 - q) * d == -(d + q * d);
    DivModUnique(-1 - n, d, -1 - q, d - 1 - n % d);
  }

  /** `x` one bits above position `w`. */
  function OnesAbove(w: nat, x: nat): nat {
    Pow2Mono(w, w + x);
    Pow2(w + x) - Pow2(w)
  }

  /** Arithmetic shift right as SMT-LIB defines it: the complement of a logical shift when
      the sign bit is set. */
  function ShiftRightArith(a: nat, b: nat, w: nat): nat
    requires a < Pow2(w)
  {
    if Msb(a, w) then
      var n: nat := Pow2(w) - 1 - a;
      DivRem(n, Pow2(b));
      Pow2(w) - 1 - n / Pow2(b)
    else ShiftRight(a, b)
  }

  /** Sign filling is flooring division of the signed reading by the power of two. */
  lemma ShiftRightArithFloors(a: nat, b: nat, w: nat)
    requires a < Pow2(w)
    ensures ShiftRightArith(a, b, w) == ShiftRightSigned(a, b, w)
  {
    var d := Pow2(b);
    if Msb(a, w) {
      var n := Pow2(w) - 1 - a;
      DivRem(n, d);
      FloorNegative(n, d);
      WrapNegative(-1 - n / d, w);
    } else {
      DivRem(a, d);
      WrapSmall(a / d, w);
    }
  }

  function ShiftLeft(a: nat, k: nat, w: nat): (r: nat)
    ensures r < Pow2(w)
  {
    Wrap(a * Pow2(k), w)
  }

  function ShiftRight(a: nat, k: nat): nat {
    DivRem(a, Pow2(k));
    a / Pow2(k)
  }

  /** Shift right keeping the sign: flooring division of the signed reading. */
  function ShiftRightSigned(a: nat, k: nat, w: nat): (r: nat)
    ensures r < Pow2(w)
  {
    Wrap(ToSigned(a, w) / Pow2(k), w)
  }

  function Negate(a: nat, w: nat): nat {
    Wrap(0 - a, w)
  }

  /** `x` copies of the sign bit prepended to a `w`-bit pattern. */
  function SignFill(a: nat, w: nat, x: nat): nat {
    a + if Msb(a, w) then OnesAbove(w, x) else 0
  }

  /** Bits `lo` to `hi`. */
  function BitField(a: nat, hi: nat, lo: nat): nat {
    Wrap(ShiftRight(a, lo), if hi >= lo then hi - lo + 1 else 0)
  }

  /** Prepending copies of the sign bit preserves the signed reading. */
  lemma SignFillValue(a: nat, w: nat, x: nat)
    requires a < Pow2(w)
    ensures SignFill(a, w, x) == Wrap(ToSigned(a, w), w + x)
  {
    var v := w + x;
    Pow2Mono(w, v);
    var t := ToSigned(a, w);
    assert SignFill(a, w, x) == if t < 0 then t + Pow2(v) else t;
    if t < 0 { WrapNegative(t, v); } else { WrapSmall(t, v); }
  }
}
