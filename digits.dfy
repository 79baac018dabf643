/**
 * Fixed-width, most-significant-digit-first positional numbers.
 *
 * One notion serves every conversion in the model: Base32 quanta (8 digits of
 * base 32 or 5 digits of base 256), the 8-byte big-endian counter, the 4-byte
 * big-endian read of the truncation and the decimal rendering of the code.
 */
module Digits {

  /** An octet: one digit of base 256. */
  type byte = b: nat | b < 256

  function Pow(b: nat, n: nat): (r: nat)
    ensures b > 0 ==> r > 0
  {
    if n == 0 then 1 else b * Pow(b, n - 1)
  }

  predicate AllBelow(ds: seq<nat>, base: nat)
  {
    forall i :: 0 <= i < |ds| ==> ds[i] < base
  }

  /** The value of `ds` read big-endian: each step shifts the accumulator by
      one digit and adds the next one, as `acc = acc * base + d` does. */
  function FromDigits(ds: seq<nat>, base: nat): nat
    decreases |ds|
  {
    if ds == [] then 0 else FromDigits(ds[..|ds| - 1], base) * base + ds[|ds| - 1]
  }

  /** The `n` low-order digits of `x` in `base`, most significant first. */
  function ToDigits(x: nat, base: nat, n: nat): (ds: seq<nat>)
    requires base >= 2
    ensures |ds| == n && AllBelow(ds, base)
  {
    if n == 0 then [] else ToDigits(x / base, base, n - 1) + [x % base]
  }

  /** A sequence of `n` zero digits. */
  function Zeros(n: nat): (ds: seq<nat>)
    ensures |ds| == n && forall i :: 0 <= i < n ==> ds[i] == 0
  {
    seq(n, _ => 0)
  }

  lemma MulLeftMono(a: int, b: int, c: int)
    requires a <= b && c >= 0
    ensures a * c <= b * c
  {
    assert b * c - a * c == (b - a) * c;
  }

  lemma DivMod(x: nat, b: nat)
    requires b > 0
    ensures x == (x / b) * b + x % b && x % b < b
  {
  }

  /** Euclidean division is determined by its defining equation. */
  lemma DivModUnique(x: nat, b: nat, q: nat, r: nat)
    requires 0 <= r < b && x == q * b + r
    ensures x / b == q && x % b == r
  {
    var q', r' := x / b, x % b;
    assert x == q' * b + r';
    if q' < q {
      MulLeftMono(q' + 1, q, b);
      assert false;
    } else if q < q' {
      MulLeftMono(q + 1, q', b);
      assert false;
    }
  }

  lemma {:induction false} PowAdd(b: nat, m: nat, n: nat)
    ensures Pow(b, m + n) == Pow(b, m) * Pow(b, n)
    decreases m
  {
    if m > 0 {
      PowAdd(b, m - 1, n);
      calc {
        Pow(b, m + n);
        b * Pow(b, m - 1 + n);
        b * (Pow(b, m - 1) * Pow(b, n));
        (b * Pow(b, m - 1)) * Pow(b, n);
      }
    }
  }

  /** Every value of `n` digits is below `base^n`. */
  lemma {:induction false} FromDigitsBound(ds: seq<nat>, base: nat)
    requires base >= 1 && AllBelow(ds, base)
    ensures FromDigits(ds, base) < Pow(base, |ds|)
    decreases |ds|
  {
    if ds != [] {
      var init := ds[..|ds| - 1];
      var p, hi := Pow(base, |init|), FromDigits(init, base);
      FromDigitsBound(init, base);
      MulLeftMono(hi, p - 1, base);
      assert (p - 1) * base == p * base - base;
      assert FromDigits(ds, base) == hi * base + ds[|ds| - 1];
      assert Pow(base, |ds|) == base * p;
    }
  }

  /** Reading digits back out of their value gives the digits. */
  lemma {:induction false} ToFromDigits(ds: seq<nat>, base: nat)
    requires base >= 2 && AllBelow(ds, base)
    ensures ToDigits(FromDigits(ds, base), base, |ds|) == ds
    decreases |ds|
  {
    if ds != [] {
      var init, d := ds[..|ds| - 1], ds[|ds| - 1];
      DivModUnique(FromDigits(ds, base), base, FromDigits(init, base), d);
      ToFromDigits(init, base);
      assert ds == init + [d];
    }
  }

  /** A value below `base * p` has a quotient below `p`. */
  lemma DivBound(x: nat, base: nat, p: nat)
    requires base >= 1 && x < base * p
    ensures x / base < p
  {
    var q := x / base;
    assert x == q * base + x % base;
    if q >= p {
      MulLeftMono(p, q, base);
      assert false;
    }
  }

  /** Reading a value into enough digits and back gives the value. */
  lemma {:induction false} FromToDigits(x: nat, base: nat, n: nat)
    requires base >= 2 && x < Pow(base, n)
    ensures FromDigits(ToDigits(x, base, n), base) == x
    decreases n
  {
    if n > 0 {
      var q, r := x / base, x % base;
      var high := ToDigits(q, base, n - 1);
      var ds := ToDigits(x, base, n);
      assert ds == high + [r];
      assert ds[..n - 1] == high;
      assert Pow(base, n) == base * Pow(base, n - 1);
      DivBound(x, base, Pow(base, n - 1));
      DivMod(x, base);
      FromToDigits(q, base, n - 1);
      calc {
        FromDigits(ds, base);
        FromDigits(high, base) * base + r;
        q * base + r;
        x;
      }
    }
  }

  /** Splitting the digits at `k` splits the value into a high and a low part. */
  lemma {:induction false} FromDigitsSplit(ds: seq<nat>, base: nat, k: nat)
    requires k <= |ds|
    ensures FromDigits(ds, base)
         == FromDigits(ds[..k], base) * Pow(base, |ds| - k) + FromDigits(ds[k..], base)
    decreases |ds|
  {
    if k == |ds| {
      assert ds[..k] == ds;
      assert ds[k..] == [];
    } else {
      var init, d := ds[..|ds| - 1], ds[|ds| - 1];
      var low := ds[k..];
      FromDigitsSplit(init, base, k);
      assert init[..k] == ds[..k];
      assert low[..|low| - 1] == init[k..] && low[|low| - 1] == d;
      var hi, lo, p := FromDigits(ds[..k], base), FromDigits(init[k..], base), Pow(base, |init| - k);
      assert FromDigits(init, base) == hi * p + lo;
      assert FromDigits(low, base) == lo * base + d;
      assert Pow(base, |ds| - k) == base * p;
      Distribute(hi, p, lo, base);
    }
  }

  lemma Distribute(a: nat, b: nat, c: nat, m: nat)
    ensures (a * b + c) * m == a * (m * b) + c * m
  {
  }

  lemma {:induction false} FromDigitsZeros(n: nat, base: nat)
    ensures FromDigits(Zeros(n), base) == 0
    decreases n
  {
    if n > 0 {
      assert Zeros(n)[..n - 1] == Zeros(n - 1);
      FromDigitsZeros(n - 1, base);
    }
  }

  /** Appending `m` zero digits multiplies the value by `base^m`. */
  lemma AppendZeros(ds: seq<nat>, base: nat, m: nat)
    ensures FromDigits(ds + Zeros(m), base) == FromDigits(ds, base) * Pow(base, m)
  {
    var e := ds + Zeros(m);
    FromDigitsSplit(e, base, |ds|);
    assert e[..|ds|] == ds;
    assert e[|ds|..] == Zeros(m);
    FromDigitsZeros(m, base);
  }

  /** The leading `m` of `n` digits of `x` are the digits of `x` with its
      low `n - m` digits shifted out. */
  lemma TopDigits(x: nat, base: nat, n: nat, m: nat)
    requires base >= 2 && m <= n && x < Pow(base, n)
    ensures ToDigits(x, base, n)[..m] == ToDigits(x / Pow(base, n - m), base, m)
  {
    var ds := ToDigits(x, base, n);
    var hi, lo := ds[..m], ds[m..];
    assert AllBelow(hi, base) && AllBelow(lo, base) && |lo| == n - m;
    FromToDigits(x, base, n);
    FromDigitsSplit(ds, base, m);
    FromDigitsBound(lo, base);
    DivModUnique(x, Pow(base, n - m), FromDigits(hi, base), FromDigits(lo, base));
    ToFromDigits(hi, base);
  }

  /** Reducing modulo a multiple of `a` first does not change the remainder
      modulo `a`, and the remainder modulo `a` is no larger. */
  lemma ModOfMultiple(x: nat, a: nat, c: nat)
    requires a > 0 && c > 0
    ensures x % a == (x % (a * c)) % a && x % a <= x % (a * c)
  {
    var b := a * c;
    var q, r := x / b, x % b;
    DivMod(x, b);
    var h, l := r / a, r % a;
    DivMod(r, a);
    Regroup(q, c, h, a, l);
    DivModUnique(x, a, q * c + h, l);
    MulLeftMono(0, h, a);
  }

  lemma Regroup(q: nat, c: nat, h: nat, a: nat, l: nat)
    ensures q * (a * c) + (h * a + l) == (q * c + h) * a + l
  {
  }
}
