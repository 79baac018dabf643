/**
 * The HOTP/TOTP code generator of `oath.py`.
 *
 * The arithmetic of the generator is given as functions with lemmas: the
 * padding of the Base32 key to the block size, the signed 64-bit big-endian
 * counter, the dynamic truncation of section 5.3 of RFC 4226 and the width-6
 * decimal rendering. Class `Oath` holds the generator's fields and updates
 * them step by step, as the source's methods do.
 *
 * HMAC-SHA1 is a parameter `mac` of type `Mac`: any function from key bytes
 * and message bytes to a 20-byte digest. The clock is a parameter `now`, the
 * time step `int(time.time() / 30)` read at the moment of the call.
 */
module Oath {
  import opened Wrappers
  import opened Digits
  import Base32
  import opened Strings

  /** Default padding block of the key (`size=8`). */
  const DefaultBlockSize: int := 8
  /** Number of digits of every code; the source's `size` does not change it. */
  const CodeWidth: nat := 6
  const Modulus: nat := 1_000_000

  const MinInt64: int := -0x8000_0000_0000_0000
  const MaxInt64: int := 0x7FFF_FFFF_FFFF_FFFF
  const TwoTo64: nat := 0x1_0000_0000_0000_0000

  /** A time step read from a real clock: always inside the signed 64-bit range. */
  type TimeStep = t: int | MinInt64 <= t <= MaxInt64

  /** A SHA-1 sized digest: twenty octets. */
  type Digest = d: seq<bv8> | |d| == 20 witness seq(20, _ => 0)

  /** HMAC-SHA1 keyed by its first argument over its second. */
  type Mac = (seq<byte>, seq<byte>) -> Digest

  /** Why constructing or using a generator raises. */
  datatype OathError =
    | ZeroBlockSize                      // `len(key) % 0` raises ZeroDivisionError
    | InvalidKey(cause: Base32.DecodeError)  // `b32decode` raises
    | CounterOutOfRange                  // `struct.pack(">q", ...)` raises struct.error

  // ---------------------------------------------------------------------------
  // Key padding and decoding (pad_key)

  /** Python's `%`: the remainder takes the sign of the divisor. */
  function PyMod(a: int, b: int): (r: int)
    requires b != 0
    ensures b > 0 ==> r == a % b
    ensures b < 0 ==> b < r <= 0
  {
    if b > 0 then a % b else -((-a) % (-b))
  }

  /** Python's `%` leaves a remainder that differs from `a` by a multiple of
      the divisor, whatever the signs. */
  lemma PyModCongruent(a: int, b: int)
    requires b != 0
    ensures (a - PyMod(a, b)) % b == 0
  {
    if b > 0 {
      assert a - a % b == (a / b) * b;
      MultipleOf(a / b, b);
    } else {
      var q := (-a) / (-b);
      assert a - PyMod(a, b) == q * b;
      MultipleOf(q, b);
    }
  }

  /** A multiple of `b` leaves no remainder. */
  lemma MultipleOf(q: int, b: int)
    requires b != 0
    ensures (q * b) % b == 0
  {
    var m := if b > 0 then b else -b;
    var y := q * b;
    var d, r := y / b, y % b;
    var t := q - d;
    assert y == d * b + r && 0 <= r < m;
    assert t * b == r;
    if b > 0 {
      if t >= 1 {
        MulLeftMono(1, t, m);
      } else if t <= -1 {
        MulLeftMono(t, -1, m);
      }
    } else {
      if t >= 1 {
        MulLeftMono(1, t, m);
      } else if t <= -1 {
        MulLeftMono(1, -t, m);
      }
    }
  }

  /** `len + m` is a multiple of `size`. */
  predicate Aligned(len: nat, m: int, size: int)
    requires size != 0
  {
    (len + m) % size == 0
  }

  /** `(size - (len(key) % size)) % size`: how many `=` the key needs. */
  function PaddingSize(len: nat, size: int): (n: int)
    requires size != 0
    ensures size > 0 ==> 0 <= n < size && Aligned(len, n, size)
    ensures size > 0 ==> forall m :: 0 <= m < n ==> !Aligned(len, m, size)
    ensures size > 0 && len % size == 0 ==> n == 0
    ensures size < 0 ==> n <= 0
  {
    PaddingIsLeast(len, size);
    PyMod(size - PyMod(len, size), size)
  }

  lemma PaddingIsLeast(len: nat, size: int)
    requires size != 0
    ensures size > 0 ==>
            var n := PyMod(size - PyMod(len, size), size);
            && 0 <= n < size && Aligned(len, n, size)
            && forall m :: 0 <= m < n ==> !Aligned(len, m, size)
  {
    if size < 0 { return; }
    var r := len % size;
    var q := len / size;
    DivMod(len, size);
    assert PyMod(len, size) == r;
    var n := PyMod(size - r, size);
    if r == 0 {
      DivModUnique(size, size, 1, 0);
      assert n == 0;
      assert Aligned(len, 0, size);
    } else {
      DivModUnique(size - r, size, 0, size - r);
      assert n == size - r;
      DivModUnique(len + n, size, q + 1, 0);
      forall m | 0 <= m < n
        ensures !Aligned(len, m, size)
      {
        DivModUnique(len + m, size, q, r + m);
      }
    }
  }

  /** `"=" * k`: empty when `k` is not positive. */
  function PadChars(k: int): (s: string)
    ensures |s| == if k > 0 then k else 0
    ensures forall i :: 0 <= i < |s| ==> s[i] == '='
  {
    if k > 0 then Repeat('=', k) else ""
  }

  /** The value `pad_key` stores in `key_b`, or the exception it raises. */
  function KeyBytes(key: string, size: int): (r: Result<seq<byte>, OathError>)
    ensures size == 0 ==> r == Failure(ZeroBlockSize)
  {
    if size == 0 then Failure(ZeroBlockSize)
    else
      match Base32.Decode(key + PadChars(PaddingSize(|key|, size)))
      case Failure(e) => Failure(InvalidKey(e))
      case Success(bytes) => Success(bytes)
  }

  /** `str.replace(" ", "")`: `s` without its spaces. */
  function RemoveSpaces(s: string): (r: string)
    ensures ' ' !in r && |r| == |s| - multiset(s)[' ']
    ensures forall c :: c != ' ' ==> (c in r <==> c in s)
    decreases |s|
  {
    assert s != [] ==> s == [s[0]] + s[1..];
    if s == [] then []
    else if s[0] == ' ' then RemoveSpaces(s[1..])
    else [s[0]] + RemoveSpaces(s[1..])
  }

  /** Removing spaces goes piece by piece. */
  lemma {:induction false} RemoveSpacesAppend(x: string, y: string)
    ensures RemoveSpaces(x + y) == RemoveSpaces(x) + RemoveSpaces(y)
    decreases |x|
  {
    if x != [] {
      assert (x + y)[0] == x[0] && (x + y)[1..] == x[1..] + y;
      RemoveSpacesAppend(x[1..], y);
    } else {
      assert x + y == y;
    }
  }

  /** A space is removed and every other character is kept, so removing
      spaces keeps the order of the other characters. */
  lemma RemoveSpacesOfChar(s: string, c: char)
    ensures RemoveSpaces(s + [c]) == RemoveSpaces(s) + (if c == ' ' then [] else [c])
  {
    RemoveSpacesAppend(s, [c]);
    assert [c][1..] == [];
  }

  // ---------------------------------------------------------------------------
  // The moving factor (update_hotp_value_b)

  /** `self.hotp_value or int(time.time() / 30)`: an explicit counter unless
      it is absent or zero, in which case the time step. */
  function Counter(hotpValue: Option<int>, now: TimeStep): (c: int)
    ensures c != now ==> hotpValue == Some(c)
    ensures c == now <==> hotpValue.None? || hotpValue.value == 0 || hotpValue.value == now
  {
    if hotpValue.Some? && hotpValue.value != 0 then hotpValue.value else now
  }

  /** `struct.pack(">q", c)`: eight bytes of two's complement, most
      significant first; out-of-range values raise. */
  function PackInt64(c: int): (r: Result<seq<byte>, OathError>)
    ensures r.Success? <==> MinInt64 <= c <= MaxInt64
    ensures r.Failure? ==> r.error == CounterOutOfRange
    ensures r.Success? ==> |r.value| == 8
  {
    if MinInt64 <= c <= MaxInt64 then
      Success(ToDigits(if c >= 0 then c else c + TwoTo64, 256, 8))
    else
      Failure(CounterOutOfRange)
  }

  /** `struct.unpack(">q", bs)[0]`. */
  function UnpackInt64(bs: seq<byte>): int
    requires |bs| == 8
  {
    var u := FromDigits(bs, 256);
    if u <= MaxInt64 then u else u - TwoTo64
  }

  lemma Pow256To8()
    ensures Pow(256, 8) == TwoTo64
  {
  }

  /** Unpacking a packed counter gives the counter back. */
  lemma PackRoundTrip(c: int)
    requires MinInt64 <= c <= MaxInt64
    ensures UnpackInt64(PackInt64(c).value) == c
  {
    var u := if c >= 0 then c else c + TwoTo64;
    Pow256To8();
    FromToDigits(u, 256, 8);
  }

  /** Every 8-byte string is the packing of exactly the value it unpacks to. */
  lemma UnpackRoundTrip(bs: seq<byte>)
    requires |bs| == 8
    ensures MinInt64 <= UnpackInt64(bs) <= MaxInt64
    ensures PackInt64(UnpackInt64(bs)) == Success(bs)
  {
    Pow256To8();
    FromDigitsBound(bs, 256);
    ToFromDigits(bs, 256);
  }

  /** Two counters pack alike only when they are equal. */
  lemma PackInjective(c: int, d: int)
    requires PackInt64(c).Success? && PackInt64(c) == PackInt64(d)
    ensures c == d
  {
    PackRoundTrip(c);
    PackRoundTrip(d);
  }

  // ---------------------------------------------------------------------------
  // Dynamic truncation (gen_code)

  /** `hmac[-1] & 0x0F`: the low nibble of the last digest byte. */
  function Offset(d: Digest): (cut: nat)
    ensures cut <= 15 && cut + 4 <= |d| - 1
  {
    (d[|d| - 1] & 0x0F) as nat
  }

  /** Octets read as numbers. */
  function Octets(s: seq<bv8>): (r: seq<nat>)
    ensures |r| == |s| && forall i :: 0 <= i < |s| ==> r[i] == s[i] as nat
  {
    seq(|s|, i requires 0 <= i < |s| => s[i] as nat)
  }

  /** `x & 0x7FFFFFFF` for a 32-bit `x`: its low 31 bits. */
  function Mask31(x: nat): nat
  {
    x % 0x8000_0000
  }

  /** The mask keeps the low 31 bits: what it clears is a multiple of 2^31,
      and a value that fits in 31 bits is kept whole. */
  lemma Mask31LowBits(x: nat)
    ensures Mask31(x) < 0x8000_0000 && (x - Mask31(x)) % 0x8000_0000 == 0
    ensures x < 0x8000_0000 ==> Mask31(x) == x
  {
    DivMod(x, 0x8000_0000);
    DivModUnique(x - Mask31(x), 0x8000_0000, x / 0x8000_0000, 0);
  }

  /** `(struct.unpack(">L", hmac[cut : cut + 4])[0] & 0x7FFFFFFF) % 1000000`. */
  function Truncate(d: Digest): (val: nat)
    ensures val < Modulus
  {
    var cut := Offset(d);
    Mask31(FromDigits(Octets(d[cut..cut + 4]), 256)) % Modulus
  }

  /** Four bytes read as a big-endian 32-bit word. */
  function Word(b0: nat, b1: nat, b2: nat, b3: nat): nat
  {
    b0 * 0x100_0000 + b1 * 0x1_0000 + b2 * 0x100 + b3
  }

  /** The truncation written out as in the sample code of section 5.4 of
      RFC 4226: the offset taken from the low nibble of byte 19, the top byte
      masked with 0x7f, the bytes shifted into place. */
  function Rfc4226BinCode(d: Digest): nat
  {
    var o := Offset(d);
    Word((d[o] & 0x7f) as nat, d[o + 1] as nat, d[o + 2] as nat, d[o + 3] as nat)
  }

  lemma TopByteMask(b: bv8)
    ensures (b & 0x7f) as nat == (b as nat) % 128
  {
  }

  /** The source's truncation is the dynamic truncation of RFC 4226. */
  lemma TruncateIsRfc4226(d: Digest)
    ensures Truncate(d) == Rfc4226BinCode(d) % Modulus
  {
    var o := Offset(d);
    BinCodeOfBytes(d);
    TruncateOfBytes(d);
    Mask31OfWord(d[o] as nat, d[o + 1] as nat, d[o + 2] as nat, d[o + 3] as nat);
  }

  /** The value that dynamic truncation reduces is a 31-bit number. */
  lemma Rfc4226BinCodeBound(d: Digest)
    ensures Rfc4226BinCode(d) < 0x8000_0000
  {
    var o := Offset(d);
    BinCodeOfBytes(d);
    Mask31OfWord(d[o] as nat, d[o + 1] as nat, d[o + 2] as nat, d[o + 3] as nat);
  }

  lemma BinCodeOfBytes(d: Digest)
    ensures var o := Offset(d);
            Rfc4226BinCode(d) == Word((d[o] as nat) % 128, d[o + 1] as nat, d[o + 2] as nat, d[o + 3] as nat)
  {
    TopByteMask(d[Offset(d)]);
  }

  lemma TruncateOfBytes(d: Digest)
    ensures var o := Offset(d);
            Truncate(d) == Mask31(Word(d[o] as nat, d[o + 1] as nat, d[o + 2] as nat, d[o + 3] as nat)) % Modulus
  {
    var o := Offset(d);
    FourBytes(Octets(d[o..o + 4]));
  }

  /** Four bytes read big-endian. */
  lemma FourBytes(s: seq<nat>)
    requires |s| == 4
    ensures FromDigits(s, 256) == Word(s[0], s[1], s[2], s[3])
  {
    assert s[..3][..2] == s[..2] && s[..2][..1] == s[..1] && s[..1][..0] == [];
    assert FromDigits(s[..1], 256) == s[0];
    assert FromDigits(s[..2], 256) == s[0] * 256 + s[1];
    assert FromDigits(s[..3], 256) == (s[0] * 256 + s[1]) * 256 + s[2];
  }

  /** Masking a 32-bit word to 31 bits clears the top bit of its first byte. */
  lemma Mask31OfWord(b0: nat, b1: nat, b2: nat, b3: nat)
    requires b0 < 256 && b1 < 256 && b2 < 256 && b3 < 256
    ensures Word(b0 % 128, b1, b2, b3) < 0x8000_0000
    ensures Mask31(Word(b0, b1, b2, b3)) == Word(b0 % 128, b1, b2, b3)
  {
    DivModUnique(Word(b0, b1, b2, b3), 0x8000_0000, b0 / 128, Word(b0 % 128, b1, b2, b3));
  }

  // ---------------------------------------------------------------------------
  // Formatting (gen_code)

  function DigitChar(v: nat): (c: char)
    requires v < 10
    ensures '0' <= c <= '9'
  {
    ('0' as int + v) as char
  }

  function DigitChars(ds: seq<nat>): (s: string)
    requires AllBelow(ds, 10)
    ensures |s| == |ds| && forall i :: 0 <= i < |s| ==> s[i] == DigitChar(ds[i])
  {
    seq(|ds|, i requires 0 <= i < |ds| => DigitChar(ds[i]))
  }

  /** Number of decimal digits of `n` without leading zeros. */
  function DecimalLength(n: nat): (len: nat)
    ensures 1 <= len && n < Pow(10, len)
    ensures len > 1 ==> Pow(10, len - 1) <= n
  {
    if n < 10 then 1
    else
      var len := 1 + DecimalLength(n / 10);
      assert n / 10 < Pow(10, len - 1);
      assert n < 10 * (n / 10) + 10;
      MulLeftMono(n / 10 + 1, Pow(10, len - 1), 10);
      assert len - 1 > 1 ==> Pow(10, len - 2) * 10 <= (n / 10) * 10 by {
        if len - 1 > 1 { MulLeftMono(Pow(10, len - 2), n / 10, 10); }
      }
      len
  }

  /** `str(n)`: the decimal digits of `n`, without leading zeros. */
  function DecimalString(n: nat): (s: string)
  {
    DigitChars(ToDigits(n, 10, DecimalLength(n)))
  }

  /** `f"{val:6d}"`: the decimal digits right-aligned in a field of six,
      filled with spaces. */
  function FormatCode(val: nat): (s: string)
  {
    var digits := DecimalString(val);
    if |digits| < CodeWidth then Repeat(' ', CodeWidth - |digits|) + digits else digits
  }

  /** A value's code is its decimal string, preceded by as many spaces as
      bring it to six characters; a longer string is kept whole. */
  lemma FormatCodeDigits(val: nat)
    ensures var s := FormatCode(val);
            && |s| == (if DecimalLength(val) < CodeWidth then CodeWidth else DecimalLength(val))
            && s[|s| - DecimalLength(val)..] == DecimalString(val)
            && forall i :: 0 <= i < |s| - DecimalLength(val) ==> s[i] == ' '
  {
    var digits := DecimalString(val);
    assert |digits| == DecimalLength(val);
    if |digits| < CodeWidth {
      var pad := Repeat(' ', CodeWidth - |digits|);
      assert FormatCode(val) == pad + digits;
      assert (pad + digits)[|pad|..] == digits;
    }
  }

  /** The six-digit, zero-filled rendering of the reference implementation
      in appendix C of RFC 4226. */
  function ZeroFilledCode(val: nat): (s: string)
  {
    DigitChars(ToDigits(val, 10, CodeWidth))
  }

  /** `s` with each space read as a `0`. */
  function SpacesAsZeros(s: string): (r: string)
  {
    seq(|s|, i requires 0 <= i < |s| => if s[i] == ' ' then '0' else s[i])
  }

  /** Widening a value's digits to more places only adds leading zeros. */
  lemma {:induction false} ToDigitsWiden(x: nat, len: nat, extra: nat)
    requires x < Pow(10, len)
    ensures ToDigits(x, 10, len + extra) == Zeros(extra) + ToDigits(x, 10, len)
    decreases len, extra
  {
    if len == 0 {
      if extra > 0 {
        ToDigitsWiden(0, 0, extra - 1);
        assert Zeros(extra) == Zeros(extra - 1) + [0];
      }
    } else {
      DivBound(x, 10, Pow(10, len - 1));
      ToDigitsWiden(x / 10, len - 1, extra);
      assert ToDigits(x, 10, len) == ToDigits(x / 10, 10, len - 1) + [x % 10];
      assert ToDigits(x, 10, len + extra) == ToDigits(x / 10, 10, len - 1 + extra) + [x % 10];
    }
  }

  /** A code is six characters: spaces, then the decimal digits of `val`
      without leading zeros; read with its spaces as zeros it is the
      zero-filled six-digit rendering of RFC 4226. */
  lemma FormatCodeShape(val: nat)
    requires val < Modulus
    ensures |FormatCode(val)| == CodeWidth
    ensures SpacesAsZeros(FormatCode(val)) == ZeroFilledCode(val)
    ensures FromDigits(ToDigits(val, 10, CodeWidth), 10) == val
    ensures forall i :: 0 <= i < CodeWidth ==> FormatCode(val)[i] == ' ' || '0' <= FormatCode(val)[i] <= '9'
    ensures FormatCode(val)[CodeWidth - 1] != ' '
  {
    FormatCodeLayout(val);
    FormatCodeAsZeros(val);
    assert Pow(10, CodeWidth) == Modulus;
    FromToDigits(val, 10, CodeWidth);
  }

  /** A code below the modulus has at most six digits, preceded by spaces. */
  lemma FormatCodeLayout(val: nat)
    requires val < Modulus
    ensures DecimalLength(val) <= CodeWidth
    ensures FormatCode(val)
         == Repeat(' ', CodeWidth - DecimalLength(val)) + DigitChars(ToDigits(val, 10, DecimalLength(val)))
  {
    var len := DecimalLength(val);
    assert Pow(10, 6) == Modulus;
    PowMono(10, 6, len - 1);
  }

  lemma FormatCodeAsZeros(val: nat)
    requires val < Modulus
    ensures SpacesAsZeros(FormatCode(val)) == ZeroFilledCode(val)
  {
    FormatCodeLayout(val);
    var len := DecimalLength(val);
    var digits := ToDigits(val, 10, len);
    ToDigitsWiden(val, len, CodeWidth - len);
    var s := FormatCode(val);
    var z := ToDigits(val, 10, CodeWidth);
    assert z == Zeros(CodeWidth - len) + digits;
    assert SpacesAsZeros(s) == DigitChars(z);
  }

  lemma {:induction false} PowMono(b: nat, m: nat, n: nat)
    requires b >= 1
    ensures m <= n ==> Pow(b, m) <= Pow(b, n)
    decreases n
  {
    if m < n {
      PowMono(b, m, n - 1);
      MulLeftMono(1, b, Pow(b, n - 1));
    }
  }

  /** The code differs from the zero-filled rendering of RFC 4226 exactly
      when `val` has fewer than six digits: it is filled with spaces. */
  lemma FormatCodeIsZeroFilledIff(val: nat)
    requires val < Modulus
    ensures FormatCode(val) == ZeroFilledCode(val) <==> val >= 100_000
  {
    FormatCodeShape(val);
    var len := DecimalLength(val);
    assert Pow(10, 5) == 100_000;
    PowMono(10, len, 5);
    if val >= 100_000 {
      if len < CodeWidth {
        assert false;
      }
      assert FormatCode(val) == SpacesAsZeros(FormatCode(val));
    } else {
      if len >= CodeWidth {
        assert false;
      }
      assert FormatCode(val)[0] == ' ';
      assert ZeroFilledCode(val)[0] != ' ';
    }
  }

  // ---------------------------------------------------------------------------
  // The whole generator as a function of its inputs

  /** The code for decoded key bytes and packed counter bytes. */
  function Hotp(mac: Mac, keyB: seq<byte>, counterB: seq<byte>): (code: string)
    ensures |code| == CodeWidth
    ensures SpacesAsZeros(code) == ZeroFilledCode(Truncate(mac(keyB, counterB)))
  {
    FormatCodeShape(Truncate(mac(keyB, counterB)));
    FormatCode(Truncate(mac(keyB, counterB)))
  }

  /** `OATH(key, hotp_value, size).gen_code()` at time step `now`. */
  function Code(mac: Mac, key: string, hotpValue: Option<int>, size: int, now: TimeStep)
    : (r: Result<string, OathError>)
    ensures r.Success? <==> KeyBytes(key, size).Success? && PackInt64(Counter(hotpValue, now)).Success?
    ensures KeyBytes(key, size).Failure? ==> r == Failure(KeyBytes(key, size).error)
    ensures KeyBytes(key, size).Success? && r.Failure? ==> r.error == CounterOutOfRange
    ensures r.Success? ==> |r.value| == CodeWidth
  {
    match KeyBytes(key, size)
    case Failure(e) => Failure(e)
    case Success(keyB) =>
      match PackInt64(Counter(hotpValue, now))
      case Failure(e) => Failure(e)
      case Success(counterB) => Success(Hotp(mac, keyB, counterB))
  }

  /** A counter that packs for every time step: absent, zero, or a signed
      64-bit value. */
  predicate CounterInRange(hotpValue: Option<int>)
  {
    hotpValue.None? || hotpValue.value == 0 || MinInt64 <= hotpValue.value <= MaxInt64
  }

  /** Every generated code is six characters of spaces and digits whose
      spaces read as zeros give the truncated value, zero-filled. */
  lemma CodeShape(mac: Mac, key: string, hotpValue: Option<int>, size: int, now: TimeStep)
    requires Code(mac, key, hotpValue, size, now).Success?
    ensures var code := Code(mac, key, hotpValue, size, now).value;
            var keyB := KeyBytes(key, size).value;
            var counterB := PackInt64(Counter(hotpValue, now)).value;
            |code| == CodeWidth
            && SpacesAsZeros(code) == ZeroFilledCode(Truncate(mac(keyB, counterB)))
  {
    var keyB := KeyBytes(key, size).value;
    var counterB := PackInt64(Counter(hotpValue, now)).value;
    FormatCodeShape(Truncate(mac(keyB, counterB)));
  }

  /** With a non-zero explicit counter the clock plays no part: the code is
      the same at every time step (HOTP). */
  lemma ExplicitCounterIgnoresClock(mac: Mac, key: string, c: int, size: int, t1: TimeStep, t2: TimeStep)
    requires c != 0
    ensures Code(mac, key, Some(c), size, t1) == Code(mac, key, Some(c), size, t2)
  {
    assert Counter(Some(c), t1) == Counter(Some(c), t2) == c;
  }

  /** An explicit counter of 0 is the same as no counter: the time step is used. */
  lemma ZeroCounterUsesClock(mac: Mac, key: string, size: int, now: TimeStep)
    ensures Code(mac, key, Some(0), size, now) == Code(mac, key, None, size, now)
    ensures Counter(Some(0), now) == now
  {
  }

  /** Without an explicit counter two calls in the same time step give the
      same code, and the counter bytes are those of the time step (TOTP). */
  lemma TimeStepDeterminesCode(mac: Mac, key: string, size: int, now: TimeStep)
    requires KeyBytes(key, size).Success?
    ensures Code(mac, key, None, size, now).Success?
    ensures UnpackInt64(PackInt64(Counter(None, now)).value) == now
  {
    PackRoundTrip(now);
  }

  /** The symbols of an encoded secret, padded to the default block
      size, give the encoding back. */
  lemma EncodedKeyPadding(secret: seq<byte>)
    ensures var e := Base32.Encode(secret);
            var body := Base32.StripPad(e);
            body + PadChars(PaddingSize(|body|, DefaultBlockSize)) == e
  {
    var e := Base32.Encode(secret);
    Base32.EncodeShape(secret);
    Base32.PadCountValues(|secret|);
    var body := Base32.StripPad(e);
    var p := Base32.PadCount(|secret|);
    assert e == body + Repeat('=', p);
    PaddingSizeOfShortfall(|body|, p);
  }

  /** A key pasted without its trailing `=`, as authenticator apps show it,
      is padded back and decodes to the secret it encodes, in either case. */
  lemma UnpaddedKeyRoundTrip(secret: seq<byte>, key: string)
    requires Base32.Upper(key) == Base32.StripPad(Base32.Encode(secret))
    ensures KeyBytes(key, DefaultBlockSize) == Success(secret)
  {
    var e := Base32.Encode(secret);
    var body := Base32.StripPad(e);
    EncodedKeyPadding(secret);
    Base32.EncodeShape(secret);
    Base32.RoundTrip(secret);
    var padding := PadChars(PaddingSize(|key|, DefaultBlockSize));
    assert body + padding == e;
    assert Base32.Upper(key + padding) == e;
    Base32.CaseInsensitive(key + padding, e);
  }

  /** With the default block the padding is the one count below 8 that
      aligns the key. */
  lemma PaddingSizeOfShortfall(len: nat, p: nat)
    requires p < 8 && Aligned(len, p, 8)
    ensures PaddingSize(len, 8) == p
  {
    var n := PaddingSize(len, 8);
    if n != p {
      assert false;
    }
  }

  /** Keys that differ only in the case of their letters decode alike. */
  lemma KeyBytesCaseInsensitive(key1: string, key2: string, size: int)
    requires Base32.Upper(key1) == Base32.Upper(key2)
    ensures KeyBytes(key1, size) == KeyBytes(key2, size)
  {
    if size != 0 {
      var pad := PadChars(PaddingSize(|key1|, size));
      assert Base32.Upper(key1 + pad) == Base32.Upper(key2 + pad);
      Base32.CaseInsensitive(key1 + pad, key2 + pad);
    }
  }

  /** Because `clean_key` discards its result, a key with a space never
      decodes: construction raises. */
  lemma KeyWithSpaceRejected(key: string, size: int, i: nat)
    requires i < |key| && key[i] == ' '
    ensures KeyBytes(key, size).Failure?
  {
    if size != 0 {
      var padded := key + PadChars(PaddingSize(|key|, size));
      assert padded[i] == ' ';
      Base32.SpaceRejected(padded, i);
    }
  }

  // ---------------------------------------------------------------------------
  // The generator object

  /** class `OATH`. */
  class Oath {
    var size: int
    var key: string
    var keyB: Option<seq<byte>>
    var hotpValue: Option<int>
    var hotpValueB: Option<seq<byte>>

    /** A fully constructed generator: the key decoded, the counter packed,
        and a counter that packs at every time step. */
    ghost predicate Valid()
      reads this
    {
      && KeyBytes(key, size).Success?
      && keyB == Some(KeyBytes(key, size).value)
      && CounterInRange(hotpValue)
      && hotpValueB.Some? && |hotpValueB.value| == 8
    }

    /** The field initialisation of `__init__`, before the key is decoded. */
    constructor Init(key: string, hotpValue: Option<int>, size: int)
      ensures this.size == size && this.key == key && this.hotpValue == hotpValue
      ensures keyB == None && hotpValueB == None
    {
      this.size := size;
      this.key := key;
      this.keyB := None;
      this.hotpValue := hotpValue;
      this.hotpValueB := None;
    }

    /** `OATH(key, hotp_value, size)`: initialise, clean and pad the key,
        pack the counter; an exception from any step discards the object. */
    static method Create(key: string, hotpValue: Option<int>, size: int, now: TimeStep)
      returns (r: Result<Oath, OathError>)
      ensures r.Success? <==> KeyBytes(key, size).Success? && PackInt64(Counter(hotpValue, now)).Success?
      ensures r.Failure? && KeyBytes(key, size).Failure? ==> r.error == KeyBytes(key, size).error
      ensures r.Failure? && KeyBytes(key, size).Success? ==> r.error == CounterOutOfRange
      ensures r.Success? ==> fresh(r.value) && r.value.Valid()
      ensures r.Success? ==> r.value.key == key && r.value.hotpValue == hotpValue && r.value.size == size
      ensures r.Success? ==> r.value.hotpValueB == Some(PackInt64(Counter(hotpValue, now)).value)
    {
      var oath := new Oath.Init(key, hotpValue, size);
      oath.CleanKey();
      var padded := oath.PadKey();
      if padded.Fail? {
        return Failure(padded.error);
      }
      var updated := oath.UpdateHotpValueB(now);
      if updated.Fail? {
        return Failure(updated.error);
      }
      return Success(oath);
    }

    /** `self.key.replace(" ", "")` computed and thrown away: the key keeps
        its spaces. */
    method CleanKey()
      ensures unchanged(this)
    {
      var cleaned := RemoveSpaces(key);
    }

    /** Pads the key with `=` to a multiple of `size` and decodes it into `key_b`. */
    method PadKey() returns (r: Outcome<OathError>)
      modifies this`keyB
      ensures r.Pass? <==> KeyBytes(key, size).Success?
      ensures r.Pass? ==> keyB == Some(KeyBytes(key, size).value)
      ensures r.Fail? ==> keyB == old(keyB) && r.error == KeyBytes(key, size).error
    {
      if size == 0 {
        return Fail(ZeroBlockSize);
      }
      var paddingSize := PaddingSize(|key|, size);
      var padding := PadChars(paddingSize);
      var decoded := Base32.Decode(key + padding);
      if decoded.Failure? {
        return Fail(InvalidKey(decoded.error));
      }
      keyB := Some(decoded.value);
      return Pass;
    }

    /** Packs the current counter and stores it when it differs from the
        stored bytes or none are stored: afterwards the stored bytes are the
        packed counter. */
    method UpdateHotpValueB(now: TimeStep) returns (r: Outcome<OathError>)
      modifies this`hotpValueB
      ensures r.Pass? <==> PackInt64(Counter(hotpValue, now)).Success?
      ensures r.Pass? ==> hotpValueB == Some(PackInt64(Counter(hotpValue, now)).value)
      ensures r.Fail? ==> hotpValueB == old(hotpValueB) && r.error == CounterOutOfRange
    {
      var packed := PackInt64(Counter(hotpValue, now));
      if packed.Failure? {
        return Fail(packed.error);
      }
      var tmp := packed.value;
      if hotpValueB != Some(tmp) || hotpValueB.None? || hotpValueB.value == [] {
        hotpValueB := Some(tmp);
      }
      return Pass;
    }

    /** HMAC-SHA1 of the stored counter bytes under the decoded key. */
    function Hmac(mac: Mac): (d: Digest)
      reads this
      requires keyB.Some? && hotpValueB.Some?
      ensures Valid() ==> d == mac(KeyBytes(key, size).value, hotpValueB.value)
    {
      mac(keyB.value, hotpValueB.value)
    }

    /** Refreshes the counter bytes, then truncates and formats the HMAC. */
    method GenCode(mac: Mac, now: TimeStep) returns (code: string)
      requires Valid()
      modifies this`hotpValueB
      ensures Valid()
      ensures hotpValueB == Some(PackInt64(Counter(hotpValue, now)).value)
      ensures Code(mac, key, hotpValue, size, now) == Success(code)
      ensures |code| == CodeWidth
    {
      var updated := UpdateHotpValueB(now);
      var hmac := Hmac(mac);
      var cut := Offset(hmac);
      var val := Mask31(FromDigits(Octets(hmac[cut..cut + 4]), 256)) % Modulus;
      code := FormatCode(val);
      assert val == Truncate(hmac);
      assert code == Hotp(mac, keyB.value, hotpValueB.value);
    }
  }
}
