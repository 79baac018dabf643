/**
 * Base32 as defined in section 6 of RFC 4648, decoded the way Python's
 * `base64.b32decode(s, casefold=True)` does it: the input must be ASCII and a
 * multiple of 8 symbols long, lower-case letters are folded to upper case,
 * trailing `=` are counted and stripped, the remaining symbols are read eight
 * at a time into 40-bit quanta, and a final partial quantum keeps only as many
 * bytes as its padding allows. Bits left over in the last symbol are ignored.
 *
 * `Encode` is the encoder of the same section, used as the reference that the
 * decoder inverts.
 */
module Base32 {
  import opened Wrappers
  import opened Digits
  import opened Strings

  /** The three ways the decoder refuses its input. */
  datatype DecodeError =
    | NotAscii          // a str argument holding a non-ASCII character
    | IncorrectPadding  // length not a multiple of 8, or a pad run of 2, 5, 7 or 8+
    | NonBase32Digit    // a character outside the alphabet before the pad run

  const Alphabet: string := "ABCDEFGHIJKLMNOPQRSTUVWXYZ234567"

  /** Value of one symbol of the (upper-case) alphabet, if it is one. */
  function SymbolValue(c: char): (v: Option<nat>)
    ensures v.Some? ==> v.value < 32
  {
    if 'A' <= c <= 'Z' then Some(c as nat - 'A' as nat)
    else if '2' <= c <= '7' then Some(c as nat - '2' as nat + 26)
    else None
  }

  predicate IsAscii(s: string)
  {
    forall i :: 0 <= i < |s| ==> s[i] as nat < 128
  }

  /** ASCII upper-casing: `a`..`z` become `A`..`Z`, nothing else changes. */
  function UpperChar(c: char): char
  {
    if 'a' <= c <= 'z' then (c as nat - 'a' as nat + 'A' as nat) as char else c
  }

  function Upper(s: string): (u: string)
    ensures |u| == |s| && forall i :: 0 <= i < |s| ==> u[i] == UpperChar(s[i])
  {
    seq(|s|, i requires 0 <= i < |s| => UpperChar(s[i]))
  }

  /** `s` without its trailing run of `=`. */
  function StripPad(s: string): (body: string)
    ensures |body| <= |s| && body == s[..|body|]
    ensures forall i :: |body| <= i < |s| ==> s[i] == '='
    ensures body == [] || body[|body| - 1] != '='
  {
    if s != [] && s[|s| - 1] == '=' then StripPad(s[..|s| - 1]) else s
  }

  /** The symbol values of `s`, or None when some character is not a symbol. */
  function SymbolValues(s: string): (r: Option<seq<nat>>)
    ensures r.Some? ==> |r.value| == |s| && AllBelow(r.value, 32)
    decreases |s|
  {
    if s == [] then Some([])
    else
      match SymbolValues(s[..|s| - 1])
      case None => None
      case Some(init) =>
        match SymbolValue(s[|s| - 1])
        case None => None
        case Some(v) => Some(init + [v])
  }

  /** Every character of `s` is a symbol exactly when `SymbolValues`
      succeeds, and then it yields the value of each character in turn. */
  lemma {:induction false} SymbolValuesChars(s: string)
    ensures SymbolValues(s).Some? <==> forall i :: 0 <= i < |s| ==> SymbolValue(s[i]).Some?
    ensures SymbolValues(s).Some? ==>
              forall i :: 0 <= i < |s| ==> SymbolValues(s).value[i] == SymbolValue(s[i]).value
    decreases |s|
  {
    if s != [] {
      var init := s[..|s| - 1];
      SymbolValuesChars(init);
      assert forall i :: 0 <= i < |init| ==> init[i] == s[i];
    }
  }

  /** The 5 bytes of one complete quantum of 8 symbols. */
  function DecodeQuantum(q: seq<nat>): (bs: seq<byte>)
    requires |q| == 8 && AllBelow(q, 32)
    ensures |bs| == 5
  {
    ToDigits(FromDigits(q, 32), 256, 5)
  }

  /** The bytes of a final quantum of `|q|` symbols followed by `8 - |q|` pad
      characters: the quantum is shifted left over the pad and only its first
      `(43 - 5 * pad) / 8` bytes are kept. */
  function DecodePartial(q: seq<nat>): (bs: seq<byte>)
    requires 0 < |q| < 8 && AllBelow(q, 32)
    ensures |bs| == (43 - 5 * (8 - |q|)) / 8
  {
    var pad := 8 - |q|;
    ToDigits(FromDigits(q, 32) * Pow(32, pad), 256, 5)[..(43 - 5 * pad) / 8]
  }

  /** Decodes the symbol values quantum by quantum. */
  function DecodeQuanta(vals: seq<nat>): seq<byte>
    requires AllBelow(vals, 32)
    decreases |vals|
  {
    if |vals| >= 8 then DecodeQuantum(vals[..8]) + DecodeQuanta(vals[8..])
    else if vals == [] then []
    else DecodePartial(vals)
  }

  /** `base64.b32decode(s, casefold=True)`. */
  function Decode(s: string): (r: Result<seq<byte>, DecodeError>)
    ensures !IsAscii(s) ==> r == Failure(NotAscii)
    ensures IsAscii(s) && |s| % 8 != 0 ==> r == Failure(IncorrectPadding)
    ensures r.Success? ==> IsAscii(s) && |s| % 8 == 0
  {
    if !IsAscii(s) then Failure(NotAscii)
    else if |s| % 8 != 0 then Failure(IncorrectPadding)
    else
      var u := Upper(s);
      var body := StripPad(u);
      var padChars := |u| - |body|;
      match SymbolValues(body)
      case None => Failure(NonBase32Digit)
      case Some(vals) =>
        if padChars !in {0, 1, 3, 4, 6} then Failure(IncorrectPadding)
        else Success(DecodeQuanta(vals))
  }

  // ---------------------------------------------------------------------------
  // The encoder of section 6 of RFC 4648, as the reference for the decoder.

  /** Number of symbols that carry the bits of a final group of `n` bytes. */
  function SymbolCount(n: nat): (k: nat)
    requires n < 5
    ensures k <= 7 && (n > 0 ==> k > 0)
  {
    [0, 2, 4, 5, 7][n]
  }

  /** Number of `=` that complete the last quantum of an `n`-byte input. */
  function PadCount(n: nat): (p: nat)
  {
    if n % 5 == 0 then 0 else 8 - SymbolCount(n % 5)
  }

  function Symbols(vals: seq<nat>): (s: string)
    requires AllBelow(vals, 32)
    ensures |s| == |vals| && forall i :: 0 <= i < |s| ==> s[i] == Alphabet[vals[i]]
  {
    seq(|vals|, i requires 0 <= i < |vals| => Alphabet[vals[i]])
  }

  /** Symbol values of the encoding of `bs`, without padding. */
  function EncodeValues(bs: seq<byte>): (vals: seq<nat>)
    ensures AllBelow(vals, 32)
    decreases |bs|
  {
    if |bs| >= 5 then
      ToDigits(FromDigits(bs[..5], 256), 32, 8) + EncodeValues(bs[5..])
    else if bs == [] then []
    else
      ToDigits(FromDigits(bs + Zeros(5 - |bs|), 256), 32, 8)[..SymbolCount(|bs|)]
  }

  /** `base64.b32encode`: upper-case symbols, padded with `=` to a multiple of 8. */
  function Encode(bs: seq<byte>): string
  {
    Symbols(EncodeValues(bs)) + Repeat('=', PadCount(|bs|))
  }

  // ---------------------------------------------------------------------------
  // Properties

  lemma {:induction false} EncodeValuesLength(bs: seq<byte>)
    ensures |EncodeValues(bs)| == 8 * (|bs| / 5) + (if |bs| % 5 == 0 then 0 else SymbolCount(|bs| % 5))
    decreases |bs|
  {
    var n := |bs|;
    if n >= 5 {
      EncodeValuesLength(bs[5..]);
      assert (n - 5) / 5 == n / 5 - 1 && (n - 5) % 5 == n % 5;
    } else {
      assert n / 5 == 0 && n % 5 == n;
    }
  }

  /** An encoding is a whole number of quanta of ASCII upper-case symbols and pads. */
  lemma EncodeShape(bs: seq<byte>)
    ensures |Encode(bs)| % 8 == 0
    ensures IsAscii(Encode(bs)) && Upper(Encode(bs)) == Encode(bs)
    ensures StripPad(Encode(bs)) == Symbols(EncodeValues(bs))
  {
    var vals := EncodeValues(bs);
    var body := Symbols(vals);
    var e := Encode(bs);
    var n, m := |bs|, |bs| / 5;
    EncodeValuesLength(bs);
    if n % 5 == 0 {
      assert |e| == 8 * m;
      DivModUnique(|e|, 8, m, 0);
    } else {
      assert |e| == 8 * m + 8;
      DivModUnique(|e|, 8, m + 1, 0);
    }
    forall i | 0 <= i < |e|
      ensures e[i] as nat < 128 && UpperChar(e[i]) == e[i]
    {
      if i < |body| {
        AlphabetIndex(vals[i]);
      }
    }
    assert Upper(e) == e;
    if body != [] {
      AlphabetIndex(vals[|body| - 1]);
    }
    StripPadOfPadded(body, PadCount(n));
  }

  lemma PadCountValues(n: nat)
    ensures PadCount(n) in {0, 1, 3, 4, 6}
  {
    var r := n % 5;
    assert r == 0 || r == 1 || r == 2 || r == 3 || r == 4;
  }

  lemma {:induction false} StripPadOfPadded(body: string, n: nat)
    requires body == [] || body[|body| - 1] in Alphabet
    ensures StripPad(body + Repeat('=', n)) == body
    decreases n
  {
    if n == 0 {
      assert body + Repeat('=', 0) == body;
    } else {
      assert (body + Repeat('=', n))[..|body| + n - 1] == body + Repeat('=', n - 1);
      StripPadOfPadded(body, n - 1);
    }
  }

  lemma SymbolValuesOfSymbols(vals: seq<nat>)
    requires AllBelow(vals, 32)
    ensures SymbolValues(Symbols(vals)) == Some(vals)
  {
    var s := Symbols(vals);
    forall i | 0 <= i < |s|
      ensures SymbolValue(s[i]) == Some(vals[i])
    {
      AlphabetIndex(vals[i]);
    }
    SymbolValuesChars(s);
    assert SymbolValues(s).value == vals;
  }

  lemma AlphabetIndex(v: nat)
    requires v < 32
    ensures SymbolValue(Alphabet[v]) == Some(v)
  {
  }

  lemma Pow32Pow256()
    ensures Pow(256, 5) == Pow(32, 8) == 1099511627776
    ensures Pow(32, 6) == 1073741824 && Pow(256, 4) == 4 * Pow(32, 6)
    ensures Pow(32, 4) == 1048576 && Pow(256, 3) == 16 * Pow(32, 4)
    ensures Pow(32, 3) == 32768 && Pow(256, 2) == 2 * Pow(32, 3)
    ensures Pow(32, 1) == 32 && Pow(256, 1) == 8 * Pow(32, 1)
  {
  }

  /** A complete quantum decodes to the five bytes it encodes. */
  lemma QuantumRoundTrip(g: seq<byte>)
    requires |g| == 5
    ensures DecodeQuantum(ToDigits(FromDigits(g, 256), 32, 8)) == g
  {
    var x := FromDigits(g, 256);
    FromDigitsBound(g, 256);
    Pow32Pow256();
    FromToDigits(x, 32, 8);
    ToFromDigits(g, 256);
  }

  /** The decoder keeps exactly `n` bytes of a final quantum holding `n` bytes. */
  lemma PartialLength(n: nat)
    requires 0 < n < 5
    ensures (43 - 5 * (8 - SymbolCount(n))) / 8 == n
  {
  }

  /** The zero bytes appended to a final group of `n` bytes cover the
      `8 - SymbolCount(n)` symbols that the encoder drops. */
  lemma PartialShift(f: nat, n: nat) returns (high: nat)
    requires 0 < n < 5
    ensures f * Pow(256, 5 - n) == high * Pow(32, 8 - SymbolCount(n))
  {
    Pow32Pow256();
    high := f * [0, 4, 16, 2, 8][n];
  }

  /** The first `SymbolCount(n)` symbols of a 40-bit quantum whose other
      symbols are zero, shifted back into place, give the quantum; so
      decoding them as a final quantum gives back its first `n` bytes. */
  lemma LeadingSymbols(x: nat, n: nat, high: nat, q: seq<nat>)
    requires 0 < n < 5 && x < Pow(32, 8)
    requires x == high * Pow(32, 8 - SymbolCount(n))
    requires q == ToDigits(x, 32, 8)[..SymbolCount(n)]
    ensures FromDigits(q, 32) * Pow(32, 8 - SymbolCount(n)) == x
    ensures DecodePartial(q) == ToDigits(x, 256, 5)[..n]
  {
    var k := SymbolCount(n);
    var full := ToDigits(x, 32, 8);
    var low := full[k..];
    assert full[..k] == q && |low| == 8 - k && AllBelow(low, 32);
    FromToDigits(x, 32, 8);
    FromDigitsSplit(full, 32, k);
    FromDigitsBound(low, 32);
    ExactQuotient(x, Pow(32, 8 - k), high, FromDigits(q, 32), FromDigits(low, 32));
    PartialLength(n);
  }

  /** A multiple of `p` written as `hi * p + lo` with `lo < p` has `lo == 0`. */
  lemma ExactQuotient(x: nat, p: nat, high: nat, hi: nat, lo: nat)
    requires x == high * p && x == hi * p + lo && lo < p
    ensures hi * p == x
  {
    DivModUnique(x, p, high, 0);
    DivModUnique(x, p, hi, lo);
  }

  /** The value of a final group of `n` bytes padded with zero bytes is a
      40-bit quantum whose dropped symbols are zero. */
  lemma PaddedGroup(g: seq<byte>, x: nat) returns (high: nat)
    requires 0 < |g| < 5 && x == FromDigits(g + Zeros(5 - |g|), 256)
    ensures x < Pow(32, 8)
    ensures x == high * Pow(32, 8 - SymbolCount(|g|))
  {
    var padded: seq<nat> := g + Zeros(5 - |g|);
    assert AllBelow(padded, 256);
    FromDigitsBound(padded, 256);
    Pow32Pow256();
    AppendZeros(g, 256, 5 - |g|);
    high := PartialShift(FromDigits(g, 256), |g|);
  }

  /** A final group of 1 to 4 bytes decodes back from its symbols: the symbols
      dropped by the encoder hold only the zero bits it appended. */
  lemma PartialRoundTrip(g: seq<byte>, x: nat, q: seq<nat>)
    requires 0 < |g| < 5 && x == FromDigits(g + Zeros(5 - |g|), 256)
    requires q == ToDigits(x, 32, 8)[..SymbolCount(|g|)]
    ensures DecodePartial(q) == g
  {
    var high := PaddedGroup(g, x);
    LeadingSymbols(x, |g|, high, q);
    PaddedBytes(g, x);
  }

  lemma PaddedBytes(g: seq<byte>, x: nat)
    requires |g| < 5 && x == FromDigits(g + Zeros(5 - |g|), 256)
    ensures ToDigits(x, 256, 5)[..|g|] == g
  {
    var padded: seq<nat> := g + Zeros(5 - |g|);
    assert AllBelow(padded, 256);
    ToFromDigits(padded, 256);
    assert padded[..|g|] == g;
  }

  lemma {:induction false} QuantaRoundTrip(bs: seq<byte>)
    ensures DecodeQuanta(EncodeValues(bs)) == bs
    decreases |bs|
  {
    if |bs| >= 5 {
      var head := ToDigits(FromDigits(bs[..5], 256), 32, 8);
      var rest := EncodeValues(bs[5..]);
      var vals := head + rest;
      assert vals[..8] == head && vals[8..] == rest;
      QuantumRoundTrip(bs[..5]);
      QuantaRoundTrip(bs[5..]);
      assert bs == bs[..5] + bs[5..];
    } else if bs != [] {
      PartialRoundTrip(bs, FromDigits(bs + Zeros(5 - |bs|), 256), EncodeValues(bs));
    }
  }

  /** Decoding inverts encoding: every byte string comes back from its Base32 text. */
  lemma RoundTrip(bs: seq<byte>)
    ensures Decode(Encode(bs)) == Success(bs)
  {
    EncodeShape(bs);
    PadCountValues(|bs|);
    SymbolValuesOfSymbols(EncodeValues(bs));
    QuantaRoundTrip(bs);
  }

  /** Letters are decoded alike in either case: two strings that agree once
      upper-cased decode to the same result, error or bytes. */
  lemma CaseInsensitive(s: string, t: string)
    requires Upper(s) == Upper(t)
    ensures Decode(s) == Decode(t)
  {
    assert |s| == |t|;
    forall i | 0 <= i < |s|
      ensures s[i] as nat < 128 <==> t[i] as nat < 128
    {
      assert UpperChar(s[i]) == UpperChar(t[i]);
    }
  }

  /** A space is never decoded: a string holding one is refused. */
  lemma SpaceRejected(s: string, i: nat)
    requires i < |s| && s[i] == ' '
    ensures Decode(s).Failure?
  {
    if IsAscii(s) && |s| % 8 == 0 {
      var u := Upper(s);
      var body := StripPad(u);
      assert u[i] == ' ';
      assert i < |body|;
      SymbolValuesChars(body);
      assert SymbolValue(body[i]).None?;
    }
  }

  // ---------------------------------------------------------------------------
  // What a decode says about its input

  /** Why `Decode` refuses its input, cause by cause, and when it accepts it:
      an ASCII text of whole quanta whose characters before the `=` run are
      all symbols and whose `=` run is 0, 1, 3, 4 or 6 long. */
  lemma DecodeCauses(s: string)
    ensures Decode(s) == Failure(NonBase32Digit) <==>
              IsAscii(s) && |s| % 8 == 0
              && exists i :: 0 <= i < |StripPad(Upper(s))| && SymbolValue(StripPad(Upper(s))[i]).None?
    ensures Decode(s) == Failure(IncorrectPadding) <==>
              IsAscii(s)
              && (|s| % 8 != 0
                  || ((forall i :: 0 <= i < |StripPad(Upper(s))| ==> SymbolValue(StripPad(Upper(s))[i]).Some?)
                      && |s| - |StripPad(Upper(s))| !in {0, 1, 3, 4, 6}))
    ensures Decode(s).Success? <==>
              IsAscii(s) && |s| % 8 == 0
              && (forall i :: 0 <= i < |StripPad(Upper(s))| ==> SymbolValue(StripPad(Upper(s))[i]).Some?)
              && |s| - |StripPad(Upper(s))| in {0, 1, 3, 4, 6}
  {
    SymbolValuesChars(StripPad(Upper(s)));
  }

  /** The symbol a value came from. */
  lemma SymbolChar(c: char)
    requires SymbolValue(c).Some?
    ensures Alphabet[SymbolValue(c).value] == c
  {
  }

  /** The sizes that go with a final quantum of `k` symbols: it decodes to
      `n` bytes, `n` bytes encode to `k` symbols, and the `5 - n` bytes the
      decoder drops lie within the low `9 - k` symbols. */
  lemma PartialSizes(k: nat) returns (c: nat)
    requires k == 2 || k == 4 || k == 5 || k == 7
    ensures var n := (43 - 5 * (8 - k)) / 8;
            0 < n < 5 && SymbolCount(n) == k && c > 0 && Pow(256, 5 - n) * c == Pow(32, 9 - k)
  {
    Pow32Pow256();
    c := if k == 2 then 8 else if k == 4 then 2 else if k == 5 then 16 else 4;
  }

  /** A final quantum of `k` symbols shifted over its `8 - k` pad symbols:
      its leading `k` symbols are the quantum. */
  lemma PartialQuantum(q: seq<nat>) returns (x: nat)
    requires 0 < |q| < 8 && AllBelow(q, 32)
    ensures x == FromDigits(q, 32) * Pow(32, 8 - |q|) && x < Pow(32, 8)
    ensures ToDigits(x, 32, 8)[..|q|] == q
  {
    var f, p := FromDigits(q, 32), Pow(32, 8 - |q|);
    x := f * p;
    FromDigitsBound(q, 32);
    PowAdd(32, |q|, 8 - |q|);
    MulLeftMono(f + 1, Pow(32, |q|), p);
    TopDigits(x, 32, 8, |q|);
    DivModUnique(x, p, f, 0);
    ToFromDigits(q, 32);
  }

  /** Keeping the first `n` of the five bytes of `x` and zero-filling the
      rest clears the low `5 - n` bytes of `x`. */
  lemma KeptBytes(x: nat, n: nat)
    requires n <= 5 && x < Pow(256, 5)
    ensures FromDigits(ToDigits(x, 256, 5)[..n] + Zeros(5 - n), 256) == x - x % Pow(256, 5 - n)
    ensures x % Pow(256, 5 - n) <= x
  {
    var full := ToDigits(x, 256, 5);
    var hi, lo := full[..n], full[n..];
    assert AllBelow(lo, 256) && |lo| == 5 - n;
    FromToDigits(x, 256, 5);
    FromDigitsSplit(full, 256, n);
    FromDigitsBound(lo, 256);
    DivModUnique(x, Pow(256, 5 - n), FromDigits(hi, 256), FromDigits(lo, 256));
    AppendZeros(hi, 256, 5 - n);
  }

  /** Clearing the low `a`-part of `x` leaves its quotient by a multiple of
      `a` unchanged. */
  lemma ClearedLow(x: nat, a: nat, c: nat)
    requires a > 0 && c > 0 && x % a <= x
    ensures (x - x % a) / (a * c) == x / (a * c)
  {
    var p := a * c;
    ModOfMultiple(x, a, c);
    DivMod(x, p);
    DivModUnique(x - x % a, p, x / p, x % p - x % a);
  }

  /** Clearing the low `5 - n` bytes of a 40-bit `x` keeps its leading
      `k - 1` symbols when those bytes lie within its low `9 - k` symbols. */
  lemma ClearedPrefix(x: nat, n: nat, k: nat, c: nat)
    requires 0 < k <= 8 && n <= 5 && c > 0
    requires x < Pow(32, 8) && Pow(256, 5 - n) * c == Pow(32, 9 - k)
    ensures x % Pow(256, 5 - n) <= x
    ensures ToDigits(x - x % Pow(256, 5 - n), 32, 8)[..k - 1] == ToDigits(x, 32, 8)[..k - 1]
  {
    var a := Pow(256, 5 - n);
    DivMod(x, a);
    MulLeftMono(0, x / a, a);
    ClearedLow(x, a, c);
    TopDigits(x, 32, 8, k - 1);
    TopDigits(x - x % a, 32, 8, k - 1);
  }

  /** Re-encoding the bytes of a final quantum gives back its symbols, all
      but the last, whose bits below the kept bytes the decoder drops. */
  lemma PartialReencode(q: seq<nat>)
    requires |q| == 2 || |q| == 4 || |q| == 5 || |q| == 7
    requires AllBelow(q, 32)
    ensures 0 < |DecodePartial(q)| < 5 && SymbolCount(|DecodePartial(q)|) == |q|
    ensures EncodeValues(DecodePartial(q))[..|q| - 1] == q[..|q| - 1]
  {
    var k := |q|;
    var n := (43 - 5 * (8 - k)) / 8;
    var c := PartialSizes(k);
    var x := PartialQuantum(q);
    var bs := DecodePartial(q);
    assert bs == ToDigits(x, 256, 5)[..n];
    assert Pow(256, 5) == Pow(32, 8) by { Pow32Pow256(); }
    KeptBytes(x, n);
    ClearedPrefix(x, n, k, c);
    assert EncodeValues(bs) == ToDigits(x - x % Pow(256, 5 - n), 32, 8)[..k];
    assert ToDigits(x, 32, 8)[..k - 1] == ToDigits(x, 32, 8)[..k][..k - 1];
  }

  /** Re-encoding the five bytes of a complete quantum gives back its symbols. */
  lemma QuantumReencode(q: seq<nat>)
    requires |q| == 8 && AllBelow(q, 32)
    ensures ToDigits(FromDigits(DecodeQuantum(q), 256), 32, 8) == q
  {
    var x := FromDigits(q, 32);
    FromDigitsBound(q, 32);
    Pow32Pow256();
    FromToDigits(x, 256, 5);
    ToFromDigits(q, 32);
  }

  /** `ev` has the length of `vals` and agrees with it everywhere, except
      possibly at the last position of a final partial quantum. */
  ghost predicate Reencoded(vals: seq<nat>, ev: seq<nat>)
  {
    |ev| == |vals|
    && forall i :: 0 <= i < |vals| && (i < |vals| - 1 || |vals| % 8 == 0) ==> ev[i] == vals[i]
  }

  /** Decoding a leading quantum and re-encoding go quantum by quantum. */
  lemma QuantaStep(vals: seq<nat>)
    requires AllBelow(vals, 32) && |vals| >= 8
    ensures |DecodeQuanta(vals)| == 5 + |DecodeQuanta(vals[8..])|
    ensures EncodeValues(DecodeQuanta(vals))
            == ToDigits(FromDigits(DecodeQuantum(vals[..8]), 256), 32, 8) + EncodeValues(DecodeQuanta(vals[8..]))
  {
    var head, tail := DecodeQuantum(vals[..8]), DecodeQuanta(vals[8..]);
    var bs := head + tail;
    assert DecodeQuanta(vals) == bs;
    assert bs[..5] == head && bs[5..] == tail;
  }

  /** Eight more symbols leave the length of the final quantum unchanged. */
  lemma SkipQuantum(n: nat)
    ensures (n + 8) % 8 == n % 8
  {
    DivMod(n, 8);
    DivModUnique(n + 8, 8, n / 8 + 1, n % 8);
  }

  /** A quantum re-encoded exactly, in front of values re-encoded up to
      their last, keeps that agreement. */
  lemma ReencodedPrefix(q: seq<nat>, rest: seq<nat>, e: seq<nat>)
    requires |q| == 8 && Reencoded(rest, e)
    ensures Reencoded(q + rest, q + e)
  {
    SkipQuantum(|rest|);
    var vals, ev := q + rest, q + e;
    forall i | 0 <= i < |vals| && (i < |vals| - 1 || |vals| % 8 == 0)
      ensures ev[i] == vals[i]
    {
      if i >= 8 {
        assert ev[i] == e[i - 8] && vals[i] == rest[i - 8];
      }
    }
  }

  /** Values that agree up to the last with those of a partial quantum are
      a re-encoding of it. */
  lemma PrefixReencoded(vals: seq<nat>, ev: seq<nat>)
    requires 0 < |vals| < 8 && |ev| == |vals| && ev[..|vals| - 1] == vals[..|vals| - 1]
    ensures Reencoded(vals, ev)
  {
    forall i | 0 <= i < |vals| - 1
      ensures ev[i] == vals[i]
    {
      assert ev[..|vals| - 1][i] == vals[..|vals| - 1][i];
    }
  }

  /** A final quantum alone is re-encoded up to its last value. */
  lemma PartialReencoded(vals: seq<nat>)
    requires AllBelow(vals, 32)
    requires |vals| == 2 || |vals| == 4 || |vals| == 5 || |vals| == 7
    ensures Reencoded(vals, EncodeValues(DecodeQuanta(vals)))
  {
    var ev := EncodeValues(DecodeQuanta(vals));
    assert |ev| == |vals| && ev[..|vals| - 1] == vals[..|vals| - 1] by {
      assert DecodeQuanta(vals) == DecodePartial(vals);
      PartialReencode(vals);
      EncodeValuesLength(DecodePartial(vals));
    }
    PrefixReencoded(vals, ev);
  }


  /** Re-encoding decoded symbol values gives the values back, except the
      last value of a final partial quantum, and the padding the input had. */
  lemma {:induction false} ReencodeQuanta(vals: seq<nat>)
    requires AllBelow(vals, 32)
    requires var r := |vals| % 8; r == 0 || r == 2 || r == 4 || r == 5 || r == 7
    ensures Reencoded(vals, EncodeValues(DecodeQuanta(vals)))
    decreases |vals|
  {
    if |vals| >= 8 {
      var q, rest := vals[..8], vals[8..];
      assert AllBelow(rest, 32) && vals == q + rest;
      SkipQuantum(|rest|);
      ReencodeQuanta(rest);
      QuantaStep(vals);
      QuantumReencode(q);
      ReencodedPrefix(q, rest, EncodeValues(DecodeQuanta(rest)));
    } else if vals != [] {
      PartialReencoded(vals);
    }
  }

  /** Five more bytes leave the padding unchanged. */
  lemma PadCountShift(t: nat)
    ensures PadCount(t + 5) == PadCount(t)
  {
    DivMod(t, 5);
    DivModUnique(t + 5, 5, t / 5 + 1, t % 5);
  }

  /** A leading quantum adds five bytes, which leave the padding unchanged. */
  lemma PaddingStep(vals: seq<nat>)
    requires AllBelow(vals, 32) && |vals| >= 8
    ensures PadCount(|DecodeQuanta(vals)|) == PadCount(|DecodeQuanta(vals[8..])|)
  {
    assert |DecodeQuanta(vals)| == |DecodeQuanta(vals[8..])| + 5;
    PadCountShift(|DecodeQuanta(vals[8..])|);
  }

  /** The bytes of a final quantum of `k` symbols are encoded with `8 - k` pads. */
  lemma PaddingPartial(q: seq<nat>)
    requires AllBelow(q, 32)
    requires |q| == 2 || |q| == 4 || |q| == 5 || |q| == 7
    ensures PadCount(|DecodeQuanta(q)|) == 8 - |q|
  {
    PartialReencode(q);
  }

  /** The bytes decoded from symbol values are encoded with as many pads as
      the values lack of a whole quantum. */
  lemma {:induction false} ReencodePadding(vals: seq<nat>)
    requires AllBelow(vals, 32)
    requires var r := |vals| % 8; r == 0 || r == 2 || r == 4 || r == 5 || r == 7
    ensures PadCount(|DecodeQuanta(vals)|) == (8 - |vals| % 8) % 8
    decreases |vals|
  {
    if |vals| >= 8 {
      var rest := vals[8..];
      assert AllBelow(rest, 32);
      SkipQuantum(|rest|);
      ReencodePadding(rest);
      PaddingStep(vals);
    } else if vals != [] {
      PaddingPartial(vals);
    }
  }

  /** What a successful decode read: the symbol values of the text before
      the `=` run, and a run of 0, 1, 3, 4 or 6 pads closing whole quanta. */
  lemma DecodedSymbols(s: string, bs: seq<byte>) returns (vals: seq<nat>)
    requires Decode(s) == Success(bs)
    ensures AllBelow(vals, 32) && bs == DecodeQuanta(vals)
    ensures |vals| == |StripPad(Upper(s))| && |s| % 8 == 0
    ensures forall i :: 0 <= i < |vals| ==> Alphabet[vals[i]] == Upper(s)[i]
    ensures var p := |s| - |vals|; p == 0 || p == 1 || p == 3 || p == 4 || p == 6
  {
    var body := StripPad(Upper(s));
    vals := SymbolValues(body).value;
    SymbolValuesChars(body);
    forall i | 0 <= i < |vals|
      ensures Alphabet[vals[i]] == Upper(s)[i]
    {
      SymbolChar(body[i]);
    }
  }

  /** A pad run of 0, 1, 3, 4 or 6 closing whole quanta leaves a final
      quantum of 0, 7, 5, 4 or 2 symbols, which the pads complete. */
  lemma PadResidue(n: nat, b: nat)
    requires n % 8 == 0 && b <= n
    requires var p := n - b; p == 0 || p == 1 || p == 3 || p == 4 || p == 6
    ensures var r := b % 8; r == 0 || r == 2 || r == 4 || r == 5 || r == 7
    ensures (8 - b % 8) % 8 == n - b
  {
    DivMod(n, 8);
    if n == b {
      DivModUnique(b, 8, n / 8, 0);
    } else {
      DivModUnique(b, 8, n / 8 - 1, 8 - (n - b));
    }
  }

  /** The symbols of values that agree with those of `u`, followed by the
      pads of `u`, agree with `u`. */
  lemma TextsAgree(ev: seq<nat>, vals: seq<nat>, u: string, pads: nat)
    requires AllBelow(ev, 32) && AllBelow(vals, 32) && Reencoded(vals, ev)
    requires |vals| <= |u| && |u| % 8 == 0 && pads == |u| - |vals|
    requires forall i :: 0 <= i < |vals| ==> Alphabet[vals[i]] == u[i]
    requires forall i :: |vals| <= i < |u| ==> u[i] == '='
    ensures |Symbols(ev) + Repeat('=', pads)| == |u|
    ensures forall i :: 0 <= i < |u| && !(i == |vals| - 1 && |vals| < |u|) ==>
              (Symbols(ev) + Repeat('=', pads))[i] == u[i]
  {
  }

  /** The bytes decoded from the values of a final quantum of whole quanta
      re-encode to those values, up to the last, with the pads of the text. */
  lemma ReencodedParts(vals: seq<nat>, n: nat)
    requires AllBelow(vals, 32) && n % 8 == 0 && |vals| <= n
    requires var p := n - |vals|; p == 0 || p == 1 || p == 3 || p == 4 || p == 6
    ensures Reencoded(vals, EncodeValues(DecodeQuanta(vals)))
    ensures PadCount(|DecodeQuanta(vals)|) == n - |vals|
  {
    PadResidue(n, |vals|);
    ReencodeQuanta(vals);
    ReencodePadding(vals);
  }

  /** Bytes whose encoding re-creates the values of the symbols of `u`, up
      to the last, and its pads, encode to `u` except at that last symbol. */
  lemma ReencodedText(vals: seq<nat>, u: string, bs: seq<byte>)
    requires AllBelow(vals, 32) && |vals| <= |u| && |u| % 8 == 0
    requires Reencoded(vals, EncodeValues(bs)) && PadCount(|bs|) == |u| - |vals|
    requires forall i :: 0 <= i < |vals| ==> Alphabet[vals[i]] == u[i]
    requires forall i :: |vals| <= i < |u| ==> u[i] == '='
    ensures |Encode(bs)| == |u|
    ensures forall i :: 0 <= i < |u| && !(i == |vals| - 1 && |vals| < |u|) ==> Encode(bs)[i] == u[i]
  {
    TextsAgree(EncodeValues(bs), vals, u, PadCount(|bs|));
  }

  /** Decoding then encoding gives back the input, upper-cased, except the
      last symbol before a `=` run: its low bits, which do not fill a byte,
      are ignored by the decoder and are zero in the encoding. */
  lemma DecodeThenEncode(s: string, bs: seq<byte>)
    requires Decode(s) == Success(bs)
    ensures |Encode(bs)| == |s|
    ensures forall i :: 0 <= i < |s| ==>
              Encode(bs)[i] == Upper(s)[i]
              || (i == |StripPad(Upper(s))| - 1 && |StripPad(Upper(s))| < |s|)
  {
    var vals := DecodedSymbols(s, bs);
    ReencodedParts(vals, |s|);
    ReencodedText(vals, Upper(s), bs);
  }
}
