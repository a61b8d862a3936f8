/**
 * The non-ASCII escape codec of `IotaHelper` (`encodeNonASCII`, `decodeNonASCII`).
 *
 * JavaScript strings are sequences of UTF-16 code units, so text is modelled as a
 * sequence of `CodeUnit`s. Characters outside the Basic Multilingual Plane are two
 * code units (a surrogate pair) and are escaped and restored one unit at a time.
 */
module EscapeCodec {
  import opened Wrappers

  /** A UTF-16 code unit. */
  type CodeUnit = c: int | 0 <= c < 0x1_0000

  const Backslash: CodeUnit := 0x5C
  const LowerU: CodeUnit := 0x75
  const UpperU: CodeUnit := 0x55
  const Zero: CodeUnit := 0x30
  /** DEL, the first code unit that `encodeNonASCII` escapes. */
  const FirstEscaped: CodeUnit := 0x7F

  predicate IsDigit(c: CodeUnit) { 0x30 <= c <= 0x39 }

  predicate IsLowerHex(c: CodeUnit) { IsDigit(c) || 0x61 <= c <= 0x66 }

  predicate IsHexDigit(c: CodeUnit) { IsLowerHex(c) || 0x41 <= c <= 0x46 }

  /** A word character of a regular expression: an ASCII letter, digit or underscore. */
  predicate IsWordChar(c: CodeUnit) { IsDigit(c) || 0x41 <= c <= 0x5A || 0x61 <= c <= 0x7A || c == 0x5F }

  predicate AllHex(ds: seq<CodeUnit>) { forall k :: 0 <= k < |ds| ==> IsHexDigit(ds[k]) }

  function HexDigitValue(c: CodeUnit): (v: nat)
    requires IsHexDigit(c)
    ensures v < 16
  {
    if IsDigit(c) then c - 0x30 else if c >= 0x61 then c - 0x61 + 10 else c - 0x41 + 10
  }

  function LowerHexDigit(v: nat): (c: CodeUnit)
    requires v < 16
    ensures IsLowerHex(c) && HexDigitValue(c) == v
  {
    if v < 10 then 0x30 + v else 0x61 + v - 10
  }

  function Pow16(n: nat): (p: nat)
    ensures p >= 1
  {
    if n == 0 then 1 else 16 * Pow16(n - 1)
  }

  /** The number a string of hexadecimal digits denotes, most significant digit first. */
  function HexValue(ds: seq<CodeUnit>): (v: nat)
    requires AllHex(ds)
    ensures v < Pow16(|ds|)
  {
    if ds == [] then 0 else HexValue(ds[..|ds| - 1]) * 16 + HexDigitValue(ds[|ds| - 1])
  }

  /** `n.toString(16)`: the shortest lowercase hexadecimal numeral of `n`. */
  function ToHex(n: nat): (r: seq<CodeUnit>)
  {
    if n < 16 then [LowerHexDigit(n)] else ToHex(n / 16) + [LowerHexDigit(n % 16)]
  }

  /**
   * The replacement `encodeNonASCII` writes for one code unit: a backslash, `u`, and the
   * last four characters of `"0000"` followed by the unit's hexadecimal numeral.
   */
  function Escape(c: CodeUnit): seq<CodeUnit>
  {
    var padded := [Zero, Zero, Zero, Zero] + ToHex(c);
    [Backslash, LowerU] + padded[|padded| - 4..]
  }

  function EncodeUnit(c: CodeUnit): seq<CodeUnit>
  {
    if c >= FirstEscaped then Escape(c) else [c]
  }

  /** The global replacement pass of `encodeNonASCII`: every unit from U+007F to U+FFFF is escaped. */
  function EncodeUnits(s: seq<CodeUnit>): (r: seq<CodeUnit>)
    ensures r == [] <==> s == []
  {
    if s == [] then [] else EncodeUnit(s[0]) + EncodeUnits(s[1..])
  }

  /** Number of code units in `s` that the encoder escapes. */
  function CountEscaped(s: seq<CodeUnit>): nat
  {
    if s == [] then 0 else (if s[0] >= FirstEscaped then 1 else 0) + CountEscaped(s[1..])
  }

  /** `encodeNonASCII`: the empty string is falsy and yields `undefined`. */
  function EncodeNonAscii(value: seq<CodeUnit>): (r: Option<seq<CodeUnit>>)
    ensures r.None? <==> value == []
    ensures r.Some? ==> |r.value| == |value| + 5 * CountEscaped(value)
    ensures r.Some? ==> forall k :: 0 <= k < |r.value| ==> r.value[k] < FirstEscaped
  {
    if value == [] then None
    else
      EncodeUnitsLength(value);
      EncodeUnitsAscii(value);
      Some(EncodeUnits(value))
  }

  /** A match of the decoder's pattern at index `i`: a backslash, `u` or `U`, and four word characters. */
  predicate EscapeAt(s: seq<CodeUnit>, i: nat)
  {
    && i + 6 <= |s|
    && s[i] == Backslash
    && (s[i + 1] == LowerU || s[i + 1] == UpperU)
    && forall k :: i + 2 <= k < i + 6 ==> IsWordChar(s[k])
  }

  predicate HasEscape(s: seq<CodeUnit>)
  {
    exists i: nat :: i < |s| && EscapeAt(s, i)
  }

  /** Length of the longest prefix of `ds` made of hexadecimal digits. */
  function HexPrefixLength(ds: seq<CodeUnit>): (n: nat)
    ensures n <= |ds|
    ensures AllHex(ds[..n])
    ensures n < |ds| ==> !IsHexDigit(ds[n])
  {
    if ds == [] || !IsHexDigit(ds[0]) then 0
    else
      var n := 1 + HexPrefixLength(ds[1..]);
      assert ds[..n] == [ds[0]] + ds[1..][..n - 1];
      n
  }

  /** The hexadecimal prefix of an all-hexadecimal text is the whole text. */
  lemma {:induction false} HexPrefixAll(ds: seq<CodeUnit>)
    requires AllHex(ds)
    ensures HexPrefixLength(ds) == |ds|
  {
    if ds != [] {
      HexPrefixAll(ds[1..]);
    }
  }

  lemma {:induction false} Pow16Monotone(m: nat, n: nat)
    requires m <= n
    ensures Pow16(m) <= Pow16(n)
    decreases n
  {
    if m < n {
      Pow16Monotone(m, n - 1);
    }
  }

  /**
   * `String.fromCharCode(parseInt(group, 16))` for the four characters a match captured:
   * `parseInt` drops a leading `0x`/`0X`, reads the longest run of hexadecimal digits, and
   * gives NaN when there is none, which `fromCharCode` turns into U+0000.
   */
  function ParseEscapeGroup(group: seq<CodeUnit>): (c: CodeUnit)
    requires |group| == 4
    ensures AllHex(group) ==> c == HexValue(group)
    ensures !IsHexDigit(group[0]) ==> c == 0
  {
    assert AllHex(group) ==> HexPrefixLength(group) == 4 && group[..4] == group by {
      if AllHex(group) {
        HexPrefixAll(group);
      }
    }
    var digits := if group[0] == Zero && (group[1] == 0x78 || group[1] == 0x58) then group[2..] else group;
    var n := HexPrefixLength(digits);
    Pow16Monotone(n, 4);
    HexValue(digits[..n])
  }

  /** The global replacement pass of `decodeNonASCII`: a left-to-right scan without overlap. */
  function DecodeUnits(s: seq<CodeUnit>): (r: seq<CodeUnit>)
    ensures r == [] <==> s == []
  {
    if s == [] then []
    else if EscapeAt(s, 0) then [ParseEscapeGroup(s[2..6])] + DecodeUnits(s[6..])
    else [s[0]] + DecodeUnits(s[1..])
  }

  /** `decodeNonASCII`: the empty string is falsy and yields `undefined`. */
  function DecodeNonAscii(value: seq<CodeUnit>): (r: Option<seq<CodeUnit>>)
    ensures r.None? <==> value == []
    ensures r.Some? ==> |r.value| <= |value|
    ensures r.Some? ==> (r.value == value <==> !HasEscape(value))
  {
    if value == [] then None
    else
      DecodeShortens(value);
      DecodeUnchangedIff(value);
      Some(DecodeUnits(value))
  }

  // ---------------------------------------------------------------------------
  // Encoding

  lemma {:induction false} EncodeUnitsLength(s: seq<CodeUnit>)
    ensures |EncodeUnits(s)| == |s| + 5 * CountEscaped(s)
  {
    if s != [] {
      EscapeDigits(s[0]);
      EncodeUnitsLength(s[1..]);
      assert |EncodeUnit(s[0])| == if s[0] >= FirstEscaped then 6 else 1;
    }
  }

  /** No code unit of the encoder's output is DEL or above. */
  lemma {:induction false} EncodeUnitsAscii(s: seq<CodeUnit>)
    ensures forall k :: 0 <= k < |EncodeUnits(s)| ==> EncodeUnits(s)[k] < FirstEscaped
  {
    if s != [] {
      EscapeDigits(s[0]);
      EncodeUnitsAscii(s[1..]);
    }
  }

  /** Encoding works unit by unit: it distributes over concatenation. */
  lemma {:induction false} EncodeUnitsAppend(a: seq<CodeUnit>, b: seq<CodeUnit>)
    ensures EncodeUnits(a + b) == EncodeUnits(a) + EncodeUnits(b)
  {
    if a == [] {
      assert a + b == b;
    } else {
      assert (a + b)[0] == a[0] && (a + b)[1..] == a[1..] + b;
      EncodeUnitsAppend(a[1..], b);
      assert EncodeUnits(a + b) == EncodeUnit(a[0]) + EncodeUnits(a[1..] + b);
    }
  }

  /** The encoder leaves a text unchanged exactly when it has no unit at or above DEL. */
  lemma {:induction false} EncodeUnitsUnchangedIff(s: seq<CodeUnit>)
    ensures EncodeUnits(s) == s <==> forall k :: 0 <= k < |s| ==> s[k] < FirstEscaped
  {
    EncodeUnitsLength(s);
    if forall k :: 0 <= k < |s| ==> s[k] < FirstEscaped {
      EncodeUnchangedOnAscii(s);
    } else if EncodeUnits(s) == s {
      EncodeUnitsAscii(s);
      assert false;
    }
  }

  lemma {:induction false} EncodeUnchangedOnAscii(s: seq<CodeUnit>)
    requires forall k :: 0 <= k < |s| ==> s[k] < FirstEscaped
    ensures EncodeUnits(s) == s
  {
    if s != [] {
      EncodeUnchangedOnAscii(s[1..]);
    }
  }

  /** Encoding an encoded text again changes nothing. */
  lemma EncodeIdempotent(s: seq<CodeUnit>)
    ensures EncodeUnits(EncodeUnits(s)) == EncodeUnits(s)
  {
    EncodeUnitsAscii(s);
    EncodeUnchangedOnAscii(EncodeUnits(s));
  }

  function Zeros(n: nat): (z: seq<CodeUnit>)
    ensures |z| == n && forall k :: 0 <= k < n ==> z[k] == Zero
  {
    if n == 0 then [] else Zeros(n - 1) + [Zero]
  }

  lemma {:induction false} ToHexDigits(n: nat)
    ensures 1 <= |ToHex(n)|
    ensures forall k :: 0 <= k < |ToHex(n)| ==> IsLowerHex(ToHex(n)[k])
    ensures HexValue(ToHex(n)) == n
    ensures n < Pow16(|ToHex(n)|)
    ensures |ToHex(n)| > 1 ==> Pow16(|ToHex(n)| - 1) <= n
  {
    if n >= 16 {
      ToHexDigits(n / 16);
      var h := ToHex(n / 16);
      assert ToHex(n) == h + [LowerHexDigit(n % 16)];
      assert ToHex(n)[..|ToHex(n)| - 1] == h;
    }
  }

  lemma {:induction false} ZerosValue(n: nat)
    ensures AllHex(Zeros(n)) && HexValue(Zeros(n)) == 0
  {
    if n > 0 {
      ZerosValue(n - 1);
      assert Zeros(n)[..n - 1] == Zeros(n - 1);
    }
  }

  /** Leading zeros do not change the value of a hexadecimal numeral. */
  lemma {:induction false} LeadingZerosValue(n: nat, h: seq<CodeUnit>)
    requires AllHex(h)
    ensures AllHex(Zeros(n) + h) && HexValue(Zeros(n) + h) == HexValue(h)
    decreases |h|
  {
    ZerosValue(n);
    if h == [] {
      assert Zeros(n) + h == Zeros(n);
    } else {
      var z := Zeros(n) + h;
      assert z[..|z| - 1] == Zeros(n) + h[..|h| - 1];
      LeadingZerosValue(n, h[..|h| - 1]);
    }
  }

  lemma {:induction false} PaddedLast4(h: seq<CodeUnit>)
    requires 1 <= |h| <= 4
    ensures var padded := [Zero, Zero, Zero, Zero] + h; padded[|padded| - 4..] == Zeros(4 - |h|) + h
  {
    var padded := [Zero, Zero, Zero, Zero] + h;
    var m := 4 - |h|;
    forall k | 0 <= k < 4 ensures padded[|padded| - 4..][k] == (Zeros(m) + h)[k] {
      if k >= m {
        assert padded[|padded| - 4 + k] == h[k - m];
      }
    }
  }

  /**
   * An escape is a backslash, a lowercase `u` and exactly four lowercase hexadecimal
   * digits whose value is the escaped code unit (zero-padded on the left).
   */
  lemma EscapeDigits(c: CodeUnit)
    ensures |Escape(c)| == 6
    ensures Escape(c)[0] == Backslash && Escape(c)[1] == LowerU
    ensures forall k :: 2 <= k < 6 ==> IsLowerHex(Escape(c)[k])
    ensures HexValue(Escape(c)[2..]) == c
  {
    var h := ToHex(c);
    ToHexDigits(c);
    if |h| > 4 {
      Pow16Monotone(4, |h| - 1);
      assert false;
    }
    PaddedLast4(h);
    LeadingZerosValue(4 - |h|, h);
    assert Escape(c)[2..] == Zeros(4 - |h|) + h;
  }

  // ---------------------------------------------------------------------------
  // Decoding

  /**
   * Decoding replaces `\u` or `\U` and four hexadecimal digits of either case by the
   * single code unit they denote.
   */
  lemma HexEscapeDecodes(u: CodeUnit, ds: seq<CodeUnit>, rest: seq<CodeUnit>)
    requires u == LowerU || u == UpperU
    requires |ds| == 4 && AllHex(ds)
    ensures HexValue(ds) < 0x1_0000
    ensures DecodeUnits([Backslash, u] + ds + rest) == [HexValue(ds) as CodeUnit] + DecodeUnits(rest)
  {
    var s := [Backslash, u] + ds + rest;
    assert s[2..6] == ds;
    assert EscapeAt(s, 0);
    assert s[6..] == rest;
    assert HexPrefixLength(ds[3..]) == 1;
    assert HexPrefixLength(ds[2..]) == 2;
    assert HexPrefixLength(ds[1..]) == 3;
    assert HexPrefixLength(ds) == 4;
    assert ds[..4] == ds;
  }

  /**
   * `parseInt` on group texts that are not four hexadecimal digits: `0x1g` reads as 0x1,
   * `0X1F` as 0x1F, `12g4` as 0x12, and `zzzz` and `0xzz` are NaN, which becomes U+0000.
   */
  lemma ParseEscapeGroupExamples()
    ensures ParseEscapeGroup([Zero, 0x78, 0x31, 0x67]) == 0x1
    ensures ParseEscapeGroup([Zero, 0x58, 0x31, 0x46]) == 0x1F
    ensures ParseEscapeGroup([0x31, 0x32, 0x67, 0x34]) == 0x12
    ensures ParseEscapeGroup([0x7A, 0x7A, 0x7A, 0x7A]) == 0
    ensures ParseEscapeGroup([Zero, 0x78, 0x7A, 0x7A]) == 0
  {
    var g1: seq<CodeUnit> := [0x31, 0x67];
    assert HexPrefixLength(g1[1..]) == 0;
    assert HexPrefixLength(g1) == 1;
    assert HexValue(g1[..1]) == 1 by { assert g1[..1][..0] == []; }
    var g2: seq<CodeUnit> := [0x31, 0x46];
    assert HexPrefixLength(g2[1..]) == 1;
    assert HexPrefixLength(g2) == 2;
    assert g2[..2] == g2;
    assert HexValue(g2[..1]) == 1 by { assert g2[..1][..0] == []; }
    assert HexValue(g2) == 0x1F by { assert g2[..1] == [0x31]; }
    var g3: seq<CodeUnit> := [0x31, 0x32, 0x67, 0x34];
    assert HexPrefixLength(g3[2..]) == 0;
    assert HexPrefixLength(g3[1..]) == 1;
    assert HexPrefixLength(g3) == 2;
    assert HexValue(g3[..1]) == 1 by { assert g3[..1][..0] == []; }
    assert HexValue(g3[..2]) == 0x12 by { assert g3[..2][..1] == g3[..1]; }
    var g5: seq<CodeUnit> := [0x7A, 0x7A];
    assert HexPrefixLength(g5) == 0;
  }

  /** Decoding undoes one escape written by the encoder. */
  lemma EscapeDecodes(c: CodeUnit, rest: seq<CodeUnit>)
    ensures DecodeUnits(Escape(c) + rest) == [c] + DecodeUnits(rest)
  {
    EscapeDigits(c);
    var ds := Escape(c)[2..];
    assert Escape(c) == [Backslash, LowerU] + ds;
    HexEscapeDecodes(LowerU, ds, rest);
  }

  lemma EscapeAtShift(s: seq<CodeUnit>, i: nat)
    requires s != []
    ensures EscapeAt(s[1..], i) <==> EscapeAt(s, i + 1)
  {
    if i + 7 <= |s| {
      assert forall k :: i + 2 <= k < i + 6 ==> s[1..][k] == s[k + 1];
    }
  }

  /** Decoding never lengthens a text, and shortens every text that holds an escape. */
  lemma {:induction false} DecodeShortens(s: seq<CodeUnit>)
    ensures |DecodeUnits(s)| <= |s|
    ensures HasEscape(s) ==> |DecodeUnits(s)| < |s|
  {
    if s != [] {
      if EscapeAt(s, 0) {
        DecodeShortens(s[6..]);
      } else {
        DecodeShortens(s[1..]);
        if HasEscape(s) {
          var i: nat :| i < |s| && EscapeAt(s, i);
          EscapeAtShift(s, i - 1);
          assert EscapeAt(s[1..], i - 1);
        }
      }
    }
  }

  /** Text holding no escape is returned unchanged. */
  lemma {:induction false} DecodeUnchanged(s: seq<CodeUnit>)
    requires !HasEscape(s)
    ensures DecodeUnits(s) == s
  {
    if s != [] {
      assert !EscapeAt(s, 0);
      forall i: nat | i < |s[1..]| ensures !EscapeAt(s[1..], i) {
        EscapeAtShift(s, i);
      }
      DecodeUnchanged(s[1..]);
    }
  }

  /** Decoding leaves a text unchanged exactly when the text holds no escape. */
  lemma DecodeUnchangedIff(s: seq<CodeUnit>)
    ensures DecodeUnits(s) == s <==> !HasEscape(s)
  {
    DecodeShortens(s);
    if !HasEscape(s) {
      DecodeUnchanged(s);
    }
  }

  // ---------------------------------------------------------------------------
  // Round trip

  /** A prefix of encoder output made only of word characters was copied from the input. */
  lemma {:induction false} EncodedWordPrefix(t: seq<CodeUnit>, n: nat)
    requires n <= |EncodeUnits(t)|
    requires forall k :: 0 <= k < n ==> IsWordChar(EncodeUnits(t)[k])
    ensures n <= |t| && t[..n] == EncodeUnits(t)[..n]
  {
    if n > 0 {
      assert t != [];
      EscapeDigits(t[0]);
      assert EncodeUnits(t) == EncodeUnit(t[0]) + EncodeUnits(t[1..]);
      assert IsWordChar(EncodeUnits(t)[0]);
      if t[0] >= FirstEscaped {
        assert false;
      }
      assert EncodeUnits(t) == [t[0]] + EncodeUnits(t[1..]);
      assert forall k :: 0 <= k < n - 1 ==> EncodeUnits(t[1..])[k] == EncodeUnits(t)[k + 1];
      EncodedWordPrefix(t[1..], n - 1);
      assert t[..n] == [t[0]] + t[1..][..n - 1];
    }
  }

  /**
   * A literal unit followed by encoder output starts an escape only if it already
   * started one before encoding: the four word characters must have been copied.
   */
  lemma EscapeSurvivesEncoding(c: CodeUnit, t: seq<CodeUnit>)
    ensures EscapeAt([c] + EncodeUnits(t), 0) ==> EscapeAt([c] + t, 0)
  {
    var out, s := [c] + EncodeUnits(t), [c] + t;
    if EscapeAt(out, 0) {
      assert forall k :: 0 <= k < 5 ==> EncodeUnits(t)[k] == out[k + 1];
      EncodedWordPrefix(t, 5);
      assert forall k :: 1 <= k < 6 ==> s[k] == t[k - 1] == out[k];
    }
  }

  /**
   * `decodeNonASCII` undoes `encodeNonASCII` on every text that does not already hold a
   * literal backslash, `u` or `U`, and four word characters.
   */
  lemma {:induction false} DecodeEncode(s: seq<CodeUnit>)
    requires !HasEscape(s)
    ensures DecodeUnits(EncodeUnits(s)) == s
  {
    if s != [] {
      var c, t := s[0], s[1..];
      forall i: nat | i < |t| ensures !EscapeAt(t, i) {
        EscapeAtShift(s, i);
      }
      DecodeEncode(t);
      var out := EncodeUnits(s);
      assert out == EncodeUnit(c) + EncodeUnits(t);
      if c >= FirstEscaped {
        EscapeDecodes(c, EncodeUnits(t));
      } else {
        assert out == [c] + EncodeUnits(t);
        assert s == [c] + t;
        EscapeSurvivesEncoding(c, t);
        assert !EscapeAt(out, 0);
        assert out[1..] == EncodeUnits(t);
      }
    }
  }

  /** The codec round trip on the functions' own results, with the empty-string case excluded. */
  lemma CodecRoundTrip(s: seq<CodeUnit>)
    requires s != [] && !HasEscape(s)
    ensures EncodeNonAscii(s).Some?
    ensures DecodeNonAscii(EncodeNonAscii(s).value) == Some(s)
  {
    DecodeEncode(s);
  }

  // ---------------------------------------------------------------------------
  // Finding: a literal backslash is not escaped

  /**
   * As written, a text that already holds `\u0041` passes the encoder unchanged and the
   * decoder turns it into `A`, so the round trip fails.
   */
  lemma LiteralEscapeBreaksRoundTrip()
    ensures var s := [Backslash, LowerU, Zero, Zero, 0x34, 0x31];
      EncodeUnits(s) == s && DecodeUnits(EncodeUnits(s)) == [0x41] != s
  {
    var s: seq<CodeUnit> := [Backslash, LowerU, Zero, Zero, 0x34, 0x31];
    EncodeUnchangedOnAscii(s);
    HexEscapeDecodes(LowerU, s[2..], []);
    assert s == [Backslash, LowerU] + s[2..] + [];
    var ds := s[2..];
    assert HexValue([Zero]) == 0 by { assert [Zero][..0] == []; }
    assert HexValue([Zero, Zero]) == 0 by { assert [Zero, Zero][..1] == [Zero]; }
    assert HexValue([Zero, Zero, 0x34]) == 4 by { assert [Zero, Zero, 0x34][..2] == [Zero, Zero]; }
    assert ds[..3] == [Zero, Zero, 0x34];
    assert HexValue(ds) == 0x41;
  }

  /** The encoder as evidently intended: the backslash is escaped as well. */
  function EncodeUnitStrict(c: CodeUnit): seq<CodeUnit>
  {
    if c >= FirstEscaped || c == Backslash then Escape(c) else [c]
  }

  function EncodeUnitsStrict(s: seq<CodeUnit>): seq<CodeUnit>
  {
    if s == [] then [] else EncodeUnitStrict(s[0]) + EncodeUnitsStrict(s[1..])
  }

  /** With the backslash escaped, decoding undoes encoding for every text. */
  lemma {:induction false} DecodeEncodeStrict(s: seq<CodeUnit>)
    ensures DecodeUnits(EncodeUnitsStrict(s)) == s
  {
    if s != [] {
      var c, t := s[0], s[1..];
      DecodeEncodeStrict(t);
      var out := EncodeUnitsStrict(s);
      assert out == EncodeUnitStrict(c) + EncodeUnitsStrict(t);
      if c >= FirstEscaped || c == Backslash {
        EscapeDecodes(c, EncodeUnitsStrict(t));
      } else {
        assert out == [c] + EncodeUnitsStrict(t);
        assert out[1..] == EncodeUnitsStrict(t);
      }
    }
  }
}
