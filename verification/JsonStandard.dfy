/** The lexical level of JSON text from the writer's side: numbers, string literals and
    UTF-8 put together from their parts (sections 6 and 7 of RFC 8259, RFC 3629), and the
    proof that the reader of JsonText recognizes exactly the texts put together so. */
module JsonStandard {
  import opened Wrappers
  import opened JsonText

  /** The bytes of a text of ASCII characters. */
  function Ascii(s: string): (b: bytes)
    requires forall k :: 0 <= k < |s| ==> s[k] < 128 as char
    ensures |b| == |s| && forall k :: 0 <= k < |s| ==> b[k] == s[k] as int
  {
    seq(|s|, k requires 0 <= k < |s| => s[k] as int)
  }

  /** The bytes with a meaning of their own. */
  lemma MarksAndBlanks(c: byte)
    ensures [QUOTE, BACKSLASH, COLON, COMMA, LBRACE, RBRACE, LBRACKET, RBRACKET] == Ascii("\"\\:,{}[]")
    ensures TRUE_TEXT == Ascii("true") && FALSE_TEXT == Ascii("false") && NULL_TEXT == Ascii("null")
    ensures IsBlank(c) <==> c in Ascii(" \t\r\n")
  {
    var marks, blanks := Ascii("\"\\:,{}[]"), Ascii(" \t\r\n");
    assert blanks == [0x20, 0x09, 0x0D, 0x0A];
  }

  // ----- numbers

  datatype Exponent = Exponent(mark: byte, sign: bytes, digits: bytes)

  /** A number taken apart as in section 6 of RFC 8259. */
  datatype NumberParts = NumberParts(minus: bool, integer: bytes, fraction: Option<bytes>, exponent: Option<Exponent>)

  ghost predicate Digits(d: bytes) { d != [] && forall k :: 0 <= k < |d| ==> '0' as int <= d[k] <= '9' as int }

  ghost predicate IsExponentPart(e: Option<Exponent>) {
    e.Some? ==>
      && (e.value.mark == 'e' as int || e.value.mark == 'E' as int)
      && (e.value.sign == [] || e.value.sign == ['+' as int] || e.value.sign == ['-' as int])
      && Digits(e.value.digits)
  }

  ghost predicate IsParts(p: NumberParts) {
    && Digits(p.integer) && (p.integer[0] == '0' as int ==> |p.integer| == 1)
    && (p.fraction.Some? ==> Digits(p.fraction.value))
    && IsExponentPart(p.exponent)
  }

  ghost function ExponentText(e: Option<Exponent>): bytes {
    if e.None? then [] else [e.value.mark] + (e.value.sign + e.value.digits)
  }

  ghost function FractionText(f: Option<bytes>): bytes {
    if f.None? then [] else ['.' as int] + f.value
  }

  ghost function PartsText(p: NumberParts): bytes {
    (if p.minus then ['-' as int] else []) + (p.integer + (FractionText(p.fraction) + ExponentText(p.exponent)))
  }

  /** A number text: the three words, or a minus, an integer without leading zeros, a
      fraction and an exponent, the integer alone being required. */
  ghost predicate IsNumberText(s: bytes) {
    || s == Ascii("NaN") || s == Ascii("Infinity") || s == Ascii("-Infinity")
    || exists p :: IsParts(p) && s == PartsText(p)
  }

  lemma {:induction false} DigitsEndIs(s: bytes, i: nat, d: bytes)
    requires i <= |s| && d <= s[i..] && forall k :: 0 <= k < |d| ==> IsDigit(d[k])
    requires i + |d| < |s| ==> !IsDigit(s[i + |d|])
    ensures DigitsEnd(s, i) == i + |d|
    decreases |d|
  {
    if d != [] {
      assert s[i] == s[i..][0] == d[0];
      assert s[i + 1..] == s[i..][1..];
      DigitsEndIs(s, i + 1, d[1..]);
    }
  }

  lemma {:induction false} DigitsEndStops(s: bytes, i: nat)
    requires i <= |s|
    ensures DigitsEnd(s, i) < |s| ==> !IsDigit(s[DigitsEnd(s, i)])
    decreases |s| - i
  {
    if i < |s| && IsDigit(s[i]) { DigitsEndStops(s, i + 1); }
  }

  lemma ExponentTaken(s: bytes, i: nat) returns (e: Option<Exponent>)
    requires i <= |s| && IsExponent(s, i)
    ensures IsExponentPart(e) && s[i..] == ExponentText(e)
  {
    if i == |s| {
      e := None;
    } else {
      var j := if i + 1 < |s| && (s[i + 1] == 0x2B || s[i + 1] == 0x2D) then i + 2 else i + 1;
      e := Some(Exponent(s[i], s[i + 1..j], s[j..]));
      assert s[i..] == [s[i]] + (s[i + 1..j] + s[j..]);
      hide IsExponent;
    }
  }

  /** A text that stands at i, and what follows it. */
  lemma PrefixAt(s: bytes, i: nat, front: bytes, back: bytes)
    requires i <= |s| && s[i..] == front + back
    ensures i + |front| <= |s| && s[i..i + |front|] == front && s[i + |front|..] == back
    ensures front != [] ==> s[i] == front[0]
    ensures back != [] ==> i + |front| < |s| && s[i + |front|] == back[0]
    ensures back == [] ==> i + |front| == |s|
  {
    assert s[i..i + |front|] == s[i..][..|front|];
    assert s[i + |front|..] == s[i..][|front|..];
    if front != [] { assert s[i] == s[i..][0]; }
    if back != [] { assert s[i + |front|] == s[i..][|front|]; }
  }

  lemma DigitsAt(s: bytes, i: nat, d: bytes, back: bytes)
    requires i <= |s| && s[i..] == d + back && Digits(d) && (back != [] ==> !IsDigit(back[0]))
    ensures i < i + |d| == DigitsEnd(s, i) <= |s| && s[i..i + |d|] == d && s[i + |d|..] == back && s[i] == d[0]
    ensures back != [] ==> i + |d| < |s| && s[i + |d|] == back[0]
    ensures back == [] ==> i + |d| == |s|
  {
    PrefixAt(s, i, d, back);
    DigitsEndIs(s, i, d);
  }

  lemma ExponentRead(s: bytes, i: nat, e: Option<Exponent>)
    requires i <= |s| && IsExponentPart(e) && s[i..] == ExponentText(e)
    ensures IsExponent(s, i)
  {
    if e.Some? {
      var Exponent(mark, sign, d) := e.value;
      PrefixAt(s, i, [mark], sign + d);
      PrefixAt(s, i + 1, sign, d);
      assert d == d + [];
      DigitsAt(s, i + 1 + |sign|, d, []);
    }
  }

  /** What an exponent starts with is no digit and no point. */
  lemma ExponentStart(e: Option<Exponent>)
    requires IsExponentPart(e)
    ensures ExponentText(e) != [] ==> ExponentText(e)[0] == 0x65 || ExponentText(e)[0] == 0x45
  {
  }

  lemma FractionTaken(s: bytes, i: nat) returns (f: Option<bytes>, e: Option<Exponent>)
    requires i <= |s| && IsFraction(s, i)
    ensures f.Some? ==> Digits(f.value)
    ensures IsExponentPart(e) && s[i..] == FractionText(f) + ExponentText(e)
  {
    hide IsExponent, IsExponentPart, ExponentText;
    if i < |s| && s[i] == 0x2E {
      var d := DigitsEnd(s, i + 1);
      e := ExponentTaken(s, d);
      f := Some(s[i + 1..d]);
      assert s[i..] == ([s[i]] + s[i + 1..d]) + s[d..];
    } else {
      e := ExponentTaken(s, i);
      f := None;
      assert [] + ExponentText(e) == ExponentText(e);
    }
  }

  lemma Regroup(a: bytes, b: bytes, c: bytes)
    ensures (a + b) + c == a + (b + c)
  {
  }

  lemma FractionRead(s: bytes, i: nat, f: Option<bytes>, e: Option<Exponent>)
    requires i <= |s| && (f.Some? ==> Digits(f.value)) && IsExponentPart(e)
    requires s[i..] == FractionText(f) + ExponentText(e)
    ensures IsFraction(s, i)
  {
    hide IsExponentPart, ExponentText, Digits, IsFraction;
    if f.Some? {
      Regroup([0x2E], f.value, ExponentText(e));
      WithFraction(s, i, f.value, e);
    } else {
      assert [] + ExponentText(e) == ExponentText(e);
      NoFraction(s, i, e);
    }
  }

  lemma WithFraction(s: bytes, i: nat, d: bytes, e: Option<Exponent>)
    requires i <= |s| && Digits(d) && IsExponentPart(e) && s[i..] == [0x2E] + (d + ExponentText(e))
    ensures IsFraction(s, i)
  {
    hide Digits, IsExponentPart, ExponentText, IsExponent, DigitsEnd;
    ExponentStart(e);
    PointRead(s, i, d, ExponentText(e));
    ExponentRead(s, i + 1 + |d|, e);
    NotEmpty(d);
  }

  lemma NotEmpty(d: bytes)
    requires Digits(d)
    ensures |d| > 0
  {
  }

  lemma NoFraction(s: bytes, i: nat, e: Option<Exponent>)
    requires i <= |s| && IsExponentPart(e) && s[i..] == ExponentText(e)
    ensures IsFraction(s, i)
  {
    hide IsExponentPart, ExponentText, IsExponent, DigitsEnd;
    ExponentStart(e);
    ExponentRead(s, i, e);
    assert i < |s| ==> s[i] == s[i..][0];
  }

  lemma PointRead(s: bytes, i: nat, d: bytes, back: bytes)
    requires i <= |s| && s[i..] == [0x2E] + (d + back) && Digits(d) && (back != [] ==> !IsDigit(back[0]))
    ensures i + 1 + |d| <= |s| && s[i] == 0x2E && DigitsEnd(s, i + 1) == i + 1 + |d| && s[i + 1 + |d|..] == back
  {
    hide DigitsEnd, Digits;
    PrefixAt(s, i, [0x2E], d + back);
    DigitsAt(s, i + 1, d, back);
  }

  lemma DecimalTaken(s: bytes) returns (p: NumberParts)
    requires IsDecimal(s)
    ensures IsParts(p) && s == PartsText(p)
  {
    hide IsFraction, IsExponentPart, ExponentText, FractionText;
    var i := if s[0] == 0x2D then 1 else 0;
    var d := DigitsEnd(s, i);
    var f, e := FractionTaken(s, d);
    p := NumberParts(i == 1, s[i..d], f, e);
    assert s == s[..i] + (s[i..d] + s[d..]);
    assert s[..i] == if i == 1 then [s[0]] else [];
  }

  /** What stands after the integer starts with no digit. */
  lemma TailStart(f: Option<bytes>, e: Option<Exponent>)
    requires IsExponentPart(e)
    ensures (FractionText(f) + ExponentText(e) != []
      ==> (FractionText(f) + ExponentText(e))[0] in [0x2E, 0x65, 0x45])
  {
    ExponentStart(e);
    hide IsExponentPart, ExponentText;
  }

  lemma DecimalRead(s: bytes, p: NumberParts)
    requires IsParts(p) && s == PartsText(p)
    ensures IsDecimal(s)
  {
    hide IsExponentPart, ExponentText, FractionText, Digits, DigitsEnd, IsFraction;
    var tail := FractionText(p.fraction) + ExponentText(p.exponent);
    TailStart(p.fraction, p.exponent);
    IntegerRead(s, p.minus, p.integer, tail);
    FractionRead(s, |p.integer| + if p.minus then 1 else 0, p.fraction, p.exponent);
    NotEmpty(p.integer);
    hide PartsText;
  }

  lemma IntegerRead(s: bytes, minus: bool, d: bytes, back: bytes)
    requires s == (if minus then [0x2D] else []) + (d + back) && Digits(d) && (back != [] ==> !IsDigit(back[0]))
    ensures (var i := if minus then 1 else 0;
      && i + |d| <= |s| && s != [] && (s[0] == 0x2D <==> minus)
      && DigitsEnd(s, i) == i + |d| && s[i + |d|..] == back && s[i] == d[0])
  {
    hide DigitsEnd;
    assert s[0..] == s;
    PrefixAt(s, 0, if minus then [0x2D] else [], d + back);
    DigitsAt(s, if minus then 1 else 0, d, back);
  }

  lemma NumberWords()
    ensures Ascii("NaN") == NAN_TEXT && Ascii("Infinity") == INFINITY_TEXT && Ascii("-Infinity") == [0x2D] + INFINITY_TEXT
  {
  }

  /** The reader recognizes exactly the number texts. */
  lemma NumberIff(s: bytes)
    ensures IsNumber(s) <==> IsNumberText(s)
  {
    NumberWords();
    hide IsDecimal, IsParts, PartsText, Ascii, NAN_TEXT, INFINITY_TEXT;
    if IsDecimal(s) { var p := DecimalTaken(s); }
    forall p | IsParts(p) && s == PartsText(p) ensures IsDecimal(s) { DecimalRead(s, p); }
  }

  // ----- string literals

  /** A character of a literal: any byte but a quote, a backslash and a control character, or
      a backslash with the byte after it. */
  ghost predicate IsUnit(u: bytes) {
    || (|u| == 1 && u[0] >= 0x20 && u[0] != '\"' as int && u[0] != '\\' as int)
    || (|u| == 2 && u[0] == '\\' as int)
  }

  ghost function Concat(parts: seq<bytes>): bytes {
    if parts == [] then [] else parts[0] + Concat(parts[1..])
  }

  ghost predicate AreUnits(units: seq<bytes>) { forall k :: 0 <= k < |units| ==> IsUnit(units[k]) }

  ghost predicate IsStringText(s: bytes) {
    exists units :: AreUnits(units) && s == ['\"' as int] + Concat(units) + ['\"' as int]
  }

  lemma {:induction false} UnitsTaken(b: bytes, k: nat, end: nat) returns (units: seq<bytes>)
    requires k <= end <= |b| && Units(b, k, end)
    ensures AreUnits(units) && b[k..end] == Concat(units)
    decreases end - k
  {
    units := [];
    if k < end {
      var n := if IsPlain(b[k]) then k + 1 else k + 2;
      var rest := UnitsTaken(b, n, end);
      units := [b[k..n]] + rest;
      assert b[k..end] == b[k..n] + b[n..end];
    }
  }

  lemma {:induction false} UnitsRead(b: bytes, k: nat, end: nat, units: seq<bytes>)
    requires k <= end <= |b| && AreUnits(units) && b[k..end] == Concat(units)
    ensures Units(b, k, end)
    decreases |units|
  {
    if units != [] {
      var n := k + |units[0]|;
      assert b[n..end] == b[k..end][|units[0]|..] == Concat(units[1..]);
      assert b[k..n] == b[k..end][..|units[0]|] == units[0];
      assert b[k] == units[0][0];
      UnitsRead(b, n, end, units[1..]);
    }
  }

  /** The reader recognizes exactly the string texts. */
  lemma StringIff(s: bytes)
    ensures StringAt(s, 0, |s|) <==> IsStringText(s)
  {
    if StringAt(s, 0, |s|) {
      var units := UnitsTaken(s, 1, |s| - 1);
      assert s == [s[0]] + s[1..|s| - 1] + [s[|s| - 1]];
    }
    if units :| AreUnits(units) && s == ['\"' as int] + Concat(units) + ['\"' as int] {
      assert s[1..|s| - 1] == Concat(units);
      UnitsRead(s, 1, |s| - 1, units);
    }
  }

  // ----- UTF-8

  /** A Unicode scalar value: a code point that is no surrogate. */
  ghost predicate IsScalar(c: int) { 0 <= c < 0xD800 || 0xE000 <= c < 0x11_0000 }

  /** The bytes of a scalar value, as in section 3 of RFC 3629. */
  ghost function Encoded(c: int): (r: bytes)
    requires IsScalar(c)
    ensures 1 <= |r| <= 4
  {
    if c < 0x80 then [c]
    else if c < 0x800 then [0xC0 + c / 64, 0x80 + c % 64]
    else if c < 0x1_0000 then [0xE0 + c / 4096, 0x80 + c / 64 % 64, 0x80 + c % 64]
    else [0xF0 + c / 0x4_0000, 0x80 + c / 4096 % 64, 0x80 + c / 64 % 64, 0x80 + c % 64]
  }

  ghost function EncodedAll(cs: seq<int>): bytes
    requires forall k :: 0 <= k < |cs| ==> IsScalar(cs[k])
  {
    if cs == [] then [] else Encoded(cs[0]) + EncodedAll(cs[1..])
  }

  ghost predicate IsEncodingOf(s: bytes, cs: seq<int>) {
    (forall k :: 0 <= k < |cs| ==> IsScalar(cs[k])) && s == EncodedAll(cs)
  }

  /** Digits to the base 64 are taken off by division. */
  lemma Base64Digits(x: nat, y: nat, z: nat)
    requires y < 64 && z < 64
    ensures (64 * x + y) / 64 == x && (64 * x + y) % 64 == y
    ensures (4096 * x + 64 * y + z) / 4096 == x
  {
  }

  lemma CharacterIsEncoded(s: bytes, i: nat) returns (c: int)
    requires i < |s| && CharacterSize(s, i) > 0
    ensures IsScalar(c) && s[i..i + CharacterSize(s, i)] == Encoded(c)
  {
    var n := CharacterSize(s, i);
    var t: seq<int> := s[i..i + n];
    if n == 1 {
      c := t[0];
    } else if n == 2 {
      c := 64 * (t[0] - 0xC0) + (t[1] - 0x80);
      Base64Digits(t[0] - 0xC0, t[1] - 0x80, 0);
    } else if n == 3 {
      ThreeBytes(s, i);
      c := 64 * (64 * (t[0] - 0xE0) + (t[1] - 0x80)) + (t[2] - 0x80);
    } else {
      FourBytes(s, i);
      c := 64 * (64 * (64 * (t[0] - 0xF0) + (t[1] - 0x80)) + (t[2] - 0x80)) + (t[3] - 0x80);
    }
  }

  lemma ThreeBytes(s: bytes, i: nat)
    requires i < |s| && CharacterSize(s, i) == 3
    ensures (var c := 64 * (64 * (s[i] as int - 0xE0) + (s[i + 1] as int - 0x80)) + (s[i + 2] as int - 0x80);
      0x800 <= c < 0x1_0000 && IsScalar(c) && Encoded(c) == s[i..i + 3])
  {
    var x, y, z := s[i] as int - 0xE0, s[i + 1] as int - 0x80, s[i + 2] as int - 0x80;
    Base64Digits(x, y, 0);
    Base64Digits(64 * x + y, z, 0);
    Base64Digits(x, y, z);
  }

  lemma FourBytes(s: bytes, i: nat)
    requires i < |s| && CharacterSize(s, i) == 4
    ensures (var c := 64 * (64 * (64 * (s[i] as int - 0xF0) + (s[i + 1] as int - 0x80)) + (s[i + 2] as int - 0x80))
          + (s[i + 3] as int - 0x80);
      0x1_0000 <= c && IsScalar(c) && Encoded(c) == s[i..i + 4])
  {
    var w, x, y, z := s[i] as int - 0xF0, s[i + 1] as int - 0x80, s[i + 2] as int - 0x80, s[i + 3] as int - 0x80;
    Base64Digits(w, x, 0);
    Base64Digits(64 * w + x, y, 0);
    Base64Digits(64 * w + x, y, z);
    Base64Digits(64 * (64 * w + x) + y, z, 0);
  }

  lemma EncodedIsCharacter(s: bytes, i: nat, c: int)
    requires i < |s| && IsScalar(c) && Encoded(c) <= s[i..]
    ensures CharacterSize(s, i) == |Encoded(c)|
  {
    var r := Encoded(c);
    assert forall k :: 0 <= k < |r| ==> s[i + k] == s[i..][k] == r[k];
  }

  /** The reader recognizes exactly the encodings of sequences of scalar values. */
  lemma {:induction false} Utf8Iff(s: bytes, i: nat)
    requires i <= |s|
    ensures IsUtf8(s, i) <==> exists cs :: IsEncodingOf(s[i..], cs)
    decreases |s| - i
  {
    hide CharacterSize, Encoded;
    if i == |s| {
      assert IsEncodingOf(s[i..], []);
    } else {
      var n := CharacterSize(s, i);
      if n > 0 {
        Utf8Iff(s, i + n);
        if IsUtf8(s, i) {
          var c := CharacterIsEncoded(s, i);
          var cs :| IsEncodingOf(s[i + n..], cs);
          assert s[i..] == s[i..i + n] + s[i + n..];
          assert ([c] + cs)[1..] == cs;
          assert IsEncodingOf(s[i..], [c] + cs);
        }
      }
      forall cs | IsEncodingOf(s[i..], cs) ensures IsUtf8(s, i) {
        EncodedIsCharacter(s, i, cs[0]);
        assert s[i + n..] == s[i..][n..] == EncodedAll(cs[1..]);
        assert IsEncodingOf(s[i + n..], cs[1..]);
      }
    }
  }
}
