/** The lexical level of JSON text as the router reads it: blanks, string literals,
    numbers and UTF-8 (sections 2, 6 and 7 of RFC 8259, relaxed as the code relaxes them). */
module JsonText {
  import opened Wrappers

  type bytes = seq<byte>

  const QUOTE: byte := 0x22
  const BACKSLASH: byte := 0x5C
  const COLON: byte := 0x3A
  const COMMA: byte := 0x2C
  const LBRACE: byte := 0x7B
  const RBRACE: byte := 0x7D
  const LBRACKET: byte := 0x5B
  const RBRACKET: byte := 0x5D
  const TRUE_TEXT: bytes := [0x74, 0x72, 0x75, 0x65]
  const FALSE_TEXT: bytes := [0x66, 0x61, 0x6C, 0x73, 0x65]
  const NULL_TEXT: bytes := [0x6E, 0x75, 0x6C, 0x6C]

  /** The text s stands in b at position i. */
  predicate At(b: bytes, i: nat, s: bytes) { i + |s| <= |b| && b[i..i + |s|] == s }

  // ----- blanks

  predicate IsBlank(c: byte) { c == 0x20 || c == 0x09 || c == 0x0D || c == 0x0A }

  ghost predicate Blank(s: bytes) { forall k :: 0 <= k < |s| ==> IsBlank(s[k]) }

  /** The end of the run of blanks at position i. */
  ghost function BlankEnd(b: bytes, i: nat): (e: nat)
    requires i <= |b|
    ensures i <= e <= |b|
    decreases |b| - i
  {
    if i < |b| && IsBlank(b[i]) then BlankEnd(b, i + 1) else i
  }

  lemma {:induction false} BlankEndIsRun(b: bytes, i: nat)
    requires i <= |b|
    ensures forall k :: i <= k < BlankEnd(b, i) ==> IsBlank(b[k])
    ensures BlankEnd(b, i) < |b| ==> !IsBlank(b[BlankEnd(b, i)])
    decreases |b| - i
  {
    if i < |b| && IsBlank(b[i]) { BlankEndIsRun(b, i + 1); }
  }

  /** Blanks up to a position that is not blank are the whole run. */
  lemma BlankEndIs(b: bytes, i: nat, e: nat)
    requires i <= e <= |b|
    requires forall k :: i <= k < e ==> IsBlank(b[k])
    requires e < |b| ==> !IsBlank(b[e])
    ensures BlankEnd(b, i) == e
  {
    BlankEndIsRun(b, i);
  }

  lemma BlankEndTwice(b: bytes, i: nat)
    requires i <= |b|
    ensures BlankEnd(b, BlankEnd(b, i)) == BlankEnd(b, i)
  {
    BlankEndIsRun(b, i);
  }

  lemma PadIsRun(b: bytes, i: nat, pad: bytes)
    requires At(b, i, pad) && Blank(pad)
    requires i + |pad| < |b| ==> !IsBlank(b[i + |pad|])
    ensures i <= |b| && BlankEnd(b, i) == i + |pad|
  {
    forall k | i <= k < i + |pad| ensures IsBlank(b[k]) {
      assert b[k] == b[i..i + |pad|][k - i];
    }
    BlankEndIs(b, i, i + |pad|);
  }

  /** The run of blanks as a text. */
  ghost function Run(b: bytes, i: nat): (pad: bytes)
    requires i <= |b|
    ensures At(b, i, pad) && Blank(pad) && i + |pad| == BlankEnd(b, i)
  {
    BlankEndIsRun(b, i);
    b[i..BlankEnd(b, i)]
  }

  // ----- string literals

  predicate IsPlain(c: byte) { c != QUOTE && c != BACKSLASH && c >= 0x20 }

  /** b[k..end] is a sequence of plain bytes and backslash pairs; what follows a
      backslash is not looked at. */
  ghost predicate Units(b: bytes, k: nat, end: nat)
    requires end <= |b|
    decreases end - k
  {
    || k == end
    || (k < end && IsPlain(b[k]) && Units(b, k + 1, end))
    || (k + 2 <= end && b[k] == BACKSLASH && Units(b, k + 2, end))
  }

  /** From inside a literal at k, the closing quote is at j - 1. */
  ghost predicate Closes(b: bytes, k: nat, j: nat) {
    k < j <= |b| && b[j - 1] == QUOTE && Units(b, k, j - 1)
  }

  /** b[i..j] is a string literal. */
  ghost predicate StringAt(b: bytes, i: nat, j: nat) {
    i < |b| && b[i] == QUOTE && Closes(b, i + 1, j)
  }

  lemma {:induction false} ClosesUnique(b: bytes, k: nat, j: nat, l: nat)
    requires Closes(b, k, j) && Closes(b, k, l)
    ensures j == l
    decreases |b| - k
  {
    if b[k] == BACKSLASH {
      ClosesUnique(b, k + 2, j, l);
    } else if b[k] != QUOTE {
      ClosesUnique(b, k + 1, j, l);
    }
  }

  // ----- numbers

  predicate IsDigit(c: byte) { 0x30 <= c <= 0x39 }

  /** The end of the run of digits at position i. */
  function DigitsEnd(s: bytes, i: nat): (e: nat)
    requires i <= |s|
    ensures i <= e <= |s|
    ensures forall k :: i <= k < e ==> IsDigit(s[k])
    decreases |s| - i
  {
    if i < |s| && IsDigit(s[i]) then DigitsEnd(s, i + 1) else i
  }

  const NAN_TEXT: bytes := [0x4E, 0x61, 0x4E]
  const INFINITY_TEXT: bytes := [0x49, 0x6E, 0x66, 0x69, 0x6E, 0x69, 0x74, 0x79]

  /** The numbers Python's decoder accepts: those of section 6 of RFC 8259, and NaN,
      Infinity and -Infinity. */
  predicate IsNumber(s: bytes) {
    || s == NAN_TEXT || s == INFINITY_TEXT || s == [0x2D] + INFINITY_TEXT
    || IsDecimal(s)
  }

  predicate IsDecimal(s: bytes) {
    var i := if s != [] && s[0] == 0x2D then 1 else 0;
    var d := DigitsEnd(s, i);
    i < d && (s[i] == 0x30 ==> d == i + 1) && IsFraction(s, d)
  }

  /** An optional fraction and an optional exponent, up to the end. */
  predicate IsFraction(s: bytes, i: nat)
    requires i <= |s|
  {
    if i < |s| && s[i] == 0x2E then
      var d := DigitsEnd(s, i + 1);
      i + 1 < d && IsExponent(s, d)
    else IsExponent(s, i)
  }

  predicate IsExponent(s: bytes, i: nat)
    requires i <= |s|
  {
    if i == |s| then true
    else if s[i] == 0x65 || s[i] == 0x45 then
      var j := if i + 1 < |s| && (s[i + 1] == 0x2B || s[i + 1] == 0x2D) then i + 2 else i + 1;
      j < DigitsEnd(s, j) == |s|
    else false
  }

  /** The bytes a number can contain. */
  predicate IsNumberByte(c: byte) {
    IsDigit(c) || c in [0x2B, 0x2D, 0x2E, 0x45, 0x65, 0x4E, 0x61, 0x49, 0x6E, 0x66, 0x69, 0x74, 0x79]
  }

  /** A text with any other byte is not a number. */
  lemma NotANumber(s: bytes, k: nat)
    requires k < |s| && !IsNumberByte(s[k])
    ensures !IsNumber(s)
  {
    if IsDecimal(s) {
      var i := if s[0] == 0x2D then 1 else 0;
      FractionBytes(s, DigitsEnd(s, i));
    }
  }

  lemma FractionBytes(s: bytes, i: nat)
    requires i <= |s| && IsFraction(s, i)
    ensures forall k :: i <= k < |s| ==> IsNumberByte(s[k])
  {
    if i < |s| && s[i] == 0x2E {
      ExponentBytes(s, DigitsEnd(s, i + 1));
    } else {
      ExponentBytes(s, i);
    }
  }

  lemma ExponentBytes(s: bytes, i: nat)
    requires i <= |s| && IsExponent(s, i)
    ensures forall k :: i <= k < |s| ==> IsNumberByte(s[k])
  {
  }

  lemma NumberStart(s: bytes)
    requires IsNumber(s)
    ensures s != [] && (IsDigit(s[0]) || s[0] in [0x2D, 0x4E, 0x49])
  {
  }

  // ----- UTF-8

  predicate IsTail(c: byte) { 0x80 <= c <= 0xBF }

  /** The number of bytes of the well-formed character at position i, or 0. */
  function CharacterSize(s: bytes, i: nat): (n: nat)
    requires i < |s|
    ensures i + n <= |s| && n <= 4
    ensures s[i] < 0x80 ==> n == 1
  {
    var c := s[i];
    if c < 0x80 then 1
    else if 0xC2 <= c <= 0xDF && i + 1 < |s| && IsTail(s[i + 1]) then 2
    else if 0xE0 <= c <= 0xEF && i + 2 < |s| && IsTail(s[i + 1]) && IsTail(s[i + 2])
         && (c == 0xE0 ==> s[i + 1] >= 0xA0) && (c == 0xED ==> s[i + 1] <= 0x9F) then 3
    else if 0xF0 <= c <= 0xF4 && i + 3 < |s| && IsTail(s[i + 1]) && IsTail(s[i + 2]) && IsTail(s[i + 3])
         && (c == 0xF0 ==> s[i + 1] >= 0x90) && (c == 0xF4 ==> s[i + 1] <= 0x8F) then 4
    else 0
  }

  predicate IsUtf8(s: bytes, i: nat)
    requires i <= |s|
    decreases |s| - i
  {
    i == |s| || (CharacterSize(s, i) > 0 && IsUtf8(s, i + CharacterSize(s, i)))
  }

  ghost predicate IsAscii(s: bytes) { forall k :: 0 <= k < |s| ==> s[k] < 0x80 }

  lemma {:induction false} AsciiIsUtf8(s: bytes, i: nat)
    requires IsAscii(s) && i <= |s|
    ensures IsUtf8(s, i)
    decreases |s| - i
  {
    if i < |s| { AsciiIsUtf8(s, i + 1); }
  }

  // ----- a number in its window

  const NUMBER_WINDOW: nat := 128

  function Window(b: bytes, i: nat): bytes
    requires i <= |b|
  {
    b[i..Min(|b|, i + NUMBER_WINDOW)]
  }

  /** The window at i decodes, and its longest prefix that is a number ends at j. */
  ghost predicate NumberAt(b: bytes, i: nat, j: nat) {
    && i <= j <= |b|
    && var w := Window(b, i);
       IsUtf8(w, 0) && j - i <= |w| && IsNumber(w[..j - i])
       && forall k :: j - i < k <= |w| ==> !IsNumber(w[..k])
  }

  /** The foreign number match of the decoder: the longest prefix that is a number. */
  function LongestNumber(w: bytes, n: nat): (r: Option<nat>)
    requires n <= |w|
    ensures r.Some? ==> r.value <= n && IsNumber(w[..r.value]) && forall k :: r.value < k <= n ==> !IsNumber(w[..k])
    ensures r.None? ==> forall k :: 0 <= k <= n ==> !IsNumber(w[..k])
  {
    if IsNumber(w[..n]) then Some(n) else if n == 0 then None else LongestNumber(w, n - 1)
  }

  /** A number of at most 128 bytes whose window decodes, followed by a byte that no number
      contains or by the end, is found. */
  lemma NumberBeforeDelimiter(b: bytes, i: nat, s: bytes)
    requires At(b, i, s) && IsNumber(s) && |s| <= NUMBER_WINDOW && IsUtf8(Window(b, i), 0)
    requires i + |s| < |b| ==> !IsNumberByte(b[i + |s|])
    ensures NumberAt(b, i, i + |s|)
  {
    hide IsNumber, IsUtf8, IsNumberByte;
    var w := Window(b, i);
    assert w[..|s|] == s;
    forall k | |s| < k <= |w| ensures !IsNumber(w[..k]) {
      assert w[..k][|s|] == b[i + |s|];
      NotANumber(w[..k], |s|);
    }
  }
}
