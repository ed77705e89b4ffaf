/** The scanner's language in the writer's terms: which texts it accepts, for any body. */
module JsonLanguage {
  import opened Wrappers
  import opened JsonText
  import opened JsonStandard
  import opened JsonGrammar
  import opened JsonScanner
  import opened JsonFullParse

  /** A reader for which every literal is as good as any other. */
  const ANY_LITERAL: Decoder := (lit: bytes) => Some("")

  /** The value is put together from the productions of the standard, with the three extra
      numbers and with escapes unchecked. */
  ghost predicate WellBuilt(v: Json) { Parses(v, ANY_LITERAL) }

  // ----- what fits is a text

  lemma {:induction false} UnitsOfLiteral(b: bytes, i: nat, lit: bytes, k: nat, end: nat)
    requires At(b, i, lit) && end <= |lit| && Units(b, i + k, i + end)
    ensures Units(lit, k, end)
    decreases end - k
  {
    if k < end {
      assert b[i + k] == b[i..i + |lit|][k];
      if IsPlain(b[i + k]) { UnitsOfLiteral(b, i, lit, k + 1, end); } else { UnitsOfLiteral(b, i, lit, k + 2, end); }
    }
  }

  lemma PlacedLiteral(b: bytes, i: nat, lit: bytes)
    requires Literal(b, i, lit)
    ensures IsStringText(lit)
  {
    UnitsOfLiteral(b, i, lit, 1, |lit| - 1);
    assert lit[0] == b[i..i + |lit|][0] && lit[|lit| - 1] == b[i..i + |lit|][|lit| - 1];
    StringIff(lit);
  }

  /** The text of the value stands where the value fits, and its tokens are readable. */
  ghost predicate IsThere(b: bytes, i: nat, v: Json) {
    At(b, i, Text(v)) && WellBuilt(v) && Readable(b, Tokens(i, v))
  }

  ghost predicate ItemsAreThere(b: bytes, i: nat, s: Items) {
    At(b, i, ItemsText(s)) && ItemsParse(s, ANY_LITERAL) && Readable(b, ItemsTokens(i, s))
  }

  ghost predicate MembersAreThere(b: bytes, i: nat, s: Members) {
    At(b, i, MembersText(s)) && MembersParse(s, ANY_LITERAL) && Readable(b, MembersTokens(i, s))
  }

  lemma BracketJoined(b: bytes, i: nat, c: byte, t: bytes)
    requires Mark(b, i, c) && At(b, i + 1, t)
    ensures At(b, i, [c] + t)
  {
    AtMark(b, i, c);
    AtSplit(b, i, [c], t);
  }

  lemma PaddedMark(b: bytes, i: nat, open: byte, pad: bytes, close: byte)
    requires Mark(b, i, open) && Pad(b, i + 1, pad) && Mark(b, i + 1 + |pad|, close)
    ensures At(b, i, [open] + (pad + [close]))
  {
    hide At;
    AtMark(b, i + 1 + |pad|, close);
    AtSplit(b, i + 1, pad, [close]);
    BracketJoined(b, i, open, pad + [close]);
  }

  lemma {:induction false} FitsIsThere(b: bytes, i: nat, v: Json)
    requires Fits(b, i, v)
    ensures IsThere(b, i, v)
    decreases v
  {
    hide At, Blank, IsUtf8, IsNumberText, IsStringText, NumberAt, ItemsParse, MembersParse, ItemsText, MembersText, StringAt,
         FitsItems, FitsMembers, IsNumber;
    match v
    case Str(lit) => PlacedLiteral(b, i, lit);
    case Num(text) =>
      NumberIsThere(b, i, text);
      NumberIff(text);
    case Word(text) =>
    case EmptyArray(pad) => PaddedMark(b, i, LBRACKET, pad, RBRACKET);
    case Array(items) =>
      ItemsFitThere(b, i + 1, items);
      BracketJoined(b, i, LBRACKET, ItemsText(items));
    case EmptyObject(pad) => PaddedMark(b, i, LBRACE, pad, RBRACE);
    case Object(members) =>
      MembersFitThere(b, i + 1, members);
      BracketJoined(b, i, LBRACE, MembersText(members));
  }

  ghost predicate SlotIsThere(b: bytes, i: nat, s: Slot) {
    At(b, i, SlotText(s)) && SlotParses(s, ANY_LITERAL) && Readable(b, SlotTokens(i, s))
  }

  lemma {:induction false} SlotFitsThere(b: bytes, i: nat, s: Slot)
    requires FitsSlot(b, i, s)
    ensures SlotIsThere(b, i, s)
    decreases s
  {
    hide At, Blank, Fits, Text, Tokens, Parses, Readable;
    var p := i + |s.before|;
    FitsIsThere(b, p, s.value);
    AtSplit(b, p, Text(s.value), s.after);
    AtSplit(b, i, s.before, Text(s.value) + s.after);
  }

  lemma {:induction false} ItemsFitThere(b: bytes, i: nat, s: Items)
    requires FitsItems(b, i, s)
    ensures ItemsAreThere(b, i, s)
    decreases s
  {
    hide At, FitsSlot, SlotText, SlotTokens, SlotParses, Readable;
    SlotFitsThere(b, i, s.slot);
    var e := i + SlotSize(s.slot);
    if s.LastItem? {
      AtMark(b, e, RBRACKET);
      AtSplit(b, i, SlotText(s.slot), [RBRACKET]);
      assert SlotTokens(i, s.slot) + {} == SlotTokens(i, s.slot);
    } else {
      ItemsFitThere(b, e + 1, s.rest);
      BracketJoined(b, e, COMMA, ItemsText(s.rest));
      AtSplit(b, i, SlotText(s.slot), [COMMA] + ItemsText(s.rest));
      ReadableTogether(b, SlotTokens(i, s.slot), ItemsTokens(e + 1, s.rest));
    }
  }

  lemma PlacedKey(b: bytes, i: nat, k: Key)
    requires FitsKey(b, i, k)
    ensures At(b, i, KeyText(k)) && KeyParses(k, ANY_LITERAL)
  {
    hide At, Blank, StringAt, IsStringText;
    var l := i + |k.before|;
    PlacedLiteral(b, l, k.lit);
    AtSplit(b, l, k.lit, k.after);
    AtSplit(b, i, k.before, k.lit + k.after);
  }

  lemma PiecesJoined(b: bytes, i: nat, key: bytes, slot: bytes, tail: bytes)
    requires At(b, i, key) && Mark(b, i + |key|, COLON) && At(b, i + |key| + 1, slot)
    requires At(b, i + |key| + 1 + |slot|, tail)
    ensures At(b, i, key + ([COLON] + (slot + tail)))
  {
    hide At;
    AtSplit(b, i + |key| + 1, slot, tail);
    BracketJoined(b, i + |key|, COLON, slot + tail);
    AtSplit(b, i, key, [COLON] + (slot + tail));
  }

  lemma {:induction false} MembersFitThere(b: bytes, i: nat, s: Members)
    requires FitsMembers(b, i, s)
    ensures MembersAreThere(b, i, s)
    decreases s
  {
    hide At, FitsSlot, FitsKey, SlotText, SlotSize, KeyText, KeySize, SlotTokens, SlotParses, KeyParses, Readable;
    var p := i + KeySize(s.key) + 1;
    var e := p + SlotSize(s.slot);
    assert Mark(b, i + KeySize(s.key), COLON) by { KeyHasColon(b, i, s.key); }
    PlacedKey(b, i, s.key);
    SlotFitsThere(b, p, s.slot);
    if s.LastMember? {
      AtMark(b, e, RBRACE);
      assert SlotTokens(p, s.slot) + {} == SlotTokens(p, s.slot);
    } else {
      MembersFitThere(b, e + 1, s.rest);
      BracketJoined(b, e, COMMA, MembersText(s.rest));
      ReadableTogether(b, SlotTokens(p, s.slot), MembersTokens(e + 1, s.rest));
    }
    PiecesJoined(b, i, KeyText(s.key), SlotText(s.slot), TailText(s));
  }

  lemma KeyHasColon(b: bytes, i: nat, k: Key)
    requires FitsKey(b, i, k)
    ensures Mark(b, i + KeySize(k), COLON)
  {
  }

  // ----- which literals have to decode

  /** Every key decodes, and so does every string that is a model or a request id. */
  ghost predicate LiteralsDecode(s: Members, decode: Decoder)
    decreases s
  {
    && decode(s.key.lit).Some?
    && (decode(s.key.lit).value in ["model", "request_id"] && s.slot.value.Str? ==> decode(s.slot.value.lit).Some?)
    && (s.MoreMembers? ==> LiteralsDecode(s.rest, decode))
  }

  lemma {:induction false} ReadIff(md: Metadata, decode: Decoder, s: Members)
    ensures ReadMembers(md, decode, s).Some? <==> LiteralsDecode(s, decode)
    decreases s
  {
    var next := ReadMember(md, decode, s.key.lit, s.slot.value);
    if next.Some? && s.MoreMembers? { ReadIff(next.value, decode, s.rest); }
  }

  // ----- the language

  /** The body is an object with blanks around it, put together as the standard says. */
  ghost predicate IsObjectText(b: bytes, lead: bytes, v: Json, trail: bytes) {
    IsPrinted(b, lead, v, trail) && Blank(lead) && Blank(trail) && (v.EmptyObject? || v.Object?) && WellBuilt(v)
  }

  /** What the scanner demands beyond that: short number tokens whose window decodes, the
      nesting limit, and the literals it looks at. */
  ghost predicate IsScannable(b: bytes, lead: bytes, v: Json, decode: Decoder, limit: nat) {
    && Readable(b, Tokens(|lead|, v)) && Depth(v) <= limit + 1
    && (v.Object? ==> LiteralsDecode(v.members, decode))
  }

  lemma BodyIsText(b: bytes, v: Json) returns (lead: bytes, trail: bytes)
    requires IsBody(b, v)
    ensures IsObjectText(b, lead, v, trail) && Readable(b, Tokens(|lead|, v))
  {
    hide At, Fits, Text, Tokens, Parses, Readable, Size;
    var i := BlankEnd(b, 0);
    FitsIsThere(b, i, v);
    lead, trail := Run(b, 0), Run(b, i + Size(v));
    Whole(b, lead, Text(v), trail);
  }

  lemma Whole(b: bytes, lead: bytes, text: bytes, trail: bytes)
    requires At(b, 0, lead) && At(b, |lead|, text) && At(b, |lead| + |text|, trail) && |lead| + |text| + |trail| == |b|
    ensures b == lead + text + trail
  {
    assert b == b[..|lead|] + b[|lead|..|lead| + |text|] + b[|lead| + |text|..];
  }

  /** Whatever the body: the scanner accepts exactly the object texts it can scan. */
  lemma AcceptedIff(b: bytes, decode: Decoder, limit: nat)
    ensures AcceptedWithin(b, decode, limit)
      <==> exists lead, v, trail :: IsObjectText(b, lead, v, trail) && IsScannable(b, lead, v, decode, limit)
  {
    hide Parses, Blank, Readable, Tokens, Depth, IsBody, IsPrinted, LiteralsDecode, ReadMembers;
    if AcceptedWithin(b, decode, limit) {
      var md :| AcceptsWithin(b, decode, limit, md);
      var v :| IsBody(b, v) && ReadObject(decode, v) == Some(md) && Depth(v) <= limit + 1;
      var lead, trail := BodyIsText(b, v);
      BodyIsObject(b, v);
      if v.Object? { ReadIff(NO_METADATA, decode, v.members); }
      assert IsScannable(b, lead, v, decode, limit);
    }
    forall lead, v, trail | IsObjectText(b, lead, v, trail) && IsScannable(b, lead, v, decode, limit)
      ensures AcceptedWithin(b, decode, limit)
    {
      PrintedBody(b, lead, v, trail, ANY_LITERAL);
      if v.Object? { ReadIff(NO_METADATA, decode, v.members); }
      assert ReadObject(decode, v).Some?;
      assert AcceptsWithin(b, decode, limit, ReadObject(decode, v).value);
    }
  }

  lemma BodyIsObject(b: bytes, v: Json)
    requires IsBody(b, v)
    ensures v.EmptyObject? || v.Object?
  {
  }
}
