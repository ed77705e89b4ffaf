/** The full parse of a body, as a syntax tree with its printed text, and the agreement
    of the scanner with it. */
module JsonFullParse {
  import opened Wrappers
  import opened JsonText
  import opened JsonStandard
  import opened JsonGrammar
  import opened JsonScanner

  // ----- printing

  ghost function Text(v: Json): (t: bytes)
    ensures |t| == Size(v)
    decreases v
  {
    match v
    case Str(lit) => lit
    case Num(text) => text
    case Word(text) => text
    case EmptyArray(pad) => [LBRACKET] + (pad + [RBRACKET])
    case Array(items) => [LBRACKET] + ItemsText(items)
    case EmptyObject(pad) => [LBRACE] + (pad + [RBRACE])
    case Object(members) => [LBRACE] + MembersText(members)
  }

  ghost function SlotText(s: Slot): (t: bytes)
    ensures |t| == SlotSize(s)
    decreases s
  {
    s.before + (Text(s.value) + s.after)
  }

  ghost function ItemsText(s: Items): (t: bytes)
    ensures |t| == ItemsSize(s)
    decreases s
  {
    SlotText(s.slot) + if s.LastItem? then [RBRACKET] else [COMMA] + ItemsText(s.rest)
  }

  ghost function KeyText(k: Key): (t: bytes)
    ensures |t| == KeySize(k)
  {
    k.before + (k.lit + k.after)
  }

  ghost function MembersText(s: Members): (t: bytes)
    ensures |t| == MembersSize(s)
    decreases s, 1
  {
    KeyText(s.key) + ([COLON] + (SlotText(s.slot) + TailText(s)))
  }

  /** What follows the first member: the closing brace, or a comma and the other members. */
  ghost function TailText(s: Members): (t: bytes)
    ensures |t| == 1 + if s.MoreMembers? then MembersSize(s.rest) else 0
    decreases s, 0
  {
    if s.LastMember? then [RBRACE] else [COMMA] + MembersText(s.rest)
  }

  // ----- which trees a full parse can yield

  ghost predicate IsLiteral(lit: bytes, decode: Decoder) { IsStringText(lit) && decode(lit).Some? }

  /** A text the full parser accepts: numbers and literals are put together from their parts. */
  ghost predicate Parses(v: Json, decode: Decoder)
    decreases v
  {
    match v
    case Str(lit) => IsLiteral(lit, decode)
    case Num(text) => IsNumberText(text)
    case Word(text) => IsWord(text)
    case EmptyArray(pad) => Blank(pad)
    case Array(items) => ItemsParse(items, decode)
    case EmptyObject(pad) => Blank(pad)
    case Object(members) => MembersParse(members, decode)
  }

  ghost predicate SlotParses(s: Slot, decode: Decoder)
    decreases s
  {
    Blank(s.before) && Parses(s.value, decode) && Blank(s.after)
  }

  ghost predicate ItemsParse(s: Items, decode: Decoder)
    decreases s
  {
    SlotParses(s.slot, decode) && (s.MoreItems? ==> ItemsParse(s.rest, decode))
  }

  ghost predicate KeyParses(k: Key, decode: Decoder) {
    Blank(k.before) && IsLiteral(k.lit, decode) && Blank(k.after)
  }

  ghost predicate MembersParse(s: Members, decode: Decoder)
    decreases s
  {
    KeyParses(s.key, decode) && SlotParses(s.slot, decode) && (s.MoreMembers? ==> MembersParse(s.rest, decode))
  }

  // ----- the number tokens of a text

  datatype NumberToken = NumberToken(at: nat, text: bytes)

  /** The number tokens of a value printed at i, with their positions. */
  ghost function Tokens(i: nat, v: Json): set<NumberToken>
    decreases v
  {
    match v
    case Num(text) => {NumberToken(i, text)}
    case Array(items) => ItemsTokens(i + 1, items)
    case Object(members) => MembersTokens(i + 1, members)
    case _ => {}
  }

  ghost function SlotTokens(i: nat, s: Slot): set<NumberToken>
    decreases s
  {
    Tokens(i + |s.before|, s.value)
  }

  ghost function ItemsTokens(i: nat, s: Items): set<NumberToken>
    decreases s
  {
    SlotTokens(i, s.slot) + if s.MoreItems? then ItemsTokens(i + SlotSize(s.slot) + 1, s.rest) else {}
  }

  ghost function MembersTokens(i: nat, s: Members): set<NumberToken>
    decreases s
  {
    var p := i + KeySize(s.key) + 1;
    SlotTokens(p, s.slot) + if s.MoreMembers? then MembersTokens(p + SlotSize(s.slot) + 1, s.rest) else {}
  }

  /** Each token has at most 128 bytes, and the 128 bytes from its start on decode. */
  ghost predicate Readable(b: bytes, tokens: set<NumberToken>) {
    forall t :: t in tokens ==> t.at <= |b| && |t.text| <= 128 && IsUtf8(b[t.at..Min(|b|, t.at + 128)], 0)
  }

  // ----- printed text fits where it stands

  lemma AtSplit(b: bytes, i: nat, s: bytes, t: bytes)
    ensures At(b, i, s + t) <==> At(b, i, s) && At(b, i + |s|, t)
  {
    if At(b, i, s + t) {
      assert b[i..i + |s|] == b[i..i + |s + t|][..|s|] == (s + t)[..|s|] == s;
      assert b[i + |s|..i + |s| + |t|] == b[i..i + |s + t|][|s|..] == (s + t)[|s|..] == t;
    }
    if At(b, i, s) && At(b, i + |s|, t) {
      assert b[i..i + |s + t|] == b[i..i + |s|] + b[i + |s|..i + |s| + |t|];
    }
  }

  lemma AtMark(b: bytes, i: nat, c: byte)
    ensures At(b, i, [c]) <==> Mark(b, i, c)
  {
  }

  /** The byte at i, if any, cannot continue a number. */
  ghost predicate Delimited(b: bytes, i: nat) { i < |b| ==> !IsNumberByte(b[i]) }

  /** After a value come its blanks and then a mark; neither continues a number. */
  lemma SlotDelimits(b: bytes, i: nat, after: bytes)
    requires Pad(b, i, after) && Delimited(b, i + |after|)
    ensures Delimited(b, i)
  {
    if after != [] { assert b[i] == b[i..i + |after|][0]; }
  }

  lemma LiteralFits(b: bytes, i: nat, lit: bytes, decode: Decoder)
    requires At(b, i, lit) && IsLiteral(lit, decode)
    ensures Literal(b, i, lit)
  {
    StringIff(lit);
    UnitsMoved(lit, 1, |lit| - 1, b, i);
    assert b[i] == b[i..i + |lit|][0] && b[i + |lit| - 1] == b[i..i + |lit|][|lit| - 1];
  }

  lemma {:induction false} UnitsMoved(s: bytes, k: nat, end: nat, b: bytes, i: nat)
    requires At(b, i, s) && end <= |s| && Units(s, k, end)
    ensures Units(b, i + k, i + end)
    decreases end - k
  {
    if k < end {
      assert b[i + k] == b[i..i + |s|][k];
      if IsPlain(s[k]) { UnitsMoved(s, k + 1, end, b, i); } else { UnitsMoved(s, k + 2, end, b, i); }
    }
  }

  lemma {:induction false} PrintedFits(b: bytes, i: nat, v: Json, decode: Decoder)
    requires Readable(b, Tokens(i, v)) && At(b, i, Text(v)) && Parses(v, decode) && Delimited(b, i + Size(v))
    ensures Fits(b, i, v)
    decreases v
  {
    hide IsUtf8, At, Blank, IsNumber, IsNumberText, IsStringText;
    match v
    case Str(lit) => LiteralFits(b, i, lit, decode);
    case Num(text) =>
      NumberIff(text);
      NumberBeforeDelimiter(b, i, text);
    case Word(text) =>
    case EmptyArray(pad) =>
      BracketedAt(b, i, LBRACKET, pad + [RBRACKET]);
      AtSplit(b, i + 1, pad, [RBRACKET]);
      AtMark(b, i + 1 + |pad|, RBRACKET);
    case Array(items) =>
      BracketedAt(b, i, LBRACKET, ItemsText(items));
      PrintedItemsFit(b, i + 1, items, decode);
    case EmptyObject(pad) =>
      BracketedAt(b, i, LBRACE, pad + [RBRACE]);
      AtSplit(b, i + 1, pad, [RBRACE]);
      AtMark(b, i + 1 + |pad|, RBRACE);
    case Object(members) =>
      BracketedAt(b, i, LBRACE, MembersText(members));
      PrintedMembersFit(b, i + 1, members, decode);
  }

  lemma BracketedAt(b: bytes, i: nat, c: byte, t: bytes)
    requires At(b, i, [c] + t)
    ensures Mark(b, i, c) && At(b, i + 1, t)
  {
    AtSplit(b, i, [c], t);
    AtMark(b, i, c);
  }

  lemma {:induction false} PrintedSlotFits(b: bytes, i: nat, s: Slot, decode: Decoder)
    requires Readable(b, SlotTokens(i, s)) && At(b, i, SlotText(s)) && SlotParses(s, decode) && Delimited(b, i + SlotSize(s))
    ensures FitsSlot(b, i, s)
    decreases s
  {
    hide IsUtf8, At, Blank, Parses, Fits;
    var v := i + |s.before|;
    AtSplit(b, i, s.before, Text(s.value) + s.after);
    AtSplit(b, v, Text(s.value), s.after);
    SlotDelimits(b, v + Size(s.value), s.after);
    PrintedFits(b, v, s.value, decode);
  }

  lemma {:induction false} PrintedItemsFit(b: bytes, i: nat, s: Items, decode: Decoder)
    requires Readable(b, ItemsTokens(i, s)) && At(b, i, ItemsText(s)) && ItemsParse(s, decode)
    ensures FitsItems(b, i, s)
    decreases s
  {
    hide IsUtf8, At, SlotParses, FitsSlot, SlotText;
    var e := i + SlotSize(s.slot);
    if s.LastItem? {
      AtSplit(b, i, SlotText(s.slot), [RBRACKET]);
      AtMark(b, e, RBRACKET);
    } else {
      AtSplit(b, i, SlotText(s.slot), [COMMA] + ItemsText(s.rest));
      BracketedAt(b, e, COMMA, ItemsText(s.rest));
      PrintedItemsFit(b, e + 1, s.rest, decode);
    }
    PrintedSlotFits(b, i, s.slot, decode);
  }

  lemma PrintedKeyFits(b: bytes, i: nat, k: Key, decode: Decoder)
    requires At(b, i, KeyText(k)) && KeyParses(k, decode) && Mark(b, i + KeySize(k), COLON)
    ensures FitsKey(b, i, k)
  {
    hide At, Blank;
    var l := i + |k.before|;
    AtSplit(b, i, k.before, k.lit + k.after);
    AtSplit(b, l, k.lit, k.after);
    LiteralFits(b, l, k.lit, decode);
  }

  lemma MembersReadable(b: bytes, i: nat, s: Members)
    requires Readable(b, MembersTokens(i, s))
    ensures Readable(b, SlotTokens(i + KeySize(s.key) + 1, s.slot))
    ensures (s.MoreMembers?
      ==> Readable(b, MembersTokens(i + KeySize(s.key) + 1 + SlotSize(s.slot) + 1, s.rest)))
  {
    hide SlotTokens, SlotSize, KeySize, IsUtf8;
  }

  lemma ThreePieces(b: bytes, i: nat, key: bytes, slot: bytes, tail: bytes)
    requires At(b, i, key + ([COLON] + (slot + tail)))
    ensures At(b, i, key) && Mark(b, i + |key|, COLON) && At(b, i + |key| + 1, slot)
    ensures At(b, i + |key| + 1 + |slot|, tail)
  {
    hide At;
    AtSplit(b, i, key, [COLON] + (slot + tail));
    BracketedAt(b, i + |key|, COLON, slot + tail);
    AtSplit(b, i + |key| + 1, slot, tail);
  }

  lemma TailPieces(b: bytes, e: nat, s: Members)
    requires At(b, e, TailText(s))
    ensures if s.LastMember? then Mark(b, e, RBRACE) else Mark(b, e, COMMA) && At(b, e + 1, MembersText(s.rest))
  {
    hide At, MembersText;
    if s.LastMember? { AtMark(b, e, RBRACE); } else { BracketedAt(b, e, COMMA, MembersText(s.rest)); }
  }

  lemma MembersAt(b: bytes, i: nat, s: Members)
    requires At(b, i, MembersText(s))
    ensures At(b, i, KeyText(s.key) + ([COLON] + (SlotText(s.slot) + TailText(s))))
  {
    hide At, KeyText, SlotText, TailText;
  }

  /** Where the parts of printed members stand. */
  lemma MembersPieces(b: bytes, i: nat, s: Members)
    requires At(b, i, MembersText(s))
    ensures At(b, i, KeyText(s.key)) && Mark(b, i + KeySize(s.key), COLON)
    ensures At(b, i + KeySize(s.key) + 1, SlotText(s.slot))
    ensures (var e := i + KeySize(s.key) + 1 + SlotSize(s.slot);
      if s.LastMember? then Mark(b, e, RBRACE) else Mark(b, e, COMMA) && At(b, e + 1, MembersText(s.rest)))
  {
    hide *;
    MembersAt(b, i, s);
    var key, slot, tail := KeyText(s.key), SlotText(s.slot), TailText(s);
    ThreePieces(b, i, key, slot, tail);
    TailPieces(b, i + |key| + 1 + |slot|, s);
  }

  lemma {:induction false} PrintedMembersFit(b: bytes, i: nat, s: Members, decode: Decoder)
    requires Readable(b, MembersTokens(i, s)) && At(b, i, MembersText(s)) && MembersParse(s, decode)
    ensures FitsMembers(b, i, s)
    decreases s
  {
    hide Readable, At, SlotParses, FitsSlot, SlotText, KeyText, KeyParses, FitsKey, SlotSize, KeySize;
    MembersReadable(b, i, s);
    var p := i + KeySize(s.key) + 1;
    MembersPieces(b, i, s);
    PrintedKeyFits(b, i, s.key, decode);
    if s.MoreMembers? { PrintedMembersFit(b, p + SlotSize(s.slot) + 1, s.rest, decode); }
    PrintedSlotFits(b, p, s.slot, decode);
  }

  // ----- no other tree fits a printed text

  /** The first byte of a printed value, as for a placed one. */
  lemma TextStart(b: bytes, i: nat, v: Json, decode: Decoder)
    requires At(b, i, Text(v)) && Parses(v, decode)
    ensures i < |b| && !IsBlank(b[i]) && Size(v) > 0
    ensures b[i] == QUOTE <==> v.Str?
    ensures b[i] == LBRACKET <==> v.EmptyArray? || v.Array?
    ensures b[i] == LBRACE <==> v.EmptyObject? || v.Object?
    ensures b[i] in [0x74, 0x66, 0x6E] <==> v.Word?
    ensures b[i] != RBRACKET && b[i] != RBRACE
  {
    hide Parses;
    var text := Text(v);
    assert TextFirst(v, decode) by { TextFirstIs(v, decode); }
    assert b[i] == b[i..i + |text|][0] == text[0];
  }

  ghost predicate TextFirst(v: Json, decode: Decoder) {
    && Size(v) > 0
    && var c := Text(v)[0];
       && !IsBlank(c) && c != RBRACKET && c != RBRACE
       && (c == QUOTE <==> v.Str?)
       && (c == LBRACKET <==> v.EmptyArray? || v.Array?)
       && (c == LBRACE <==> v.EmptyObject? || v.Object?)
       && (c in [0x74, 0x66, 0x6E] <==> v.Word?)
  }

  lemma TextFirstIs(v: Json, decode: Decoder)
    requires Parses(v, decode)
    ensures TextFirst(v, decode)
  {
    hide ItemsText, MembersText, Blank, ItemsParse, MembersParse, IsNumber, IsNumberText;
    if v.Num? {
      NumberIff(v.text);
      NumberStart(v.text);
    }
  }

  /** Two numbers at one position, each followed by no number byte. */
  lemma SameNumber(b: bytes, i: nat, s: bytes, t: bytes)
    requires At(b, i, s) && IsNumber(s) && Delimited(b, i + |s|)
    requires At(b, i, t) && IsNumber(t) && Delimited(b, i + |t|)
    ensures s == t
  {
    hide IsNumber, IsNumberByte;
    if |s| < |t| {
      assert t[|s|] == b[i + |s|];
      NotANumber(t, |s|);
    }
    if |t| < |s| {
      assert s[|t|] == b[i + |t|];
      NotANumber(s, |t|);
    }
    SameText(b, i, s, t);
  }

  lemma NumberIsThere(b: bytes, i: nat, t: bytes)
    requires At(b, i, t) && NumberAt(b, i, i + |t|)
    ensures IsNumber(t) && |t| <= NUMBER_WINDOW && i <= |b| && IsUtf8(Window(b, i), 0)
  {
    hide IsNumber, IsUtf8;
    assert Window(b, i)[..|t|] == t;
  }

  lemma SameNumberTree(b: bytes, i: nat, v: Json, w: Json, decode: Decoder)
    requires At(b, i, Text(v)) && Parses(v, decode) && Delimited(b, i + Size(v)) && v.Num?
    requires Fits(b, i, w) && Delimited(b, i + Size(w)) && w.Num?
    ensures v == w && Readable(b, Tokens(i, v))
  {
    hide IsNumber, IsNumberText, IsUtf8, NumberAt, Delimited, At;
    NumberIff(v.text);
    NumberIsThere(b, i, w.text);
    SameNumber(b, i, v.text, w.text);
  }

  /** A value with no number in it. */
  lemma SameLeaf(b: bytes, i: nat, v: Json, w: Json, decode: Decoder)
    requires At(b, i, Text(v)) && Parses(v, decode) && Delimited(b, i + Size(v)) && Fits(b, i, w)
    requires v.Str? || v.Word? || v.EmptyArray? || v.EmptyObject?
    ensures v == w && Readable(b, Tokens(i, v))
  {
    assert Tokens(i, v) == {};
    hide *;
    assert Readable(b, {}) by { NothingToRead(b); }
    PrintedFits(b, i, v, decode);
    UniqueValue(b, i, v, w);
  }

  lemma NothingToRead(b: bytes)
    ensures Readable(b, {})
  {
  }

  /** A tree that fits where a value is printed is that value, and its tokens are readable. */
  lemma {:induction false} SameTree(b: bytes, i: nat, v: Json, w: Json, decode: Decoder)
    requires At(b, i, Text(v)) && Parses(v, decode) && Delimited(b, i + Size(v))
    requires Fits(b, i, w) && Delimited(b, i + Size(w))
    ensures v == w && Readable(b, Tokens(i, v))
    decreases v, 1
  {
    hide *;
    TextStart(b, i, v, decode);
    FirstByte(b, i, w);
    match v
    case Num(_) => SameNumberTree(b, i, v, w, decode);
    case Array(_) => SameArray(b, i, v, w, decode);
    case Object(_) => SameObject(b, i, v, w, decode);
    case _ => SameLeaf(b, i, v, w, decode);
  }

  lemma {:induction false} SameArray(b: bytes, i: nat, v: Json, w: Json, decode: Decoder)
    requires At(b, i, Text(v)) && Parses(v, decode) && v.Array? && Fits(b, i, w) && (w.EmptyArray? || w.Array?)
    ensures v == w && Readable(b, Tokens(i, v))
    decreases v, 0
  {
    hide FitsItems, ItemsText, ItemsParse, Readable, At, Blank, ItemsTokens;
    BracketedAt(b, i, LBRACKET, ItemsText(v.items));
    ItemTextStart(b, i + 1, v.items, decode);
    if w.EmptyArray? { PadIsRun(b, i + 1, w.pad); } else { SameItems(b, i + 1, v.items, w.items, decode); }
  }

  lemma {:induction false} SameObject(b: bytes, i: nat, v: Json, w: Json, decode: Decoder)
    requires At(b, i, Text(v)) && Parses(v, decode) && v.Object? && Fits(b, i, w) && (w.EmptyObject? || w.Object?)
    ensures v == w && Readable(b, Tokens(i, v))
    decreases v, 0
  {
    hide FitsMembers, MembersText, MembersParse, Readable, At, Blank, MembersTokens;
    BracketedAt(b, i, LBRACE, MembersText(v.members));
    KeyTextStart(b, i + 1, v.members, decode);
    if w.EmptyObject? { PadIsRun(b, i + 1, w.pad); } else { SameMembers(b, i + 1, v.members, w.members, decode); }
  }

  lemma ItemTextStart(b: bytes, i: nat, s: Items, decode: Decoder)
    requires At(b, i, ItemsText(s)) && ItemsParse(s, decode)
    ensures i <= |b| && BlankEnd(b, i) < |b| && b[BlankEnd(b, i)] != RBRACKET
  {
    hide At, Blank, Text, Parses;
    AtSplit(b, i, SlotText(s.slot), if s.LastItem? then [RBRACKET] else [COMMA] + ItemsText(s.rest));
    SlotTextStart(b, i, s.slot, decode);
  }

  /** The blanks before a printed value are the whole run. */
  lemma SlotTextStart(b: bytes, i: nat, s: Slot, decode: Decoder)
    requires At(b, i, SlotText(s)) && SlotParses(s, decode)
    ensures At(b, i, s.before) && At(b, i + |s.before|, Text(s.value)) && At(b, i + |s.before| + Size(s.value), s.after)
    ensures i <= |b| && BlankEnd(b, i) == i + |s.before| < |b| && b[BlankEnd(b, i)] != RBRACKET
  {
    hide At, Blank, Text, Parses;
    AtSplit(b, i, s.before, Text(s.value) + s.after);
    AtSplit(b, i + |s.before|, Text(s.value), s.after);
    TextStart(b, i + |s.before|, s.value, decode);
    PadIsRun(b, i, s.before);
  }

  lemma KeyTextStart(b: bytes, i: nat, s: Members, decode: Decoder)
    requires At(b, i, MembersText(s)) && MembersParse(s, decode)
    ensures i <= |b| && Mark(b, BlankEnd(b, i), QUOTE)
  {
    hide At, SlotParses, SlotText, SlotSize, KeySize, KeyText, KeyParses, FitsKey, KeyEnds;
    MembersPieces(b, i, s);
    PrintedKeyFits(b, i, s.key, decode);
    KeyForward(b, i, s.key);
    KeyEndsQuote(b, i, i + |s.key.before| + |s.key.lit|);
  }

  lemma KeyEndsQuote(b: bytes, i: nat, l: nat)
    requires KeyEnds(b, i, l)
    ensures Mark(b, BlankEnd(b, i), QUOTE)
  {
  }

  /** Both slots are followed by a byte that is neither blank nor of a number. */
  lemma {:induction false} SameSlot(b: bytes, i: nat, s: Slot, t: Slot, decode: Decoder)
    requires At(b, i, SlotText(s)) && SlotParses(s, decode) && FitsSlot(b, i, t)
    requires i + SlotSize(s) < |b| && !IsBlank(b[i + SlotSize(s)]) && !IsNumberByte(b[i + SlotSize(s)])
    requires i + SlotSize(t) < |b| && !IsBlank(b[i + SlotSize(t)]) && !IsNumberByte(b[i + SlotSize(t)])
    ensures s == t && Readable(b, SlotTokens(i, s))
    decreases s
  {
    hide At, Blank, Text, Parses, Fits, Size, IsBlank, IsNumberByte, Readable, Tokens;
    SlotTextStart(b, i, s, decode);
    SlotForward(b, i, t);
    var p := i + |s.before|;
    SlotDelimits(b, p + Size(s.value), s.after);
    SlotDelimits(b, p + Size(t.value), t.after);
    SameTree(b, p, s.value, t.value, decode);
    PadIsRun(b, p + Size(s.value), s.after);
    SameText(b, i, s.before, t.before);
    SameText(b, p + Size(s.value), s.after, t.after);
  }

  lemma MarksDelimit(c: byte)
    requires c in [RBRACKET, RBRACE, COMMA, COLON]
    ensures !IsBlank(c) && !IsNumberByte(c)
  {
  }

  lemma {:induction false} SameItems(b: bytes, i: nat, s: Items, t: Items, decode: Decoder)
    requires At(b, i, ItemsText(s)) && ItemsParse(s, decode) && FitsItems(b, i, t)
    ensures s == t && Readable(b, ItemsTokens(i, s))
    decreases s
  {
    hide At, SlotParses, FitsSlot, SlotText, SlotSize, SlotTokens, IsUtf8, IsBlank, IsNumberByte;
    var e := i + SlotSize(s.slot);
    if s.LastItem? {
      AtSplit(b, i, SlotText(s.slot), [RBRACKET]);
      AtMark(b, e, RBRACKET);
    } else {
      AtSplit(b, i, SlotText(s.slot), [COMMA] + ItemsText(s.rest));
      BracketedAt(b, e, COMMA, ItemsText(s.rest));
    }
    MarksDelimit(b[e]);
    MarksDelimit(b[i + SlotSize(t.slot)]);
    SameSlot(b, i, s.slot, t.slot, decode);
    if s.MoreItems? { SameItems(b, e + 1, s.rest, t.rest, decode); }
  }

  lemma {:induction false} SameMembers(b: bytes, i: nat, s: Members, t: Members, decode: Decoder)
    requires At(b, i, MembersText(s)) && MembersParse(s, decode) && FitsMembers(b, i, t)
    ensures s == t && Readable(b, MembersTokens(i, s))
    decreases s
  {
    hide At, SlotParses, FitsSlot, SlotText, SlotSize, SlotTokens, KeyText, KeyParses, KeySize, FitsKey, Readable, IsBlank,
         IsNumberByte, MembersText;
    var p := i + KeySize(s.key) + 1;
    var e := p + SlotSize(s.slot);
    MembersPieces(b, i, s);
    PrintedKeyFits(b, i, s.key, decode);
    UniqueKey(b, i, s.key, t.key);
    MarksDelimit(b[e]);
    MarksDelimit(b[p + SlotSize(t.slot)]);
    SameSlot(b, p, s.slot, t.slot, decode);
    if s.MoreMembers? { SameMembers(b, e + 1, s.rest, t.rest, decode); }
    ReadableTogether(b, SlotTokens(p, s.slot), if s.MoreMembers? then MembersTokens(e + 1, s.rest) else {});
  }

  lemma ReadableTogether(b: bytes, some: set<NumberToken>, others: set<NumberToken>)
    requires Readable(b, some) && (others != {} ==> Readable(b, others))
    ensures Readable(b, some + others)
  {
    hide IsUtf8;
  }

  // ----- the dictionary of the full parse

  /** The values a key has in the text, first to last. */
  ghost function ValuesOf(s: Members, decode: Decoder, key: string): seq<Json>
    decreases s
  {
    (if decode(s.key.lit) == Some(key) then [s.slot.value] else [])
    + if s.MoreMembers? then ValuesOf(s.rest, decode, key) else []
  }

  ghost function ObjectValues(v: Json, decode: Decoder, key: string): seq<Json> {
    if v.Object? then ValuesOf(v.members, decode, key) else []
  }

  /** `payload.get(key)`: a dictionary keeps the last value. */
  ghost function Lookup(values: seq<Json>): Option<Json> {
    if values == [] then None else Some(values[|values| - 1])
  }

  /** `_string_or_none`. */
  ghost function StringOrNone(v: Option<Json>, decode: Decoder): Option<string> {
    if v.Some? && v.value.Str? && decode(v.value.lit) != Some("") then decode(v.value.lit) else None
  }

  ghost predicate IsTrue(v: Option<Json>) { v == Some(Word(TRUE_TEXT)) }

  ghost function BooleanOrNone(v: Json): Option<bool> {
    if v == Word(TRUE_TEXT) then Some(true) else if v == Word(FALSE_TEXT) then Some(false) else None
  }

  // ----- what the scanner reads, value by value

  /** The last usable string among the values, or the fallback. */
  ghost function LastString(values: seq<Json>, decode: Decoder, fallback: Option<string>): Option<string> {
    if values == [] then fallback else
    var last := StringOrNone(Some(values[|values| - 1]), decode);
    if last.Some? then last else LastString(values[..|values| - 1], decode, fallback)
  }

  ghost function LastBoolean(values: seq<Json>, fallback: Option<bool>): Option<bool> {
    if values == [] then fallback else
    var last := BooleanOrNone(values[|values| - 1]);
    if last.Some? then last else LastBoolean(values[..|values| - 1], fallback)
  }

  lemma {:induction false} LastStringFrom(v: Json, rest: seq<Json>, decode: Decoder, fallback: Option<string>)
    ensures LastString([v] + rest, decode, fallback)
      == LastString(rest, decode, var s := StringOrNone(Some(v), decode); if s.Some? then s else fallback)
  {
    var all := [v] + rest;
    if rest == [] {
      assert all == [v] && all[..0] == [];
    } else {
      LastStringFrom(v, rest[..|rest| - 1], decode, fallback);
      assert all[..|all| - 1] == [v] + rest[..|rest| - 1];
    }
  }

  lemma {:induction false} LastBooleanFrom(v: Json, rest: seq<Json>, fallback: Option<bool>)
    ensures LastBoolean([v] + rest, fallback)
      == LastBoolean(rest, var s := BooleanOrNone(v); if s.Some? then s else fallback)
  {
    var all := [v] + rest;
    if rest == [] {
      assert all == [v] && all[..0] == [];
    } else {
      LastBooleanFrom(v, rest[..|rest| - 1], fallback);
      assert all[..|all| - 1] == [v] + rest[..|rest| - 1];
    }
  }

  /** The metadata after all members: the last usable value of each key. */
  ghost function LastUsable(md: Metadata, s: Members, decode: Decoder): Metadata {
    Metadata(LastString(ValuesOf(s, decode, "request_id"), decode, md.requestId),
             LastString(ValuesOf(s, decode, "model"), decode, md.model),
             LastBoolean(ValuesOf(s, decode, "stream"), md.stream))
  }

  lemma {:induction false} ReadMembersIsLastUsable(md: Metadata, s: Members, decode: Decoder)
    requires MembersParse(s, decode)
    ensures ReadMembers(md, decode, s) == Some(LastUsable(md, s, decode))
    decreases s
  {
    hide LastString, LastBoolean;
    var next := ReadOne(md, s, decode);
    if s.MoreMembers? {
      ReadMembersIsLastUsable(next, s.rest, decode);
      FirstOfValues(md, next, s, decode);
    } else {
      OnlyValue(md, next, s, decode);
    }
  }

  lemma ReadOne(md: Metadata, s: Members, decode: Decoder) returns (next: Metadata)
    requires MembersParse(s, decode)
    ensures ReadMember(md, decode, s.key.lit, s.slot.value) == Some(next)
    ensures next == MemberEffect(md, decode(s.key.lit).value, s.slot.value, decode)
  {
    assert SlotParses(s.slot, decode) && Parses(s.slot.value, decode);
    next := ReadMember(md, decode, s.key.lit, s.slot.value).value;
  }

  ghost function MemberEffect(md: Metadata, key: string, v: Json, decode: Decoder): Metadata {
    var text, boolean := StringOrNone(Some(v), decode), BooleanOrNone(v);
    if key == "stream" then (if boolean.Some? then md.(stream := boolean) else md)
    else if key == "model" then (if text.Some? then md.(model := text) else md)
    else if key == "request_id" then (if text.Some? then md.(requestId := text) else md)
    else md
  }

  lemma OnlyValue(md: Metadata, next: Metadata, s: Members, decode: Decoder)
    requires s.LastMember? && decode(s.key.lit).Some? && next == MemberEffect(md, decode(s.key.lit).value, s.slot.value, decode)
    ensures next == LastUsable(md, s, decode)
  {
    var v := s.slot.value;
    assert [v] + [] == [v];
    LastStringFrom(v, [], decode, md.requestId);
    LastStringFrom(v, [], decode, md.model);
    LastBooleanFrom(v, [], md.stream);
  }

  lemma FirstValue(s: Members, decode: Decoder, key: string)
    requires s.MoreMembers?
    ensures ValuesOf(s, decode, key)
      == if decode(s.key.lit) == Some(key) then [s.slot.value] + ValuesOf(s.rest, decode, key) else ValuesOf(s.rest, decode, key)
  {
    assert [] + ValuesOf(s.rest, decode, key) == ValuesOf(s.rest, decode, key);
  }

  lemma FirstOfValues(md: Metadata, next: Metadata, s: Members, decode: Decoder)
    requires s.MoreMembers? && decode(s.key.lit).Some? && next == MemberEffect(md, decode(s.key.lit).value, s.slot.value, decode)
    ensures LastUsable(next, s.rest, decode) == LastUsable(md, s, decode)
  {
    hide LastString, LastBoolean, ValuesOf, StringOrNone, BooleanOrNone;
    var v := s.slot.value;
    FirstValue(s, decode, "request_id");
    FirstValue(s, decode, "model");
    FirstValue(s, decode, "stream");
    LastStringFrom(v, ValuesOf(s.rest, decode, "request_id"), decode, md.requestId);
    LastStringFrom(v, ValuesOf(s.rest, decode, "model"), decode, md.model);
    LastBooleanFrom(v, ValuesOf(s.rest, decode, "stream"), md.stream);
  }

  // ----- agreement

  /** The lookups made on a small body. */
  datatype Lookups = Lookups(requestId: Option<string>, model: Option<string>, stream: bool)

  ghost function FullParseLookups(v: Json, decode: Decoder): Lookups {
    Lookups(StringOrNone(Lookup(ObjectValues(v, decode, "request_id")), decode),
            StringOrNone(Lookup(ObjectValues(v, decode, "model")), decode),
            IsTrue(Lookup(ObjectValues(v, decode, "stream"))))
  }

  /** What a large body's metadata is used for: a missing stream flag counts as false. */
  ghost function MetadataLookups(md: Metadata): Lookups {
    Lookups(md.requestId, md.model, md.stream == Some(true))
  }

  /** The last value of a key is usable, or none of its values is. */
  ghost predicate LastStringDecides(values: seq<Json>, decode: Decoder) {
    StringOrNone(Lookup(values), decode).Some? || forall v :: v in values ==> StringOrNone(Some(v), decode).None?
  }

  /** The last value of `stream` is a boolean, or its last boolean, if any, is false. */
  ghost predicate LastBooleanDecides(values: seq<Json>) {
    || values == []
    || BooleanOrNone(values[|values| - 1]).Some?
    || LastBoolean(values, None) != Some(true)
  }

  ghost predicate LastValuesDecide(v: Json, decode: Decoder) {
    && LastStringDecides(ObjectValues(v, decode, "request_id"), decode)
    && LastStringDecides(ObjectValues(v, decode, "model"), decode)
    && LastBooleanDecides(ObjectValues(v, decode, "stream"))
  }

  lemma {:induction false} LastStringIsUsed(values: seq<Json>, decode: Decoder)
    ensures LastString(values, decode, None).None? <==> forall v :: v in values ==> StringOrNone(Some(v), decode).None?
  {
    if values != [] {
      var n := |values| - 1;
      LastStringIsUsed(values[..n], decode);
      assert values == values[..n] + [values[n]];
    }
  }

  lemma LastStringAgrees(values: seq<Json>, decode: Decoder)
    ensures LastString(values, decode, None) == StringOrNone(Lookup(values), decode) <==> LastStringDecides(values, decode)
  {
    LastStringIsUsed(values, decode);
  }

  /** On the UTF-8 text of an object the full parser accepts, with blanks around it and no
      byte-order mark (OtherEncodingsAreRefused is the other case): the scanner accepts it, and
      then consumes exactly the whole of it, if and only if each number token has at most 128
      bytes, the 128 bytes from its start on decode and the values nest within the limit; and
      what it reads agrees with the full parse if and only if the last value of each metadata
      key decides. */
  lemma ScannerAgreesIff(lead: bytes, v: Json, trail: bytes, decode: Decoder)
    requires Blank(lead) && Blank(trail) && (v.EmptyObject? || v.Object?) && Parses(v, decode)
    ensures ((exists md :: Accepts(lead + Text(v) + trail, decode, md))
      <==> Readable(lead + Text(v) + trail, Tokens(|lead|, v)))
    ensures forall limit: nat :: (AcceptedWithin(lead + Text(v) + trail, decode, limit)
      <==> Readable(lead + Text(v) + trail, Tokens(|lead|, v)) && Depth(v) <= limit + 1)
    ensures forall md :: (Accepts(lead + Text(v) + trail, decode, md)
      ==> (MetadataLookups(md) == FullParseLookups(v, decode) <==> LastValuesDecide(v, decode)))
  {
    hide Parses, Blank, Readable, Tokens, Text, Depth, Accepts, AcceptedWithin, LastString, LastBoolean, LastStringDecides,
         StringOrNone, ReadMembers;
    var b := lead + Text(v) + trail;
    var md := BodyMetadata(v, decode);
    assert IsPrinted(b, lead, v, trail);
    if Readable(b, Tokens(|lead|, v)) {
      PrintedBody(b, lead, v, trail, decode);
      BodyAccepted(b, v, md, decode);
    }
    forall other | Accepts(b, decode, other) ensures other == md && Readable(b, Tokens(|lead|, v)) {
      AcceptedIsPrinted(b, lead, v, trail, decode, other);
      BodyAccepted(b, v, md, decode);
      AcceptedOnce(b, decode, md, other);
    }
    forall limit: nat
      ensures AcceptedWithin(b, decode, limit) <==> Readable(b, Tokens(|lead|, v)) && Depth(v) <= limit + 1
    {
      PrintedWithin(b, lead, v, trail, decode, limit);
    }
    LastStringAgrees(ObjectValues(v, decode, "request_id"), decode);
    LastStringAgrees(ObjectValues(v, decode, "model"), decode);
    StreamAgrees(ObjectValues(v, decode, "stream"));
  }

  lemma {:induction false} TokensInside(i: nat, v: Json)
    ensures forall t :: t in Tokens(i, v) ==> t.at <= i + Size(v)
    decreases v
  {
    match v
    case Array(items) => ItemsTokensInside(i + 1, items);
    case Object(members) => MembersTokensInside(i + 1, members);
    case _ =>
  }

  lemma {:induction false} ItemsTokensInside(i: nat, s: Items)
    ensures forall t :: t in ItemsTokens(i, s) ==> t.at <= i + ItemsSize(s)
    decreases s
  {
    TokensInside(i + |s.slot.before|, s.slot.value);
    if s.MoreItems? { ItemsTokensInside(i + SlotSize(s.slot) + 1, s.rest); }
  }

  lemma {:induction false} MembersTokensInside(i: nat, s: Members)
    ensures forall t :: t in MembersTokens(i, s) ==> t.at <= i + MembersSize(s)
    decreases s
  {
    var p := i + KeySize(s.key) + 1;
    TokensInside(p + |s.slot.before|, s.slot.value);
    if s.MoreMembers? { MembersTokensInside(p + SlotSize(s.slot) + 1, s.rest); }
  }

  lemma AsciiIsReadable(b: bytes, tokens: set<NumberToken>)
    requires IsAscii(b) && forall t :: t in tokens ==> t.at <= |b| && |t.text| <= 128
    ensures Readable(b, tokens)
  {
    hide IsUtf8;
    forall t | t in tokens ensures IsUtf8(Window(b, t.at), 0) {
      AsciiIsUtf8(Window(b, t.at), 0);
    }
  }

  lemma TokensInBody(b: bytes, lead: bytes, v: Json, trail: bytes)
    requires IsPrinted(b, lead, v, trail)
    ensures forall t :: t in Tokens(|lead|, v) ==> t.at <= |b|
  {
    hide *;
    PrintedPieces(b, lead, v, trail);
    TokensInside(|lead|, v);
  }

  /** In ASCII text number tokens of at most 128 bytes, and nesting within the limit, are enough. */
  lemma AsciiIsAccepted(lead: bytes, v: Json, trail: bytes, decode: Decoder)
    requires Blank(lead) && Blank(trail) && (v.EmptyObject? || v.Object?) && Parses(v, decode)
    requires IsAscii(lead + Text(v) + trail) && forall t :: t in Tokens(|lead|, v) ==> |t.text| <= 128
    ensures exists md :: Accepts(lead + Text(v) + trail, decode, md)
    ensures forall limit: nat :: Depth(v) <= limit + 1 ==> AcceptedWithin(lead + Text(v) + trail, decode, limit)
  {
    assert IsPrinted(lead + Text(v) + trail, lead, v, trail);
    hide *;
    TokensInBody(lead + Text(v) + trail, lead, v, trail);
    AsciiIsReadable(lead + Text(v) + trail, Tokens(|lead|, v));
    ScannerAgreesIff(lead, v, trail, decode);
  }

  lemma StreamAgrees(values: seq<Json>)
    ensures (LastBoolean(values, None) == Some(true)) == IsTrue(Lookup(values)) <==> LastBooleanDecides(values)
  {
  }

  ghost function BodyMetadata(v: Json, decode: Decoder): Metadata {
    Metadata(LastString(ObjectValues(v, decode, "request_id"), decode, None),
             LastString(ObjectValues(v, decode, "model"), decode, None),
             LastBoolean(ObjectValues(v, decode, "stream"), None))
  }

  ghost predicate IsPrinted(b: bytes, lead: bytes, v: Json, trail: bytes) { b == lead + Text(v) + trail }

  lemma BodyPieces(b: bytes, lead: bytes, text: bytes, trail: bytes)
    requires b == lead + text + trail
    ensures |b| == |lead| + |text| + |trail|
    ensures At(b, 0, lead) && At(b, |lead|, text) && At(b, |lead| + |text|, trail)
    ensures trail != [] ==> b[|lead| + |text|] == trail[0]
  {
  }

  lemma BlankDelimits(b: bytes, e: nat, trail: bytes)
    requires Blank(trail) && e + |trail| == |b| && (trail != [] ==> b[e] == trail[0])
    ensures Delimited(b, e)
  {
  }

  lemma PrintedPieces(b: bytes, lead: bytes, v: Json, trail: bytes)
    requires IsPrinted(b, lead, v, trail)
    ensures At(b, 0, lead) && At(b, |lead|, Text(v)) && At(b, |lead| + Size(v), trail)
    ensures |b| == |lead| + Size(v) + |trail| && (trail != [] ==> b[|lead| + Size(v)] == trail[0])
  {
    hide At, Text, Size;
    BodyPieces(b, lead, Text(v), trail);
  }

  /** Where the printed value stands in the body, and that nothing continues it. */
  lemma PrintedPlace(b: bytes, lead: bytes, v: Json, trail: bytes, decode: Decoder)
    requires IsPrinted(b, lead, v, trail) && Blank(lead) && Blank(trail)
    requires (v.EmptyObject? || v.Object?) && Parses(v, decode)
    ensures At(b, |lead|, Text(v)) && Delimited(b, |lead| + Size(v)) && BlankEnd(b, 0) == |lead|
    ensures |lead| + Size(v) <= |b| && BlankEnd(b, |lead| + Size(v)) == |b|
  {
    hide *;
    PrintedPieces(b, lead, v, trail);
    BlankDelimits(b, |lead| + Size(v), trail);
    TextStart(b, |lead|, v, decode);
    PadIsRun(b, 0, lead);
    PadIsRun(b, |lead| + Size(v), trail);
  }

  lemma PrintedBody(b: bytes, lead: bytes, v: Json, trail: bytes, decode: Decoder)
    requires IsPrinted(b, lead, v, trail) && Blank(lead) && Blank(trail) && Readable(b, Tokens(|lead|, v))
    requires (v.EmptyObject? || v.Object?) && Parses(v, decode)
    ensures IsBody(b, v)
  {
    hide *;
    PrintedPlace(b, lead, v, trail, decode);
    PrintedFits(b, |lead|, v, decode);
    BodyIntro(b, v);
  }

  lemma BodyIntro(b: bytes, v: Json)
    requires (v.EmptyObject? || v.Object?) && Fits(b, BlankEnd(b, 0), v)
    requires BlankEnd(b, 0) + Size(v) <= |b| && BlankEnd(b, BlankEnd(b, 0) + Size(v)) == |b|
    ensures IsBody(b, v)
  {
    hide Fits, Size;
  }

  lemma PlacedBody(b: bytes, w: Json)
    requires IsBody(b, w)
    ensures Fits(b, BlankEnd(b, 0), w) && Delimited(b, BlankEnd(b, 0) + Size(w))
  {
    hide Fits, Size, Delimited;
    BodyEndDelimits(b, BlankEnd(b, 0) + Size(w));
  }

  lemma AcceptedTree(b: bytes, decode: Decoder, md: Metadata) returns (w: Json)
    requires Accepts(b, decode, md)
    ensures IsBody(b, w)
  {
    hide IsBody;
    w :| IsBody(b, w) && ReadObject(decode, w) == Some(md);
  }

  lemma AcceptedIsPrinted(b: bytes, lead: bytes, v: Json, trail: bytes, decode: Decoder, md: Metadata)
    requires IsPrinted(b, lead, v, trail) && Blank(lead) && Blank(trail)
    requires (v.EmptyObject? || v.Object?) && Parses(v, decode) && Accepts(b, decode, md)
    ensures IsBody(b, v) && Readable(b, Tokens(|lead|, v))
  {
    hide *;
    var w := AcceptedTree(b, decode, md);
    PrintedPlace(b, lead, v, trail, decode);
    PlacedBody(b, w);
    SameTree(b, |lead|, v, w, decode);
  }

  lemma BodyEndDelimits(b: bytes, e: nat)
    requires e <= |b| && BlankEnd(b, e) == |b|
    ensures Delimited(b, e)
  {
    BlankEndIsRun(b, e);
  }

  lemma BodyAccepted(b: bytes, v: Json, md: Metadata, decode: Decoder)
    requires IsBody(b, v) && Parses(v, decode) && md == BodyMetadata(v, decode)
    ensures Accepts(b, decode, md)
  {
    hide IsBody, ReadMembers;
    if v.Object? { ReadMembersIsLastUsable(NO_METADATA, v.members, decode); }
    assert ReadObject(decode, v) == Some(md);
  }

  ghost predicate AcceptedWithin(b: bytes, decode: Decoder, limit: nat) {
    exists md :: AcceptsWithin(b, decode, limit, md)
  }

  lemma PrintedWithin(b: bytes, lead: bytes, v: Json, trail: bytes, decode: Decoder, limit: nat)
    requires IsPrinted(b, lead, v, trail) && Blank(lead) && Blank(trail)
    requires (v.EmptyObject? || v.Object?) && Parses(v, decode)
    ensures AcceptedWithin(b, decode, limit) <==> Readable(b, Tokens(|lead|, v)) && Depth(v) <= limit + 1
  {
    hide Parses, Blank, Readable, Tokens, Depth, Accepts, AcceptsWithin, IsPrinted, IsBody, BodyMetadata;
    if Readable(b, Tokens(|lead|, v)) {
      PrintedBody(b, lead, v, trail, decode);
      BodyAccepted(b, v, BodyMetadata(v, decode), decode);
      AcceptedDepth(b, v, decode, limit, BodyMetadata(v, decode));
    }
    forall md | AcceptsWithin(b, decode, limit, md) ensures Readable(b, Tokens(|lead|, v)) && Depth(v) <= limit + 1 {
      WithinIsAccepted(b, decode, limit, md);
      AcceptedIsPrinted(b, lead, v, trail, decode, md);
      AcceptedDepth(b, v, decode, limit, md);
    }
  }

  /** The depth of an accepted body is that of its one tree. */
  lemma AcceptedDepth(b: bytes, v: Json, decode: Decoder, limit: nat, md: Metadata)
    requires IsBody(b, v) && Accepts(b, decode, md)
    ensures AcceptsWithin(b, decode, limit, md) <==> Depth(v) <= limit + 1
  {
    forall w | IsBody(b, w) ensures w == v {
      BodyParts(b, v);
      BodyParts(b, w);
      UniqueValue(b, BlankEnd(b, 0), v, w);
    }
    hide IsBody, ReadObject, Depth;
  }

  // ----- at most one metadata is accepted

  lemma AcceptedOnce(b: bytes, decode: Decoder, md: Metadata, other: Metadata)
    requires Accepts(b, decode, md) && Accepts(b, decode, other)
    ensures md == other
  {
    var v :| IsBody(b, v) && ReadObject(decode, v) == Some(md);
    var w :| IsBody(b, w) && ReadObject(decode, w) == Some(other);
    BodyParts(b, v);
    BodyParts(b, w);
    UniqueValue(b, BlankEnd(b, 0), v, w);
  }

  // ----- other encodings

  predicate StartsWith(b: bytes, mark: bytes) { mark <= b }

  /** The full parser reads the body as UTF-8 without a byte-order mark; otherwise it detects
      one of UTF-8 with a mark, UTF-16 and UTF-32, and may accept. */
  predicate IsPlainUtf8(b: bytes) {
    && !StartsWith(b, [0xEF, 0xBB, 0xBF])
    && !StartsWith(b, [0xFE, 0xFF]) && !StartsWith(b, [0xFF, 0xFE])
    && !StartsWith(b, [0x00, 0x00, 0xFE, 0xFF]) && !StartsWith(b, [0xFF, 0xFE, 0x00, 0x00])
    && (|b| >= 4 || |b| == 2 ==> b[0] != 0 && b[1] != 0)
  }

  /** The scanner refuses every body in another encoding, whatever its text. */
  lemma OtherEncodingsAreRefused(b: bytes, decode: Decoder, md: Metadata)
    requires !IsPlainUtf8(b)
    ensures !Accepts(b, decode, md)
  {
    if Accepts(b, decode, md) {
      var v := AcceptedTree(b, decode, md);
      BodyStart(b, v);
      OddStart(b);
      hide *;
    }
  }

  /** A body starts with a brace after blanks, and then with a quote or a brace after blanks. */
  ghost predicate StartsAsObject(b: bytes) {
    && Mark(b, BlankEnd(b, 0), LBRACE)
    && (Mark(b, BlankEnd(b, BlankEnd(b, 0) + 1), QUOTE) || Mark(b, BlankEnd(b, BlankEnd(b, 0) + 1), RBRACE))
  }

  lemma BodyStart(b: bytes, v: Json)
    requires IsBody(b, v)
    ensures StartsAsObject(b)
  {
    var i := BlankEnd(b, 0);
    FirstByte(b, i, v);
    hide FitsMembers;
    if v.Object? { KeyStart(b, i + 1, v.members); } else { PadIsRun(b, i + 1, v.pad); }
  }

  lemma OddStart(b: bytes)
    requires !IsPlainUtf8(b)
    ensures !StartsAsObject(b)
  {
    assert b[0] in [0, 0xEF, 0xFE, 0xFF] || b[1] == 0;
    if b[0] in [0, 0xEF, 0xFE, 0xFF] {
      assert BlankEnd(b, 0) == 0;
    } else {
      assert BlankEnd(b, 1) == 1;
    }
  }

  // ----- duplicates are the only way to disagree

  /** With each metadata key at most once, the scanner and the full parse agree. */
  lemma ScannerAgrees(lead: bytes, v: Json, trail: bytes, decode: Decoder, md: Metadata)
    requires Blank(lead) && Blank(trail) && (v.EmptyObject? || v.Object?) && Parses(v, decode)
    requires forall key :: key in ["model", "request_id", "stream"] ==> |ObjectValues(v, decode, key)| <= 1
    requires Accepts(lead + Text(v) + trail, decode, md)
    ensures MetadataLookups(md) == FullParseLookups(v, decode)
  {
    hide Parses, Blank, Readable, Text, Accepts, ObjectValues, LastStringDecides, LastBooleanDecides;
    ScannerAgreesIff(lead, v, trail, decode);
    assert "model" in ["model", "request_id", "stream"] && "request_id" in ["model", "request_id", "stream"]
        && "stream" in ["model", "request_id", "stream"];
    AtMostOneDecides(ObjectValues(v, decode, "request_id"), decode);
    AtMostOneDecides(ObjectValues(v, decode, "model"), decode);
    AtMostOneDecides(ObjectValues(v, decode, "stream"), decode);
  }

  lemma AtMostOneDecides(values: seq<Json>, decode: Decoder)
    requires |values| <= 1
    ensures LastStringDecides(values, decode) && LastBooleanDecides(values)
  {
  }

  // ----- a repeated key

  /** The JSON text of a literal without escapes. */
  function Quoted(text: bytes): bytes { [QUOTE] + text + [QUOTE] }

  const MODEL_LITERAL: bytes := Quoted([0x6D, 0x6F, 0x64, 0x65, 0x6C])
  const A_LITERAL: bytes := Quoted([0x61])
  const EMPTY_LITERAL: bytes := Quoted([])

  /** A member without blanks. */
  function Tight(lit: bytes): Slot { Slot([], Str(lit), []) }

  const SECOND_MODEL := LastMember(Key([], MODEL_LITERAL, []), Tight(EMPTY_LITERAL))

  /** {"model":"a","model":""} */
  const TWO_MODELS := Object(MoreMembers(Key([], MODEL_LITERAL, []), Tight(A_LITERAL), SECOND_MODEL))

  lemma PlainLiteral(lit: bytes, text: bytes)
    requires lit == Quoted(text) && forall k :: 0 <= k < |text| ==> IsPlain(text[k])
    ensures IsStringText(lit)
  {
    StringIff(lit);
    PlainUnits(lit, text, 1);
  }

  lemma {:induction false} PlainUnits(lit: bytes, text: bytes, k: nat)
    requires lit == Quoted(text) && 1 <= k <= |text| + 1 && forall i :: 0 <= i < |text| ==> IsPlain(text[i])
    ensures Closes(lit, k, |lit|)
    decreases |text| + 1 - k
  {
    if k <= |text| {
      assert lit[k] == text[k - 1];
      PlainUnits(lit, text, k + 1);
    }
  }

  lemma TwoModelsParse(decode: Decoder)
    requires decode(MODEL_LITERAL).Some? && decode(A_LITERAL).Some? && decode(EMPTY_LITERAL).Some?
    ensures Parses(TWO_MODELS, decode)
  {
    PlainLiteral(MODEL_LITERAL, [0x6D, 0x6F, 0x64, 0x65, 0x6C]);
    PlainLiteral(A_LITERAL, [0x61]);
    PlainLiteral(EMPTY_LITERAL, []);
    hide IsStringText, MODEL_LITERAL, A_LITERAL, EMPTY_LITERAL;
    assert SlotParses(Tight(EMPTY_LITERAL), decode) && SlotParses(Tight(A_LITERAL), decode);
    assert MembersParse(SECOND_MODEL, decode);
    assert MembersParse(TWO_MODELS.members, decode);
  }

  lemma NoNumbers()
    ensures Tokens(0, TWO_MODELS) == {}
  {
    hide MODEL_LITERAL, A_LITERAL, EMPTY_LITERAL;
    forall i: nat, lit: bytes ensures SlotTokens(i, Tight(lit)) == {} { assert Tokens(i, Str(lit)) == {}; }
    hide Tight;
    forall i: nat ensures MembersTokens(i, SECOND_MODEL) == {} {}
    assert MembersTokens(1, TWO_MODELS.members) == {};
  }

  /** On this body the scanner keeps the first model and the full parse has none. */
  lemma RepeatedKeyDisagrees(decode: Decoder)
    requires decode(MODEL_LITERAL) == Some("model") && decode(A_LITERAL) == Some("a") && decode(EMPTY_LITERAL) == Some("")
    ensures exists md :: Accepts([] + Text(TWO_MODELS) + [], decode, md)
    ensures forall md :: (Accepts([] + Text(TWO_MODELS) + [], decode, md)
      ==> MetadataLookups(md) != FullParseLookups(TWO_MODELS, decode))
  {
    assert Readable([] + Text(TWO_MODELS) + [], Tokens(0, TWO_MODELS)) by { NoNumbers(); }
    TwoModelsParse(decode);
    TwoValues(decode);
    hide *;
    ScannerAgreesIff([], TWO_MODELS, [], decode);
  }

  lemma TwoValues(decode: Decoder)
    requires decode(MODEL_LITERAL) == Some("model") && decode(A_LITERAL) == Some("a") && decode(EMPTY_LITERAL) == Some("")
    ensures !LastValuesDecide(TWO_MODELS, decode)
    ensures Blank([]) && TWO_MODELS.Object?
  {
    hide MODEL_LITERAL, A_LITERAL, EMPTY_LITERAL;
    assert ValuesOf(SECOND_MODEL, decode, "model") == [Str(EMPTY_LITERAL)];
    var values := ObjectValues(TWO_MODELS, decode, "model");
    assert values == [Str(A_LITERAL), Str(EMPTY_LITERAL)];
    assert Str(A_LITERAL) in values;
  }
}
