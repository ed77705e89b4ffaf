/** The top-level scanner of large request bodies: hand-written skipping over bytes,
    proved to accept exactly what the grammar derives. Every exception the caller turns
    into "invalid JSON body" is `None`. */
module JsonScanner {
  import opened Wrappers
  import opened JsonText
  import opened JsonGrammar

  /** The foreign decoder of one string literal, quotes included. */
  type Decoder = bytes -> Option<string>

  datatype Metadata = Metadata(requestId: Option<string>, model: Option<string>, stream: Option<bool>)

  const NO_METADATA := Metadata(None, None, None)

  // ----- what a member means for the metadata

  /** A metadata key keeps its earlier value unless the new value is usable: a boolean
      for `stream`, a nonempty string for the other two. */
  ghost function ReadMember(md: Metadata, decode: Decoder, lit: bytes, value: Json): Option<Metadata> {
    var key := decode(lit);
    if key.None? then None
    else if key.value == "stream" then
      Some(if value == Word(TRUE_TEXT) then md.(stream := Some(true))
           else if value == Word(FALSE_TEXT) then md.(stream := Some(false))
           else md)
    else if (key.value == "model" || key.value == "request_id") && value.Str? then
      var text := decode(value.lit);
      if text.None? then None
      else Some(if text.value == "" then md
                else if key.value == "model" then md.(model := text)
                else md.(requestId := text))
    else Some(md)
  }

  ghost function ReadMembers(md: Metadata, decode: Decoder, s: Members): Option<Metadata>
    decreases s
  {
    var next := ReadMember(md, decode, s.key.lit, s.slot.value);
    if next.None? || s.LastMember? then next else ReadMembers(next.value, decode, s.rest)
  }

  ghost function ReadObject(decode: Decoder, v: Json): Option<Metadata> {
    if v.Object? then ReadMembers(NO_METADATA, decode, v.members) else Some(NO_METADATA)
  }

  /** The whole body is one object, with blanks around it and nothing after it. */
  ghost predicate IsBody(b: bytes, v: Json) {
    && (v.EmptyObject? || v.Object?)
    && Fits(b, BlankEnd(b, 0), v)
    && BlankEnd(b, 0) + Size(v) <= |b| && BlankEnd(b, BlankEnd(b, 0) + Size(v)) == |b|
  }

  ghost predicate Accepts(b: bytes, decode: Decoder, md: Metadata) {
    exists v :: IsBody(b, v) && ReadObject(decode, v) == Some(md)
  }

  /** The same, and no value in the object nests more than d containers. */
  ghost predicate AcceptsWithin(b: bytes, decode: Decoder, d: nat, md: Metadata) {
    exists v :: IsBody(b, v) && ReadObject(decode, v) == Some(md) && Depth(v) <= d + 1
  }

  /** From inside the object, with metadata md so far, the rest of the body is read. */
  ghost predicate AcceptsRest(b: bytes, decode: Decoder, i: nat, md: Metadata, result: Metadata) {
    exists s :: FitsMembers(b, i, s) && i + MembersSize(s) <= |b| && BlankEnd(b, i + MembersSize(s)) == |b|
      && ReadMembers(md, decode, s) == Some(result)
  }

  // ----- one step of each loop

  lemma ClosesStep(b: bytes, k: nat, j: nat)
    requires k <= |b|
    ensures k == |b| ==> !Closes(b, k, j)
    ensures k < |b| && b[k] == QUOTE ==> (Closes(b, k, j) <==> j == k + 1)
    ensures k < |b| && b[k] == BACKSLASH ==> (Closes(b, k, j) <==> Closes(b, k + 2, j))
    ensures k < |b| && IsPlain(b[k]) ==> (Closes(b, k, j) <==> Closes(b, k + 1, j))
    ensures k < |b| && b[k] != QUOTE && b[k] != BACKSLASH && !IsPlain(b[k]) ==> !Closes(b, k, j)
  {
  }

  lemma ItemsAnalysis(b: bytes, i: nat, v: nat, j: nat)
    requires ItemsEnd(b, i, j)
    requires forall k: nat :: PaddedValueEnds(b, i, k) ==> k == v
    ensures v <= |b| && PaddedValueEnds(b, i, v)
    ensures var e := BlankEnd(b, v);
      (Mark(b, e, RBRACKET) && j == e + 1) || (Mark(b, e, COMMA) && ItemsEnd(b, e + 1, j))
  {
    hide FitsSlot, Fits, SlotSize;
    var s :| FitsItems(b, i, s) && j == i + ItemsSize(s);
    SlotForward(b, i, s.slot);
    assert ValueEnds(b, BlankEnd(b, i), BlankEnd(b, i) + Size(s.slot.value));
    assert PaddedValueEnds(b, i, BlankEnd(b, i) + Size(s.slot.value));
    assert BlankEnd(b, v) == i + SlotSize(s.slot);
    if s.MoreItems? { assert FitsItems(b, BlankEnd(b, v) + 1, s.rest); }
  }

  lemma ItemsSynthesis(b: bytes, i: nat, v: nat, j: nat)
    requires PaddedValueEnds(b, i, v) && v <= |b|
    requires var e := BlankEnd(b, v);
      (Mark(b, e, RBRACKET) && j == e + 1) || (Mark(b, e, COMMA) && ItemsEnd(b, e + 1, j))
    ensures ItemsEnd(b, i, j)
  {
    hide FitsSlot, Fits, SlotSize;
    var value :| Fits(b, BlankEnd(b, i), value) && v == BlankEnd(b, i) + Size(value);
    var slot := SlotOf(b, i, value);
    var e := BlankEnd(b, v);
    if Mark(b, e, RBRACKET) {
      assert FitsItems(b, i, LastItem(slot));
    } else {
      var rest :| FitsItems(b, e + 1, rest) && j == e + 1 + ItemsSize(rest);
      assert FitsItems(b, i, MoreItems(slot, rest));
    }
  }

  /** A key ends at l and the value after its colon at v. */
  ghost predicate MemberEnds(b: bytes, i: nat, l: nat, v: nat) {
    KeyEnds(b, i, l) && PaddedValueEnds(b, BlankEnd(b, l) + 1, v)
  }

  /** The parts of placed members, as positions: the key's end and the value's. */
  lemma MembersParts(b: bytes, i: nat, s: Members) returns (l: nat, v: nat)
    requires FitsMembers(b, i, s)
    ensures MemberFits(b, i, l, s.slot.value, v) && s.key.lit == b[BlankEnd(b, i)..l]
    ensures BlankEnd(b, v) == i + KeySize(s.key) + 1 + SlotSize(s.slot)
  {
    hide FitsSlot, Fits, SlotSize, FitsKey, KeyEnds;
    KeyForward(b, i, s.key);
    l := i + |s.key.before| + |s.key.lit|;
    SlotForward(b, i + KeySize(s.key) + 1, s.slot);
    v := BlankEnd(b, BlankEnd(b, l) + 1) + Size(s.slot.value);
  }

  lemma MembersAnalysis(b: bytes, i: nat, j: nat) returns (l: nat, v: nat)
    requires MembersEnd(b, i, j)
    ensures MemberEnds(b, i, l, v) && v <= |b|
    ensures var e := BlankEnd(b, v);
      (Mark(b, e, RBRACE) && j == e + 1) || (Mark(b, e, COMMA) && MembersEnd(b, e + 1, j))
  {
    hide FitsSlot, Fits, SlotSize, KeySize, FitsKey, KeyEnds;
    var s :| FitsMembers(b, i, s) && j == i + MembersSize(s);
    l, v := MembersParts(b, i, s);
    assert ValueEnds(b, BlankEnd(b, BlankEnd(b, l) + 1), v);
    if s.MoreMembers? { assert FitsMembers(b, BlankEnd(b, v) + 1, s.rest); }
  }

  /** A key that ends at l, and the value that fits after its colon, ends at v. */
  ghost predicate MemberFits(b: bytes, i: nat, l: nat, value: Json, v: nat) {
    && KeyEnds(b, i, l)
    && Fits(b, BlankEnd(b, BlankEnd(b, l) + 1), value)
    && v == BlankEnd(b, BlankEnd(b, l) + 1) + Size(value) && v <= |b|
  }

  lemma LastMemberFits(b: bytes, i: nat, l: nat, value: Json, v: nat) returns (s: Members)
    requires MemberFits(b, i, l, value, v) && Mark(b, BlankEnd(b, v), RBRACE)
    ensures FitsMembers(b, i, s) && s.LastMember? && s.key.lit == b[BlankEnd(b, i)..l] && s.slot.value == value
    ensures i + MembersSize(s) == BlankEnd(b, v) + 1
  {
    hide FitsSlot, Fits, SlotSize, FitsKey, KeySize, KeyOf, SlotOf, KeyEnds;
    s := LastMember(KeyOf(b, i, l), SlotOf(b, BlankEnd(b, l) + 1, value));
  }

  lemma MoreMembersFit(b: bytes, i: nat, l: nat, value: Json, v: nat, rest: Members) returns (s: Members)
    requires MemberFits(b, i, l, value, v) && Mark(b, BlankEnd(b, v), COMMA) && FitsMembers(b, BlankEnd(b, v) + 1, rest)
    ensures FitsMembers(b, i, s) && s.MoreMembers? && s.key.lit == b[BlankEnd(b, i)..l] && s.slot.value == value && s.rest == rest
    ensures i + MembersSize(s) == BlankEnd(b, v) + 1 + MembersSize(rest)
  {
    hide FitsSlot, Fits, SlotSize, FitsKey, KeySize, KeyOf, SlotOf, KeyEnds;
    s := MoreMembers(KeyOf(b, i, l), SlotOf(b, BlankEnd(b, l) + 1, value), rest);
  }

  lemma MembersSynthesis(b: bytes, i: nat, l: nat, v: nat, j: nat)
    requires MemberEnds(b, i, l, v) && v <= |b|
    requires var e := BlankEnd(b, v);
      (Mark(b, e, RBRACE) && j == e + 1) || (Mark(b, e, COMMA) && MembersEnd(b, e + 1, j))
    ensures MembersEnd(b, i, j)
  {
    hide Fits, KeyEnds, FitsMembers, Size, MembersSize;
    var value :| Fits(b, BlankEnd(b, BlankEnd(b, l) + 1), value) && v == BlankEnd(b, BlankEnd(b, l) + 1) + Size(value);
    assert MemberFits(b, i, l, value, v);
    hide MemberFits;
    var e := BlankEnd(b, v);
    if Mark(b, e, RBRACE) {
      var s := LastMemberFits(b, i, l, value, v);
    } else {
      var rest :| FitsMembers(b, e + 1, rest) && j == e + 1 + MembersSize(rest);
      var s := MoreMembersFit(b, i, l, value, v, rest);
    }
  }

  // ----- one value, by its first byte

  lemma StringValue(b: bytes, i: nat, j: nat)
    requires Mark(b, i, QUOTE)
    ensures ValueEnds(b, i, j) <==> StringAt(b, i, j)
  {
    if ValueEnds(b, i, j) {
      var v :| Fits(b, i, v) && j == i + Size(v);
      FirstByte(b, i, v);
    }
    if StringAt(b, i, j) {
      assert Fits(b, i, Str(b[i..j]));
    }
  }

  lemma ArrayValue(b: bytes, i: nat, j: nat)
    requires Mark(b, i, LBRACKET)
    ensures var e := BlankEnd(b, i + 1);
      ValueEnds(b, i, j) <==> if Mark(b, e, RBRACKET) then j == e + 1 else ItemsEnd(b, i + 1, j)
  {
    hide FitsItems, ItemsSize, Pad, NumberAt, Literal, FitsMembers, MembersSize, At;
    var e := BlankEnd(b, i + 1);
    if ValueEnds(b, i, j) {
      var v :| Fits(b, i, v) && j == i + Size(v);
      FirstByte(b, i, v);
      if v.EmptyArray? { PadRun(b, i + 1, v.pad); } else { ItemStart(b, i + 1, v.items); }
    }
    if Mark(b, e, RBRACKET) {
      RunIsPad(b, i + 1);
      assert Fits(b, i, EmptyArray(Run(b, i + 1)));
      assert ValueEnds(b, i, e + 1);
    } else if ItemsEnd(b, i + 1, j) {
      var s :| FitsItems(b, i + 1, s) && j == i + 1 + ItemsSize(s);
      assert Fits(b, i, Array(s));
    }
  }

  lemma PadRun(b: bytes, i: nat, pad: bytes)
    requires Pad(b, i, pad) && i + |pad| < |b| && !IsBlank(b[i + |pad|])
    ensures i <= |b| && BlankEnd(b, i) == i + |pad|
  {
    PadIsRun(b, i, pad);
  }

  lemma RunIsPad(b: bytes, i: nat)
    requires i <= |b|
    ensures Pad(b, i, Run(b, i))
  {
  }

  lemma ObjectValue(b: bytes, i: nat, j: nat)
    requires Mark(b, i, LBRACE)
    ensures var e := BlankEnd(b, i + 1);
      ValueEnds(b, i, j) <==> if Mark(b, e, RBRACE) then j == e + 1 else MembersEnd(b, i + 1, j)
  {
    hide FitsMembers;
    var e := BlankEnd(b, i + 1);
    if ValueEnds(b, i, j) {
      var v :| Fits(b, i, v) && j == i + Size(v);
      FirstByte(b, i, v);
      if v.EmptyObject? { PadIsRun(b, i + 1, v.pad); } else { KeyStart(b, i + 1, v.members); }
    }
    if Mark(b, e, RBRACE) {
      assert Fits(b, i, EmptyObject(Run(b, i + 1)));
      assert ValueEnds(b, i, e + 1);
    } else if MembersEnd(b, i + 1, j) {
      var s :| FitsMembers(b, i + 1, s) && j == i + 1 + MembersSize(s);
      assert Fits(b, i, Object(s));
    }
  }

  lemma WordValue(b: bytes, i: nat, text: bytes, j: nat)
    requires IsWord(text) && At(b, i, text)
    ensures ValueEnds(b, i, j) <==> j == i + |text|
    ensures Fits(b, i, Word(text)) && forall v :: Fits(b, i, v) ==> v == Word(text)
  {
    assert b[i] == b[i..i + |text|][0];
    forall v | Fits(b, i, v) ensures v == Word(text) {
      FirstByte(b, i, v);
      assert b[i] == b[i..i + |v.text|][0];
      assert b[i..i + |v.text|] == v.text;
    }
    assert Fits(b, i, Word(text));
  }

  lemma NumberValue(b: bytes, i: nat, j: nat)
    requires i < |b| && b[i] != QUOTE && b[i] != LBRACE && b[i] != LBRACKET
    requires !At(b, i, TRUE_TEXT) && !At(b, i, FALSE_TEXT) && !At(b, i, NULL_TEXT)
    ensures ValueEnds(b, i, j) <==> NumberAt(b, i, j)
  {
    hide NumberAt;
    if ValueEnds(b, i, j) {
      var v :| Fits(b, i, v) && j == i + Size(v);
      FirstByte(b, i, v);
    }
    if NumberAt(b, i, j) {
      NumberInside(b, i, j);
      assert Fits(b, i, Num(b[i..j]));
    }
  }

  lemma NumberInside(b: bytes, i: nat, j: nat)
    requires NumberAt(b, i, j)
    ensures i < j <= |b|
  {
    hide IsUtf8;
    NumberStart(Window(b, i)[..j - i]);
  }

  lemma ValueInside(b: bytes, i: nat, j: nat)
    requires PaddedValueEnds(b, i, j)
    ensures i < j <= |b|
  {
    EndsAreUnique(b, BlankEnd(b, i), j, j);
  }

  // ----- how deep the values nest

  /** Every value that fits at i, if any, nests at most d containers. */
  ghost predicate ValueWithin(b: bytes, i: nat, d: nat) { forall v :: Fits(b, i, v) ==> Depth(v) <= d }

  /** Every value that fits at i, if any, nests more than d containers. */
  ghost predicate ValueBeyond(b: bytes, i: nat, d: nat) { forall v :: Fits(b, i, v) ==> Depth(v) > d }

  ghost predicate ItemsWithin(b: bytes, i: nat, d: nat) { forall s :: FitsItems(b, i, s) ==> ItemsDepth(s) <= d }

  ghost predicate ItemsBeyond(b: bytes, i: nat, d: nat) { forall s :: FitsItems(b, i, s) ==> ItemsDepth(s) > d }

  ghost predicate MembersWithin(b: bytes, i: nat, d: nat) { forall s :: FitsMembers(b, i, s) ==> MembersDepth(s) <= d }

  ghost predicate MembersBeyond(b: bytes, i: nat, d: nat) { forall s :: FitsMembers(b, i, s) ==> MembersDepth(s) > d }

  /** A container nests at least itself, another value nests nothing. */
  lemma FirstDepth(b: bytes, i: nat)
    ensures Mark(b, i, LBRACKET) || Mark(b, i, LBRACE) ==> ValueBeyond(b, i, 0)
    ensures !Mark(b, i, LBRACKET) && !Mark(b, i, LBRACE) ==> forall d: nat :: ValueWithin(b, i, d)
  {
    forall v | Fits(b, i, v) ensures (Depth(v) > 0 <==> Mark(b, i, LBRACKET) || Mark(b, i, LBRACE)) {
      FirstByte(b, i, v);
    }
  }

  lemma ArrayDepth(b: bytes, i: nat, d: nat)
    requires Mark(b, i, LBRACKET)
    ensures Mark(b, BlankEnd(b, i + 1), RBRACKET) ==> ValueWithin(b, i, d + 1)
    ensures ItemsWithin(b, i + 1, d) ==> ValueWithin(b, i, d + 1)
    ensures !Mark(b, BlankEnd(b, i + 1), RBRACKET) && ItemsBeyond(b, i + 1, d) ==> ValueBeyond(b, i, d + 1)
  {
    hide FitsItems, ItemsDepth, At;
    forall v | Fits(b, i, v)
      ensures v.EmptyArray? || (v.Array? && FitsItems(b, i + 1, v.items))
      ensures v.EmptyArray? <==> Mark(b, BlankEnd(b, i + 1), RBRACKET)
    {
      FirstByte(b, i, v);
      if v.EmptyArray? { PadRun(b, i + 1, v.pad); } else { ItemStart(b, i + 1, v.items); }
    }
  }

  lemma ObjectDepth(b: bytes, i: nat, d: nat)
    requires Mark(b, i, LBRACE)
    ensures Mark(b, BlankEnd(b, i + 1), RBRACE) ==> ValueWithin(b, i, d + 1)
    ensures MembersWithin(b, i + 1, d) ==> ValueWithin(b, i, d + 1)
    ensures !Mark(b, BlankEnd(b, i + 1), RBRACE) && MembersBeyond(b, i + 1, d) ==> ValueBeyond(b, i, d + 1)
  {
    hide FitsMembers, MembersDepth, At;
    forall v | Fits(b, i, v)
      ensures v.EmptyObject? || (v.Object? && FitsMembers(b, i + 1, v.members))
      ensures v.EmptyObject? <==> Mark(b, BlankEnd(b, i + 1), RBRACE)
    {
      FirstByte(b, i, v);
      if v.EmptyObject? { PadRun(b, i + 1, v.pad); } else { KeyStart(b, i + 1, v.members); }
    }
  }

  /** The first of the items that fit at i: its value starts after the blanks and ends at v. */
  lemma FirstItem(b: bytes, i: nat, v: nat, s: Items)
    requires FitsItems(b, i, s) && forall k: nat :: PaddedValueEnds(b, i, k) <==> k == v
    ensures i <= |b| && Fits(b, BlankEnd(b, i), s.slot.value) && v <= |b| && BlankEnd(b, v) == i + SlotSize(s.slot)
  {
    hide FitsSlot, Fits, SlotSize;
    SlotForward(b, i, s.slot);
    assert ValueEnds(b, BlankEnd(b, i), BlankEnd(b, i) + Size(s.slot.value));
    assert PaddedValueEnds(b, i, BlankEnd(b, i) + Size(s.slot.value));
  }

  lemma ItemsDepthStep(b: bytes, i: nat, v: nat, d: nat)
    requires i <= |b| && v <= |b| && ValueWithin(b, BlankEnd(b, i), d)
    requires forall k: nat :: PaddedValueEnds(b, i, k) <==> k == v
    ensures Mark(b, BlankEnd(b, v), RBRACKET) ==> ItemsWithin(b, i, d)
    ensures Mark(b, BlankEnd(b, v), COMMA) && ItemsWithin(b, BlankEnd(b, v) + 1, d) ==> ItemsWithin(b, i, d)
    ensures Mark(b, BlankEnd(b, v), COMMA) && ItemsBeyond(b, BlankEnd(b, v) + 1, d) ==> ItemsBeyond(b, i, d)
  {
    hide Fits, FitsSlot, SlotSize, PaddedValueEnds;
    forall s | FitsItems(b, i, s)
      ensures Depth(s.slot.value) <= d && BlankEnd(b, v) == i + SlotSize(s.slot)
      ensures if s.LastItem? then Mark(b, BlankEnd(b, v), RBRACKET)
              else Mark(b, BlankEnd(b, v), COMMA) && FitsItems(b, BlankEnd(b, v) + 1, s.rest)
    {
      FirstItem(b, i, v, s);
    }
  }

  lemma DeepItem(b: bytes, i: nat, d: nat)
    requires i <= |b| && ValueBeyond(b, BlankEnd(b, i), d)
    ensures ItemsBeyond(b, i, d)
  {
    hide Fits, FitsSlot, SlotSize;
    forall s | FitsItems(b, i, s) ensures Depth(s.slot.value) > d { SlotForward(b, i, s.slot); }
  }

  /** At the mark e after a member from i on: how the nesting of all members follows from that
      of the rest. */
  ghost predicate AfterMember(b: bytes, i: nat, e: nat, d: nat) {
    && (Mark(b, e, RBRACE) ==> MembersWithin(b, i, d))
    && (Mark(b, e, COMMA) && MembersWithin(b, e + 1, d) ==> MembersWithin(b, i, d))
    && (Mark(b, e, COMMA) && MembersBeyond(b, e + 1, d) ==> MembersBeyond(b, i, d))
  }

  /** The first of the members that fit at i, whose value after the colon ends at v. */
  lemma FirstMember(b: bytes, i: nat, l: nat, p: nat, v: nat, s: Members)
    requires FitsMembers(b, i, s) && KeyEnds(b, i, l) && p == BlankEnd(b, l) + 1
    requires forall k: nat :: PaddedValueEnds(b, p, k) <==> k == v
    ensures p <= |b| && v <= |b| && Fits(b, BlankEnd(b, p), s.slot.value)
    ensures BlankEnd(b, v) == i + KeySize(s.key) + 1 + SlotSize(s.slot)
  {
    hide Fits, FitsSlot, FitsKey, KeyEnds, SlotSize, KeySize, FitsMembers;
    var m, w := MembersParts(b, i, s);
    KeyUnique(b, i, l, m);
    assert ValueEnds(b, BlankEnd(b, p), w);
    assert PaddedValueEnds(b, p, w);
  }

  lemma MembersDepthStep(b: bytes, i: nat, l: nat, p: nat, v: nat, d: nat)
    requires KeyEnds(b, i, l) && v <= |b| && p == BlankEnd(b, l) + 1 && ValueWithin(b, BlankEnd(b, p), d)
    requires forall k: nat :: PaddedValueEnds(b, p, k) <==> k == v
    ensures AfterMember(b, i, BlankEnd(b, v), d)
  {
    hide Fits, FitsSlot, FitsKey, KeyEnds, SlotSize, KeySize, PaddedValueEnds, BlankEnd;
    forall s | FitsMembers(b, i, s)
      ensures Depth(s.slot.value) <= d
      ensures if s.LastMember? then Mark(b, BlankEnd(b, v), RBRACE)
              else Mark(b, BlankEnd(b, v), COMMA) && FitsMembers(b, BlankEnd(b, v) + 1, s.rest)
    {
      FirstMember(b, i, l, p, v, s);
    }
  }

  lemma DeepMember(b: bytes, i: nat, l: nat, d: nat)
    requires KeyEnds(b, i, l) && ValueBeyond(b, BlankEnd(b, BlankEnd(b, l) + 1), d)
    ensures MembersBeyond(b, i, d)
  {
    hide Fits, FitsSlot, FitsKey, KeyEnds, SlotSize, KeySize;
    forall s | FitsMembers(b, i, s) ensures Depth(s.slot.value) > d {
      var m, w := MembersParts(b, i, s);
      KeyUnique(b, i, l, m);
    }
  }

  // ----- the metadata the scanner fills in

  class LargeJsonMetadata {
    var requestId: Option<string>
    var model: Option<string>
    var stream: Option<bool>

    constructor ()
      ensures View() == NO_METADATA
    {
      requestId, model, stream := None, None, None;
    }

    function View(): Metadata
      reads this
    {
      Metadata(requestId, model, stream)
    }
  }

  class JsonTopLevelScanner {
    const body: bytes
    const decode: Decoder

    /** How many nested containers the interpreter's recursion limit leaves room for. One more
        raises `RecursionError`, which the caller does not turn into "invalid JSON body". */
    const limit: nat

    constructor (body: bytes, decode: Decoder, limit: nat)
      ensures this.body == body && this.decode == decode && this.limit == limit
    {
      this.body := body;
      this.decode := decode;
      this.limit := limit;
    }

    method SkipWs(start: nat) returns (index: nat)
      requires start <= |body|
      ensures index == BlankEnd(body, start)
    {
      index := start;
      while index < |body| && IsBlank(body[index])
        invariant start <= index <= |body| && BlankEnd(body, index) == BlankEnd(body, start)
      {
        index := index + 1;
      }
    }

    method SkipString(start: nat) returns (r: Option<nat>)
      requires start <= |body|
      ensures forall j: nat :: StringAt(body, start, j) <==> r == Some(j)
      ensures r.Some? ==> start < r.value <= |body|
    {
      hide Closes;
      if start >= |body| || body[start] != QUOTE {
        return None;
      }
      var index := start + 1;
      while index < |body|
        invariant index <= |body| + 1
        invariant forall j: nat :: StringAt(body, start, j) <==> Closes(body, index, j)
      {
        var c := body[index];
        forall j: nat ensures Closes(body, index, j) <==>
          if c == QUOTE then j == index + 1
          else if c == BACKSLASH then Closes(body, index + 2, j)
          else c >= 0x20 && Closes(body, index + 1, j)
        {
          ClosesStep(body, index, j);
        }
        if c == QUOTE {
          return Some(index + 1);
        }
        if c == BACKSLASH {
          index := index + 2;
        } else {
          if c < 0x20 {
            return None;
          }
          index := index + 1;
        }
      }
      forall j: nat ensures !Closes(body, index, j) { NeverCloses(body, index, j); }
      r := None;
    }

    method ParseString(index: nat) returns (r: Option<(string, nat)>)
      requires index <= |body|
      ensures r.Some? ==> index < r.value.1 <= |body|
      ensures r.Some? ==> StringAt(body, index, r.value.1) && decode(body[index..r.value.1]) == Some(r.value.0)
      ensures r.None? ==> forall j: nat :: StringAt(body, index, j) ==> decode(body[index..j]).None?
    {
      var end := SkipString(index);
      if end.None? {
        return None;
      }
      var value := decode(body[index..end.value]);
      r := if value.None? then None else Some((value.value, end.value));
    }

    method SkipNumber(index: nat) returns (r: Option<nat>)
      requires index <= |body|
      ensures forall j: nat :: NumberAt(body, index, j) <==> r == Some(j)
    {
      var text := Window(body, index);
      if !IsUtf8(text, 0) {
        return None;
      }
      var consumed := LongestNumber(text, |text|);
      hide IsNumber, IsUtf8;
      r := if consumed.None? then None else Some(index + consumed.value);
      forall j: nat ensures NumberAt(body, index, j) <==> r == Some(j) {
      }
    }

    /** `depth` containers are open. Without `tooDeep` this decides the grammar; with it, every
        value that fits nests more than there is room for. */
    method SkipValue(start: nat, depth: nat) returns (r: Option<nat>, tooDeep: bool)
      requires start <= |body| && depth <= limit
      ensures !tooDeep ==> forall j: nat :: PaddedValueEnds(body, start, j) <==> r == Some(j)
      ensures r.Some? ==> !tooDeep && start < r.value <= |body| && ValueWithin(body, BlankEnd(body, start), limit - depth)
      ensures tooDeep ==> r.None? && ValueBeyond(body, BlankEnd(body, start), limit - depth)
      decreases |body| - start, 1
    {
      hide ValueEnds, NumberAt, StringAt, ValueWithin, ValueBeyond;
      tooDeep := false;
      var index := SkipWs(start);
      if index >= |body| {
        forall j: nat ensures !PaddedValueEnds(body, start, j) { NoValueAtEnd(body, start, j); }
        return None, false;
      }
      FirstDepth(body, index);
      var c := body[index];
      if c == QUOTE {
        r := SkipString(index);
        forall j: nat ensures PaddedValueEnds(body, start, j) <==> StringAt(body, index, j) { StringValue(body, index, j); }
      } else if c == LBRACE {
        r, tooDeep := SkipObject(index, depth);
      } else if c == LBRACKET {
        r, tooDeep := SkipArray(index, depth);
      } else if At(body, index, TRUE_TEXT) {
        forall j: nat ensures ValueEnds(body, index, j) <==> j == index + 4 { WordValue(body, index, TRUE_TEXT, j); }
        r := Some(index + 4);
      } else if At(body, index, FALSE_TEXT) {
        forall j: nat ensures ValueEnds(body, index, j) <==> j == index + 5 { WordValue(body, index, FALSE_TEXT, j); }
        r := Some(index + 5);
      } else if At(body, index, NULL_TEXT) {
        forall j: nat ensures ValueEnds(body, index, j) <==> j == index + 4 { WordValue(body, index, NULL_TEXT, j); }
        r := Some(index + 4);
      } else {
        r := SkipNumber(index);
        forall j: nat ensures ValueEnds(body, index, j) <==> NumberAt(body, index, j) { NumberValue(body, index, j); }
      }
      if r.Some? { ValueInside(body, start, r.value); }
    }

    method SkipObject(start: nat, depth: nat) returns (r: Option<nat>, tooDeep: bool)
      requires Mark(body, start, LBRACE) && depth <= limit
      ensures !tooDeep ==> forall j: nat :: ValueEnds(body, start, j) <==> r == Some(j)
      ensures r.Some? ==> !tooDeep && ValueWithin(body, start, limit - depth)
      ensures tooDeep ==> r.None? && ValueBeyond(body, start, limit - depth)
      decreases |body| - start, 0
    {
      hide ValueEnds, MembersEnd, BlankEnd, StringAt, PaddedValueEnds, ValueWithin, ValueBeyond, MembersWithin, MembersBeyond;
      FirstDepth(body, start);
      if depth == limit {
        return None, true;
      }
      ghost var room: nat := limit - depth - 1;
      tooDeep := false;
      var index := SkipWs(start + 1);
      ObjectDepth(body, start, room);
      forall j: nat ensures ValueEnds(body, start, j)
        <==> if Mark(body, index, RBRACE) then j == index + 1 else MembersEnd(body, start + 1, j)
      {
        ObjectValue(body, start, j);
      }
      if index < |body| && body[index] == RBRACE {
        return Some(index + 1), false;
      }
      ghost var anchor: nat := start + 1;
      BlankEndTwice(body, anchor);
      while true
        invariant anchor <= index <= |body| && start < anchor && !tooDeep
        invariant BlankEnd(body, index) == BlankEnd(body, anchor)
        invariant forall j: nat :: ValueEnds(body, start, j) <==> MembersEnd(body, anchor, j)
        invariant MembersWithin(body, anchor, room) ==> ValueWithin(body, start, limit - depth)
        invariant MembersBeyond(body, anchor, room) ==> ValueBeyond(body, start, limit - depth)
        decreases |body| - index
      {
        var quote := SkipWs(index);
        var key := SkipString(quote);
        if key.None? {
          forall j: nat ensures !MembersEnd(body, anchor, j) { NoKey(body, anchor, j); }
          return None, false;
        }
        index := SkipWs(key.value);
        if index >= |body| || body[index] != COLON {
          forall j: nat ensures !MembersEnd(body, anchor, j) { NoColon(body, anchor, key.value, j); }
          return None, false;
        }
        ghost var p: nat := index + 1;
        IsKeyEnd(body, anchor, key.value);
        var value, deep := SkipValue(index + 1, depth + 1);
        if deep {
          DeepMember(body, anchor, key.value, room);
          return None, true;
        }
        if value.None? {
          forall j: nat ensures !MembersEnd(body, anchor, j) { NoMemberValue(body, anchor, key.value, p, j); }
          return None, false;
        }
        index := SkipWs(value.value);
        MembersDepthStep(body, anchor, key.value, p, value.value, room);
        forall j: nat ensures MembersEnd(body, anchor, j)
          <==> (Mark(body, index, RBRACE) && j == index + 1) || (Mark(body, index, COMMA) && MembersEnd(body, index + 1, j))
        {
          MembersStep(body, anchor, key.value, p, value.value, j);
        }
        if index >= |body| {
          return None, false;
        }
        if body[index] == RBRACE {
          return Some(index + 1), false;
        }
        if body[index] != COMMA {
          return None, false;
        }
        index := index + 1;
        anchor := index;
      }
    }

    method SkipArray(start: nat, depth: nat) returns (r: Option<nat>, tooDeep: bool)
      requires Mark(body, start, LBRACKET) && depth <= limit
      ensures !tooDeep ==> forall j: nat :: ValueEnds(body, start, j) <==> r == Some(j)
      ensures r.Some? ==> !tooDeep && ValueWithin(body, start, limit - depth)
      ensures tooDeep ==> r.None? && ValueBeyond(body, start, limit - depth)
      decreases |body| - start, 0
    {
      hide ValueEnds, ItemsEnd, ValueWithin, ValueBeyond, ItemsWithin, ItemsBeyond;
      FirstDepth(body, start);
      if depth == limit {
        return None, true;
      }
      ghost var room: nat := limit - depth - 1;
      tooDeep := false;
      var index := SkipWs(start + 1);
      ArrayDepth(body, start, room);
      forall j: nat ensures ValueEnds(body, start, j)
        <==> if Mark(body, index, RBRACKET) then j == index + 1 else ItemsEnd(body, start + 1, j)
      {
        ArrayValue(body, start, j);
      }
      if index < |body| && body[index] == RBRACKET {
        return Some(index + 1), false;
      }
      ghost var anchor: nat := start + 1;
      BlankEndTwice(body, anchor);
      while true
        invariant anchor <= index <= |body| && start < anchor && !tooDeep
        invariant BlankEnd(body, index) == BlankEnd(body, anchor)
        invariant forall j: nat :: ValueEnds(body, start, j) <==> ItemsEnd(body, anchor, j)
        invariant ItemsWithin(body, anchor, room) ==> ValueWithin(body, start, limit - depth)
        invariant ItemsBeyond(body, anchor, room) ==> ValueBeyond(body, start, limit - depth)
        decreases |body| - index
      {
        var value, deep := SkipValue(index, depth + 1);
        if deep {
          DeepItem(body, anchor, room);
          return None, true;
        }
        forall j: nat ensures PaddedValueEnds(body, anchor, j) <==> value == Some(j) {
          SamePadding(body, anchor, index, j);
        }
        if value.None? {
          forall j: nat ensures !ItemsEnd(body, anchor, j) { NoItem(body, anchor, j); }
          return None, false;
        }
        index := SkipWs(value.value);
        ItemsDepthStep(body, anchor, value.value, room);
        forall j: nat ensures ItemsEnd(body, anchor, j)
          <==> (Mark(body, index, RBRACKET) && j == index + 1) || (Mark(body, index, COMMA) && ItemsEnd(body, index + 1, j))
        {
          ItemsStep(body, anchor, value.value, j);
        }
        if index >= |body| {
          return None, false;
        }
        if body[index] == RBRACKET {
          return Some(index + 1), false;
        }
        if body[index] != COMMA {
          return None, false;
        }
        index := index + 1;
        anchor := index;
      }
    }

    /** Reads the value of a metadata key. `lit` is the key's literal. */
    method ReadMetadataValue(metadata: LargeJsonMetadata, key: string, index: nat, ghost lit: bytes)
        returns (r: Option<nat>, tooDeep: bool)
      requires index <= |body| && BlankEnd(body, index) == index
      requires decode(lit) == Some(key) && IsMetadataKey(key)
      modifies metadata
      ensures r.Some? ==> !tooDeep && ValueWithin(body, index, limit)
      ensures r.Some? ==> MemberRead(body, decode, index, lit, old(metadata.View()), metadata.View(), r.value)
      ensures r.None? && !tooDeep ==> MemberFails(body, decode, index, lit, old(metadata.View()))
      ensures tooDeep ==> r.None? && ValueBeyond(body, index, limit)
    {
      hide Fits, ValueEnds, ValueWithin, ValueBeyond;
      ghost var md := metadata.View();
      tooDeep := false;
      FirstDepth(body, index);
      if key == "stream" {
        if At(body, index, TRUE_TEXT) {
          metadata.stream := Some(true);
          WordRead(body, decode, index, lit, TRUE_TEXT, md, metadata.View());
          WordIsFlat(body, index, TRUE_TEXT);
          return Some(index + 4), false;
        }
        if At(body, index, FALSE_TEXT) {
          metadata.stream := Some(false);
          WordRead(body, decode, index, lit, FALSE_TEXT, md, metadata.View());
          WordIsFlat(body, index, FALSE_TEXT);
          return Some(index + 5), false;
        }
        r, tooDeep := SkipValue(index, 0);
        if tooDeep {
          return;
        }
        forall v | Fits(body, index, v) ensures ReadMember(md, decode, lit, v) == Some(md) { NotThisWord(body, index, v); }
        SkippedValue(body, decode, index, lit, md, r);
        return;
      }
      if index < |body| && body[index] == QUOTE {
        var value := ParseString(index);
        if value.None? {
          StringFails(body, decode, index, lit, key, md);
          return None, false;
        }
        if value.value.0 != "" {
          if key == "model" {
            metadata.model := Some(value.value.0);
          } else {
            metadata.requestId := Some(value.value.0);
          }
        }
        StringRead(body, decode, index, lit, key, md, metadata.View(), value.value.0, value.value.1);
        return Some(value.value.1), false;
      }
      r, tooDeep := SkipValue(index, 0);
      if tooDeep {
        return;
      }
      forall v | Fits(body, index, v) ensures ReadMember(md, decode, lit, v) == Some(md) { FirstByte(body, index, v); }
      SkippedValue(body, decode, index, lit, md, r);
    }

    /** One member from `start` on: the position of the mark after it, with what is left to read
        there. `anchor` is where the blanks before it begin. */
    method ScanMember(metadata: LargeJsonMetadata, start: nat, ghost anchor: nat) returns (r: Option<nat>, tooDeep: bool)
      requires anchor <= start <= |body| && BlankEnd(body, start) == BlankEnd(body, anchor)
      modifies metadata
      ensures r.Some? ==> !tooDeep && start <= r.value <= |body| && AfterMember(body, anchor, r.value, limit)
      ensures r.Some? ==> forall md ::
        AcceptsRest(body, decode, anchor, old(metadata.View()), md) <==> AcceptsAtMark(body, decode, r.value, metadata.View(), md)
      ensures r.None? && !tooDeep ==> forall md :: !AcceptsRest(body, decode, anchor, old(metadata.View()), md)
      ensures tooDeep ==> r.None? && MembersBeyond(body, anchor, limit)
    {
      hide Accepts, AcceptsRest, AcceptsAtMark, BlankEnd, PaddedValueEnds, MemberRead, MemberFails, StringAt, ReadMember, KeyEnds,
           ValueWithin, ValueBeyond, MembersWithin, MembersBeyond, AfterMember;
      ghost var before := metadata.View();
      var index := SkipWs(start);
      ghost var quote := index;
      var key := ParseString(index);
      if key.None? {
        forall md ensures !AcceptsRest(body, decode, anchor, before, md) { NoKeyAccepts(body, decode, anchor, before, md); }
        return None, false;
      }
      var end := key.value.1;
      ghost var lit := body[quote..end];
      index := SkipWs(end);
      if index >= |body| || body[index] != COLON {
        forall md ensures !AcceptsRest(body, decode, anchor, before, md) { NoColonAccepts(body, decode, anchor, end, before, md); }
        return None, false;
      }
      ghost var after: nat := index + 1;
      IsKeyEnd(body, anchor, end);
      index := SkipWs(index + 1);
      ghost var p := index;
      BlankEndTwice(body, after);
      var next, deep;
      if IsMetadataKey(key.value.0) {
        next, deep := ReadMetadataValue(metadata, key.value.0, index, lit);
      } else {
        next, deep := SkipValue(index, 0);
        if !deep { OtherKey(body, decode, index, lit, key.value.0, before, next); }
      }
      if deep {
        DeepMember(body, anchor, end, limit);
        return None, true;
      }
      if next.None? {
        forall md ensures !AcceptsRest(body, decode, anchor, before, md) {
          FailedMember(body, decode, anchor, end, p, before, md);
        }
        return None, false;
      }
      MemberReadInside(body, decode, p, lit, before, metadata.View(), next.value);
      ReadMemberEnds(body, decode, after, lit, before, metadata.View(), next.value);
      MembersDepthStep(body, anchor, end, after, next.value, limit);
      index := SkipWs(next.value);
      forall md ensures AcceptsRest(body, decode, anchor, before, md) <==> AcceptsAtMark(body, decode, index, metadata.View(), md) {
        AcceptsStep(body, decode, anchor, end, p, next.value, before, metadata.View(), md);
      }
      r, tooDeep := Some(index), false;
    }

    /** The members after the opening brace, up to and beyond the closing one. */
    method ScanMembers(metadata: LargeJsonMetadata, first: nat) returns (ok: bool, tooDeep: bool)
      requires first <= |body| && metadata.View() == NO_METADATA
      modifies metadata
      ensures ok ==> AcceptsRest(body, decode, first, NO_METADATA, metadata.View()) && MembersWithin(body, first, limit)
      ensures !tooDeep ==> forall md :: AcceptsRest(body, decode, first, NO_METADATA, md) ==> ok && md == metadata.View()
      ensures tooDeep ==> !ok && MembersBeyond(body, first, limit)
    {
      hide AcceptsRest, BlankEnd, MembersWithin, MembersBeyond;
      ok, tooDeep := false, false;
      ghost var anchor: nat := first;
      var index := SkipWs(first);
      BlankEndTwice(body, anchor);
      while true
        invariant anchor <= index <= |body| && BlankEnd(body, index) == BlankEnd(body, anchor)
        invariant !ok && !tooDeep
        invariant forall md :: AcceptsRest(body, decode, first, NO_METADATA, md) <==> AcceptsRest(body, decode, anchor, metadata.View(), md)
        invariant MembersWithin(body, anchor, limit) ==> MembersWithin(body, first, limit)
        invariant MembersBeyond(body, anchor, limit) ==> MembersBeyond(body, first, limit)
        decreases |body| - index
      {
        var mark, deep := ScanMember(metadata, index, anchor);
        if deep {
          tooDeep := true;
          return;
        }
        if mark.None? {
          return;
        }
        index := mark.value;
        if index >= |body| {
          return;
        }
        if body[index] == RBRACE {
          index := SkipWs(index + 1);
          ok := index == |body|;
          return;
        }
        if body[index] != COMMA {
          return;
        }
        index := index + 1;
        anchor := index;
      }
    }

    /** Reads the metadata exactly when the whole body is one object of the grammar whose key
        literals, and the literals the metadata needs, decode, and whose values nest within
        the limit; `tooDeep` is the error for a body that nests deeper. */
    method ScanMetadata() returns (ok: bool, tooDeep: bool, metadata: LargeJsonMetadata)
      ensures fresh(metadata)
      ensures ok ==> !tooDeep && AcceptsWithin(body, decode, limit, metadata.View())
      ensures forall md :: AcceptsWithin(body, decode, limit, md) ==> ok && md == metadata.View()
      ensures tooDeep ==> forall v :: IsBody(body, v) ==> Depth(v) > limit + 1
    {
      hide Accepts, AcceptsRest, BlankEnd, PaddedValueEnds, MemberRead, MemberFails, StringAt, ReadMember, KeyEnds,
           MembersWithin, MembersBeyond, AcceptsWithin, IsBody;
      metadata := new LargeJsonMetadata();
      ok, tooDeep := false, false;
      forall md | AcceptsWithin(body, decode, limit, md) ensures Accepts(body, decode, md) {
        WithinIsAccepted(body, decode, limit, md);
      }
      var index := SkipWs(0);
      if index >= |body| || body[index] != LBRACE {
        forall md ensures !Accepts(body, decode, md) { NotAnObject(body, decode, md); }
        return;
      }
      index := index + 1;
      var anchor: nat := index;
      index := SkipWs(index);
      if index < |body| && body[index] == RBRACE {
        index := SkipWs(index + 1);
        forall md ensures Accepts(body, decode, md) <==> index == |body| && md == NO_METADATA {
          EmptyBody(body, decode, md);
        }
        ok := index == |body|;
        EmptyWithin(body, decode, limit, metadata.View());
        return;
      }
      forall md ensures Accepts(body, decode, md) <==> AcceptsRest(body, decode, anchor, NO_METADATA, md) {
        ObjectBody(body, decode, md);
      }
      ok, tooDeep := ScanMembers(metadata, anchor);
      BodyDepth(body, decode, limit);
    }
  }

  lemma WordIsFlat(b: bytes, i: nat, text: bytes)
    requires IsWord(text) && At(b, i, text)
    ensures forall d: nat :: ValueWithin(b, i, d)
  {
    WordValue(b, i, text, i + |text|);
    assert text[0] == b[i..i + |text|][0] == b[i];
    FirstDepth(b, i);
  }

  /** What a read member says about the ends of the padded value. */
  lemma ReadMemberEnds(b: bytes, decode: Decoder, q: nat, lit: bytes, md: Metadata, after: Metadata, end: nat)
    requires q <= |b| && MemberRead(b, decode, BlankEnd(b, q), lit, md, after, end)
    ensures forall k: nat :: PaddedValueEnds(b, q, k) <==> k == end
  {
    hide Fits, ReadMember, Size;
    forall k: nat ensures ValueEnds(b, BlankEnd(b, q), k) <==> k == end {}
  }

  lemma WithinIsAccepted(b: bytes, decode: Decoder, d: nat, md: Metadata)
    requires AcceptsWithin(b, decode, d, md)
    ensures Accepts(b, decode, md)
  {
    hide IsBody, ReadObject;
  }

  lemma EmptyWithin(b: bytes, decode: Decoder, d: nat, md: Metadata)
    requires var i := BlankEnd(b, 0); Mark(b, i, LBRACE) && Mark(b, BlankEnd(b, i + 1), RBRACE)
    ensures Accepts(b, decode, md) ==> AcceptsWithin(b, decode, d, md)
  {
    if Accepts(b, decode, md) {
      var v :| IsBody(b, v) && ReadObject(decode, v) == Some(md);
      BodyParts(b, v);
      assert v.EmptyObject? && Depth(v) == 1;
    }
  }

  /** The depth of a body that is not empty is one more than that of its members. */
  lemma BodyDepth(b: bytes, decode: Decoder, d: nat)
    requires var i := BlankEnd(b, 0); Mark(b, i, LBRACE) && !Mark(b, BlankEnd(b, i + 1), RBRACE)
    ensures (MembersWithin(b, BlankEnd(b, 0) + 1, d)
      ==> forall md :: Accepts(b, decode, md) ==> AcceptsWithin(b, decode, d, md))
    ensures (MembersBeyond(b, BlankEnd(b, 0) + 1, d)
      ==> (forall v :: IsBody(b, v) ==> Depth(v) > d + 1) && forall md :: !AcceptsWithin(b, decode, d, md))
  {
    hide FitsMembers, MembersDepth, ReadObject;
    forall v | IsBody(b, v) ensures v.Object? && FitsMembers(b, BlankEnd(b, 0) + 1, v.members) {
      BodyParts(b, v);
    }
  }

  lemma NeverCloses(b: bytes, k: nat, j: nat)
    requires k >= |b|
    ensures !Closes(b, k, j)
  {
  }

  lemma NoValueAtEnd(b: bytes, i: nat, j: nat)
    requires i <= |b| && BlankEnd(b, i) == |b|
    ensures !PaddedValueEnds(b, i, j)
  {
    forall v ensures !Fits(b, |b|, v) {
      if Fits(b, |b|, v) { FirstByte(b, |b|, v); }
    }
  }

  lemma SamePadding(b: bytes, i: nat, k: nat, j: nat)
    requires i <= |b| && k <= |b| && BlankEnd(b, i) == BlankEnd(b, k)
    ensures PaddedValueEnds(b, i, j) <==> PaddedValueEnds(b, k, j)
  {
  }

  lemma IsKeyEnd(b: bytes, i: nat, l: nat)
    requires i <= |b| && StringAt(b, BlankEnd(b, i), l) && Mark(b, BlankEnd(b, l), COLON)
    ensures KeyEnds(b, i, l)
  {
  }

  lemma NoKey(b: bytes, i: nat, j: nat)
    requires i <= |b| && forall l: nat :: !StringAt(b, BlankEnd(b, i), l)
    ensures !MembersEnd(b, i, j)
  {
    if MembersEnd(b, i, j) { var l, v := MembersAnalysis(b, i, j); }
  }

  lemma NoColon(b: bytes, i: nat, l: nat, j: nat)
    requires i <= |b| && StringAt(b, BlankEnd(b, i), l) && !Mark(b, BlankEnd(b, l), COLON)
    ensures !MembersEnd(b, i, j)
  {
    if MembersEnd(b, i, j) {
      var m, v := MembersAnalysis(b, i, j);
      ClosesUnique(b, BlankEnd(b, i) + 1, l, m);
    }
  }

  lemma NoMemberValue(b: bytes, i: nat, l: nat, p: nat, j: nat)
    requires KeyEnds(b, i, l) && p == BlankEnd(b, l) + 1
    requires forall v: nat :: !PaddedValueEnds(b, p, v)
    ensures !MembersEnd(b, i, j)
  {
    if MembersEnd(b, i, j) {
      var m, v := MembersAnalysis(b, i, j);
      KeyUnique(b, i, l, m);
    }
  }

  lemma MembersStep(b: bytes, i: nat, l: nat, p: nat, v: nat, j: nat)
    requires KeyEnds(b, i, l) && v <= |b| && p == BlankEnd(b, l) + 1
    requires forall k: nat :: PaddedValueEnds(b, p, k) <==> k == v
    ensures var e := BlankEnd(b, v);
      MembersEnd(b, i, j) <==> (Mark(b, e, RBRACE) && j == e + 1) || (Mark(b, e, COMMA) && MembersEnd(b, e + 1, j))
  {
    hide KeyEnds, MembersEnd, PaddedValueEnds;
    var e := BlankEnd(b, v);
    if MembersEnd(b, i, j) {
      var m, w := MembersAnalysis(b, i, j);
      KeyUnique(b, i, l, m);
    }
    if (Mark(b, e, RBRACE) && j == e + 1) || (Mark(b, e, COMMA) && MembersEnd(b, e + 1, j)) {
      MembersSynthesis(b, i, l, v, j);
    }
  }

  lemma NoItem(b: bytes, i: nat, j: nat)
    requires i <= |b| && forall v: nat :: !PaddedValueEnds(b, i, v)
    ensures !ItemsEnd(b, i, j)
  {
    if ItemsEnd(b, i, j) { ItemsAnalysis(b, i, 0, j); }
  }

  lemma ItemsStep(b: bytes, i: nat, v: nat, j: nat)
    requires v <= |b|
    requires forall k: nat :: PaddedValueEnds(b, i, k) <==> k == v
    ensures var e := BlankEnd(b, v);
      ItemsEnd(b, i, j) <==> (Mark(b, e, RBRACKET) && j == e + 1) || (Mark(b, e, COMMA) && ItemsEnd(b, e + 1, j))
  {
    hide ItemsEnd, PaddedValueEnds;
    var e := BlankEnd(b, v);
    if ItemsEnd(b, i, j) { ItemsAnalysis(b, i, v, j); }
    if (Mark(b, e, RBRACKET) && j == e + 1) || (Mark(b, e, COMMA) && ItemsEnd(b, e + 1, j)) {
      ItemsSynthesis(b, i, v, j);
    }
  }

  // ----- reading one metadata value

  predicate IsMetadataKey(key: string) { key == "model" || key == "request_id" || key == "stream" }

  /** Whatever value fits at p, the member ends at `end` and turns md into `after`. */
  ghost predicate MemberRead(b: bytes, decode: Decoder, p: nat, lit: bytes, md: Metadata, after: Metadata, end: nat) {
    && end <= |b| && ValueEnds(b, p, end)
    && forall v :: Fits(b, p, v) ==> end == p + Size(v) && ReadMember(md, decode, lit, v) == Some(after)
  }

  /** No value fits at p for which the member can be read. */
  ghost predicate MemberFails(b: bytes, decode: Decoder, p: nat, lit: bytes, md: Metadata) {
    forall v :: Fits(b, p, v) ==> ReadMember(md, decode, lit, v).None?
  }

  lemma WordRead(b: bytes, decode: Decoder, p: nat, lit: bytes, text: bytes, md: Metadata, after: Metadata)
    requires decode(lit) == Some("stream") && At(b, p, text) && (text == TRUE_TEXT || text == FALSE_TEXT)
    requires after == md.(stream := Some(text == TRUE_TEXT))
    ensures MemberRead(b, decode, p, lit, md, after, p + |text|)
  {
    WordValue(b, p, text, p + |text|);
  }

  lemma NotThisWord(b: bytes, p: nat, v: Json)
    requires Fits(b, p, v) && !At(b, p, TRUE_TEXT) && !At(b, p, FALSE_TEXT)
    ensures v != Word(TRUE_TEXT) && v != Word(FALSE_TEXT)
  {
  }

  /** A skipped value leaves the metadata as it was. */
  lemma SkippedValue(b: bytes, decode: Decoder, p: nat, lit: bytes, md: Metadata, r: Option<nat>)
    requires p <= |b| && BlankEnd(b, p) == p
    requires forall j: nat :: PaddedValueEnds(b, p, j) <==> r == Some(j)
    requires forall v :: Fits(b, p, v) ==> ReadMember(md, decode, lit, v) == Some(md)
    ensures r.Some? ==> MemberRead(b, decode, p, lit, md, md, r.value)
    ensures r.None? ==> MemberFails(b, decode, p, lit, md)
  {
    hide Fits, ReadMember, Size;
    forall v | Fits(b, p, v) ensures r == Some(p + Size(v)) {
      assert ValueEnds(b, p, p + Size(v));
      assert PaddedValueEnds(b, p, p + Size(v));
    }
    if r.Some? {
      assert PaddedValueEnds(b, p, r.value);
      ValueInside(b, p, r.value);
    }
  }

  lemma OtherKey(b: bytes, decode: Decoder, p: nat, lit: bytes, key: string, md: Metadata, r: Option<nat>)
    requires p <= |b| && BlankEnd(b, p) == p
    requires decode(lit) == Some(key) && !IsMetadataKey(key)
    requires forall j: nat :: PaddedValueEnds(b, p, j) <==> r == Some(j)
    ensures r.Some? ==> MemberRead(b, decode, p, lit, md, md, r.value)
    ensures r.None? ==> MemberFails(b, decode, p, lit, md)
  {
    hide Fits, PaddedValueEnds, MemberRead, MemberFails;
    SkippedValue(b, decode, p, lit, md, r);
  }

  lemma StringLiteral(b: bytes, p: nat, v: Json, end: nat)
    requires Fits(b, p, v) && Mark(b, p, QUOTE) && StringAt(b, p, end)
    ensures v == Str(b[p..end]) && end == p + Size(v)
  {
    FirstByte(b, p, v);
    ClosesUnique(b, p + 1, end, p + |v.lit|);
  }

  lemma StringFails(b: bytes, decode: Decoder, p: nat, lit: bytes, key: string, md: Metadata)
    requires Mark(b, p, QUOTE) && decode(lit) == Some(key) && (key == "model" || key == "request_id")
    requires forall j: nat :: StringAt(b, p, j) ==> decode(b[p..j]).None?
    ensures MemberFails(b, decode, p, lit, md)
  {
    forall v | Fits(b, p, v) ensures ReadMember(md, decode, lit, v).None? {
      FirstByte(b, p, v);
      assert StringAt(b, p, p + |v.lit|);
    }
  }

  lemma StringRead(b: bytes, decode: Decoder, p: nat, lit: bytes, key: string, md: Metadata, after: Metadata, value: string, end: nat)
    requires Mark(b, p, QUOTE) && decode(lit) == Some(key) && (key == "model" || key == "request_id")
    requires StringAt(b, p, end) && decode(b[p..end]) == Some(value)
    requires after == if value == "" then md else if key == "model" then md.(model := Some(value)) else md.(requestId := Some(value))
    ensures MemberRead(b, decode, p, lit, md, after, end)
  {
    assert Fits(b, p, Str(b[p..end]));
    hide Fits;
    forall v | Fits(b, p, v) ensures end == p + Size(v) && ReadMember(md, decode, lit, v) == Some(after) {
      StringLiteral(b, p, v, end);
    }
  }

  lemma MemberReadInside(b: bytes, decode: Decoder, p: nat, lit: bytes, md: Metadata, after: Metadata, end: nat)
    requires MemberRead(b, decode, p, lit, md, after, end)
    ensures p < end <= |b|
  {
    EndsAreUnique(b, p, end, end);
  }

  // ----- one step of the top-level loop

  lemma NotAnObject(b: bytes, decode: Decoder, md: Metadata)
    requires !Mark(b, BlankEnd(b, 0), LBRACE)
    ensures !Accepts(b, decode, md)
  {
    if Accepts(b, decode, md) {
      var v :| IsBody(b, v) && ReadObject(decode, v) == Some(md);
      FirstByte(b, BlankEnd(b, 0), v);
    }
  }

  lemma BodyParts(b: bytes, v: Json)
    requires IsBody(b, v)
    ensures var i := BlankEnd(b, 0);
      && Mark(b, i, LBRACE)
      && if v.EmptyObject? then Mark(b, BlankEnd(b, i + 1), RBRACE) && i + Size(v) == BlankEnd(b, i + 1) + 1
         else !Mark(b, BlankEnd(b, i + 1), RBRACE) && v.Object? && FitsMembers(b, i + 1, v.members)
              && i + Size(v) == i + 1 + MembersSize(v.members)
              && i + Size(v) <= |b| && BlankEnd(b, i + Size(v)) == |b|
  {
    hide FitsMembers, MembersSize;
    var i := BlankEnd(b, 0);
    if v.EmptyObject? { PadRun(b, i + 1, v.pad); } else { KeyStart(b, i + 1, v.members); }
  }

  lemma EmptyIsBody(b: bytes, i: nat, e: nat) returns (v: Json)
    requires i == BlankEnd(b, 0) && Mark(b, i, LBRACE) && e == BlankEnd(b, i + 1) && Mark(b, e, RBRACE)
    requires BlankEnd(b, e + 1) == |b|
    ensures v.EmptyObject? && IsBody(b, v)
  {
    hide Pad;
    v := EmptyObject(Run(b, i + 1));
    RunIsPad(b, i + 1);
  }

  lemma EmptyBody(b: bytes, decode: Decoder, md: Metadata)
    requires var i := BlankEnd(b, 0); Mark(b, i, LBRACE) && Mark(b, BlankEnd(b, i + 1), RBRACE)
    ensures var i := BlankEnd(b, 0);
      Accepts(b, decode, md) <==> BlankEnd(b, BlankEnd(b, i + 1) + 1) == |b| && md == NO_METADATA
  {
    hide Fits, FitsMembers, Size;
    var i := BlankEnd(b, 0);
    var e := BlankEnd(b, i + 1);
    if Accepts(b, decode, md) {
      var v :| IsBody(b, v) && ReadObject(decode, v) == Some(md);
      BodyParts(b, v);
    }
    if BlankEnd(b, e + 1) == |b| && md == NO_METADATA {
      var v := EmptyIsBody(b, i, e);
    }
  }

  lemma ObjectBody(b: bytes, decode: Decoder, md: Metadata)
    requires var i := BlankEnd(b, 0); Mark(b, i, LBRACE) && !Mark(b, BlankEnd(b, i + 1), RBRACE)
    ensures Accepts(b, decode, md) <==> AcceptsRest(b, decode, BlankEnd(b, 0) + 1, NO_METADATA, md)
  {
    hide FitsMembers, ReadMembers, MembersSize, IsBody;
    var i := BlankEnd(b, 0);
    if Accepts(b, decode, md) {
      var v :| IsBody(b, v) && ReadObject(decode, v) == Some(md);
      BodyParts(b, v);
    }
    if AcceptsRest(b, decode, i + 1, NO_METADATA, md) {
      var s :| FitsMembers(b, i + 1, s) && i + 1 + MembersSize(s) <= |b| && BlankEnd(b, i + 1 + MembersSize(s)) == |b|
        && ReadMembers(NO_METADATA, decode, s) == Some(md);
      MembersAreBody(b, s);
    }
  }

  lemma MembersAreBody(b: bytes, s: Members)
    requires var i := BlankEnd(b, 0); Mark(b, i, LBRACE) && FitsMembers(b, i + 1, s)
    requires var e := BlankEnd(b, 0) + 1 + MembersSize(s); e <= |b| && BlankEnd(b, e) == |b|
    ensures IsBody(b, Object(s))
  {
    hide FitsMembers, MembersSize;
  }

  lemma NoKeyAccepts(b: bytes, decode: Decoder, i: nat, md: Metadata, result: Metadata)
    requires i <= |b|
    requires forall j: nat :: StringAt(b, BlankEnd(b, i), j) ==> decode(b[BlankEnd(b, i)..j]).None?
    ensures !AcceptsRest(b, decode, i, md, result)
  {
    hide FitsMembers, MembersSize;
    if AcceptsRest(b, decode, i, md, result) {
      var s :| FitsMembers(b, i, s) && i + MembersSize(s) <= |b| && BlankEnd(b, i + MembersSize(s)) == |b|
        && ReadMembers(md, decode, s) == Some(result);
      var l, v := MembersParts(b, i, s);
    }
  }

  lemma NoColonAccepts(b: bytes, decode: Decoder, i: nat, l: nat, md: Metadata, result: Metadata)
    requires i <= |b| && StringAt(b, BlankEnd(b, i), l) && !Mark(b, BlankEnd(b, l), COLON)
    ensures !AcceptsRest(b, decode, i, md, result)
  {
    hide FitsMembers, MembersSize, ReadMembers;
    if AcceptsRest(b, decode, i, md, result) {
      var s :| FitsMembers(b, i, s) && i + MembersSize(s) <= |b| && BlankEnd(b, i + MembersSize(s)) == |b|
        && ReadMembers(md, decode, s) == Some(result);
      var m, v := MembersParts(b, i, s);
      ClosesUnique(b, BlankEnd(b, i) + 1, l, m);
    }
  }

  lemma FailedMember(b: bytes, decode: Decoder, i: nat, l: nat, p: nat, md: Metadata, result: Metadata)
    requires KeyEnds(b, i, l) && p == BlankEnd(b, BlankEnd(b, l) + 1)
    requires MemberFails(b, decode, p, b[BlankEnd(b, i)..l], md)
    ensures !AcceptsRest(b, decode, i, md, result)
  {
    hide FitsMembers, MembersSize, KeyEnds, Fits, ReadMember;
    if AcceptsRest(b, decode, i, md, result) {
      var s :| FitsMembers(b, i, s) && i + MembersSize(s) <= |b| && BlankEnd(b, i + MembersSize(s)) == |b|
        && ReadMembers(md, decode, s) == Some(result);
      var m, v := MembersParts(b, i, s);
      KeyUnique(b, i, l, m);
    }
  }

  /** At the mark after a member: the object closes and nothing follows, or more is read. */
  ghost predicate AcceptsAtMark(b: bytes, decode: Decoder, e: nat, md: Metadata, result: Metadata) {
    || (Mark(b, e, RBRACE) && BlankEnd(b, e + 1) == |b| && result == md)
    || (Mark(b, e, COMMA) && AcceptsRest(b, decode, e + 1, md, result))
  }

  lemma AcceptsStep(b: bytes, decode: Decoder, i: nat, l: nat, p: nat, end: nat, md: Metadata, after: Metadata, result: Metadata)
    requires KeyEnds(b, i, l) && p == BlankEnd(b, BlankEnd(b, l) + 1)
    requires end <= |b| && MemberRead(b, decode, p, b[BlankEnd(b, i)..l], md, after, end)
    ensures AcceptsRest(b, decode, i, md, result) <==> AcceptsAtMark(b, decode, BlankEnd(b, end), after, result)
  {
    hide KeyEnds, Fits, ReadMember, MembersSize, AcceptsRest;
    if AcceptsRest(b, decode, i, md, result) {
      AcceptsForward(b, decode, i, l, p, end, md, after, result);
    }
    if AcceptsAtMark(b, decode, BlankEnd(b, end), after, result) {
      AcceptsBackward(b, decode, i, l, p, end, md, after, result);
    }
  }

  lemma AcceptsForward(b: bytes, decode: Decoder, i: nat, l: nat, p: nat, end: nat, md: Metadata, after: Metadata, result: Metadata)
    requires KeyEnds(b, i, l) && p == BlankEnd(b, BlankEnd(b, l) + 1)
    requires end <= |b| && MemberRead(b, decode, p, b[BlankEnd(b, i)..l], md, after, end)
    requires AcceptsRest(b, decode, i, md, result)
    ensures AcceptsAtMark(b, decode, BlankEnd(b, end), after, result)
  {
    hide KeyEnds, Fits, ReadMember, FitsKey, FitsSlot, SlotSize, KeySize, BlankEnd, Size;
    var s :| FitsMembers(b, i, s) && i + MembersSize(s) <= |b| && BlankEnd(b, i + MembersSize(s)) == |b|
      && ReadMembers(md, decode, s) == Some(result);
    var m, v := MembersParts(b, i, s);
    KeyUnique(b, i, l, m);
    var e := BlankEnd(b, end);
    assert e == i + KeySize(s.key) + 1 + SlotSize(s.slot);
    if s.MoreMembers? {
      assert FitsMembers(b, e + 1, s.rest) && i + MembersSize(s) == e + 1 + MembersSize(s.rest);
    }
  }

  lemma AcceptsBackward(b: bytes, decode: Decoder, i: nat, l: nat, p: nat, end: nat, md: Metadata, after: Metadata, result: Metadata)
    requires KeyEnds(b, i, l) && p == BlankEnd(b, BlankEnd(b, l) + 1)
    requires end <= |b| && MemberRead(b, decode, p, b[BlankEnd(b, i)..l], md, after, end)
    requires AcceptsAtMark(b, decode, BlankEnd(b, end), after, result)
    ensures AcceptsRest(b, decode, i, md, result)
  {
    hide KeyEnds, Fits, ReadMember, FitsMembers, MembersSize;
    var e := BlankEnd(b, end);
    var value :| Fits(b, p, value) && end == p + Size(value);
    assert MemberFits(b, i, l, value, end);
    if Mark(b, e, RBRACE) {
      var s := LastMemberFits(b, i, l, value, end);
    } else {
      var rest :| FitsMembers(b, e + 1, rest) && e + 1 + MembersSize(rest) <= |b| && BlankEnd(b, e + 1 + MembersSize(rest)) == |b|
        && ReadMembers(after, decode, rest) == Some(result);
      var s := MoreMembersFit(b, i, l, value, end, rest);
    }
  }
}
