/** The grammar the scanner accepts, as concrete syntax trees placed in the body.
    It relaxes section 2 of RFC 8259: a string literal's escapes are not checked, NaN
    and the infinities are numbers, and a number is looked for in a 128-byte window. */
module JsonGrammar {
  import opened Wrappers
  import opened JsonText

  /** A value with all its text: string literals with their quotes, blanks wherever
      blanks may stand. */
  datatype Json =
    | Str(lit: bytes)
    | Num(text: bytes)
    | Word(text: bytes)
    | EmptyArray(pad: bytes)
    | Array(items: Items)
    | EmptyObject(pad: bytes)
    | Object(members: Members)

  /** A value with the blanks around it. */
  datatype Slot = Slot(before: bytes, value: Json, after: bytes)

  /** The items after an opening or separating mark, with the closing bracket. */
  datatype Items = LastItem(slot: Slot) | MoreItems(slot: Slot, rest: Items)

  /** A string literal with the blanks around it; a colon follows. */
  datatype Key = Key(before: bytes, lit: bytes, after: bytes)

  /** The members after an opening or separating mark, with the closing brace. */
  datatype Members = LastMember(key: Key, slot: Slot) | MoreMembers(key: Key, slot: Slot, rest: Members)

  // ----- sizes

  function Size(v: Json): nat
    decreases v
  {
    match v
    case Str(lit) => |lit|
    case Num(text) => |text|
    case Word(text) => |text|
    case EmptyArray(pad) => |pad| + 2
    case Array(items) => 1 + ItemsSize(items)
    case EmptyObject(pad) => |pad| + 2
    case Object(members) => 1 + MembersSize(members)
  }

  function SlotSize(s: Slot): nat
    decreases s
  {
    |s.before| + Size(s.value) + |s.after|
  }

  function ItemsSize(s: Items): nat
    decreases s
  {
    SlotSize(s.slot) + 1 + if s.MoreItems? then ItemsSize(s.rest) else 0
  }

  function KeySize(k: Key): nat { |k.before| + |k.lit| + |k.after| }

  function MembersSize(s: Members): nat
    decreases s
  {
    KeySize(s.key) + 1 + SlotSize(s.slot) + 1 + if s.MoreMembers? then MembersSize(s.rest) else 0
  }

  // ----- nesting

  /** How many containers are nested, the value itself included. */
  function Depth(v: Json): nat
    decreases v
  {
    match v
    case Array(items) => 1 + ItemsDepth(items)
    case Object(members) => 1 + MembersDepth(members)
    case EmptyArray(_) => 1
    case EmptyObject(_) => 1
    case _ => 0
  }

  function ItemsDepth(s: Items): nat
    decreases s
  {
    Max(Depth(s.slot.value), if s.MoreItems? then ItemsDepth(s.rest) else 0)
  }

  function MembersDepth(s: Members): nat
    decreases s
  {
    Max(Depth(s.slot.value), if s.MoreMembers? then MembersDepth(s.rest) else 0)
  }

  // ----- a tree placed at a position

  ghost predicate Mark(b: bytes, i: nat, c: byte) { i < |b| && b[i] == c }

  ghost predicate Pad(b: bytes, i: nat, pad: bytes) { At(b, i, pad) && Blank(pad) }

  ghost predicate Literal(b: bytes, i: nat, lit: bytes) { At(b, i, lit) && StringAt(b, i, i + |lit|) }

  ghost predicate IsWord(text: bytes) { text == TRUE_TEXT || text == FALSE_TEXT || text == NULL_TEXT }

  /** The value derives from the grammar and its text stands in the body at i. */
  ghost predicate Fits(b: bytes, i: nat, v: Json)
    decreases v
  {
    match v
    case Str(lit) => Literal(b, i, lit)
    case Num(text) => At(b, i, text) && NumberAt(b, i, i + |text|)
    case Word(text) => At(b, i, text) && IsWord(text)
    case EmptyArray(pad) => Mark(b, i, LBRACKET) && Pad(b, i + 1, pad) && Mark(b, i + 1 + |pad|, RBRACKET)
    case Array(items) => Mark(b, i, LBRACKET) && FitsItems(b, i + 1, items)
    case EmptyObject(pad) => Mark(b, i, LBRACE) && Pad(b, i + 1, pad) && Mark(b, i + 1 + |pad|, RBRACE)
    case Object(members) => Mark(b, i, LBRACE) && FitsMembers(b, i + 1, members)
  }

  ghost predicate FitsSlot(b: bytes, i: nat, s: Slot)
    decreases s
  {
    var v := i + |s.before|;
    Pad(b, i, s.before) && Fits(b, v, s.value) && Pad(b, v + Size(s.value), s.after)
  }

  ghost predicate FitsItems(b: bytes, i: nat, s: Items)
    decreases s
  {
    var e := i + SlotSize(s.slot);
    && FitsSlot(b, i, s.slot)
    && if s.LastItem? then Mark(b, e, RBRACKET) else Mark(b, e, COMMA) && FitsItems(b, e + 1, s.rest)
  }

  ghost predicate FitsKey(b: bytes, i: nat, k: Key) {
    var l := i + |k.before|;
    Pad(b, i, k.before) && Literal(b, l, k.lit) && Pad(b, l + |k.lit|, k.after) && Mark(b, i + KeySize(k), COLON)
  }

  ghost predicate FitsMembers(b: bytes, i: nat, s: Members)
    decreases s
  {
    var p := i + KeySize(s.key) + 1;
    var e := p + SlotSize(s.slot);
    && FitsKey(b, i, s.key) && FitsSlot(b, p, s.slot)
    && if s.LastMember? then Mark(b, e, RBRACE) else Mark(b, e, COMMA) && FitsMembers(b, e + 1, s.rest)
  }

  // ----- ends: what can be derived from a position

  /** Some value derives from b[i..j]. */
  ghost predicate ValueEnds(b: bytes, i: nat, j: nat) { exists v :: Fits(b, i, v) && j == i + Size(v) }

  /** Some value, after blanks, derives from b[i..j]. */
  ghost predicate PaddedValueEnds(b: bytes, i: nat, j: nat) { i <= |b| && ValueEnds(b, BlankEnd(b, i), j) }

  ghost predicate ItemsEnd(b: bytes, i: nat, j: nat) { exists s :: FitsItems(b, i, s) && j == i + ItemsSize(s) }

  ghost predicate MembersEnd(b: bytes, i: nat, j: nat) { exists s :: FitsMembers(b, i, s) && j == i + MembersSize(s) }

  lemma FirstByte(b: bytes, i: nat, v: Json)
    requires Fits(b, i, v)
    ensures i < |b| && !IsBlank(b[i]) && Size(v) > 0
    ensures b[i] == QUOTE <==> v.Str?
    ensures b[i] == LBRACKET <==> v.EmptyArray? || v.Array?
    ensures b[i] == LBRACE <==> v.EmptyObject? || v.Object?
    ensures b[i] in [0x74, 0x66, 0x6E] <==> v.Word?
    ensures b[i] != RBRACKET && b[i] != RBRACE
  {
    match v
    case Num(text) =>
      assert b[i..i + |text|] == text;
      NumberTextAt(b, i, text);
      assert b[i] == text[0];
    case Word(text) =>
      assert b[i] == b[i..i + |text|][0];
    case _ =>
  }

  lemma NumberTextAt(b: bytes, i: nat, text: bytes)
    requires At(b, i, text) && NumberAt(b, i, i + |text|)
    ensures IsNumber(text) && text != [] && (IsDigit(text[0]) || text[0] in [0x2D, 0x4E, 0x49])
  {
    assert Window(b, i)[..|text|] == text;
    NumberStart(text);
  }

  /** A placed value is not empty and ends inside the body. */
  lemma {:induction false} FitsInside(b: bytes, i: nat, v: Json)
    requires Fits(b, i, v)
    ensures i < i + Size(v) <= |b|
    decreases v
  {
    FirstByte(b, i, v);
    match v
    case Array(items) => ItemsInside(b, i + 1, items);
    case Object(members) => MembersInside(b, i + 1, members);
    case _ =>
  }

  lemma {:induction false} ItemsInside(b: bytes, i: nat, s: Items)
    requires FitsItems(b, i, s)
    ensures i + ItemsSize(s) <= |b|
    decreases s
  {
    if s.MoreItems? { ItemsInside(b, i + SlotSize(s.slot) + 1, s.rest); }
  }

  lemma {:induction false} MembersInside(b: bytes, i: nat, s: Members)
    requires FitsMembers(b, i, s)
    ensures i + MembersSize(s) <= |b|
    decreases s
  {
    if s.MoreMembers? { MembersInside(b, i + KeySize(s.key) + 1 + SlotSize(s.slot) + 1, s.rest); }
  }

  lemma PadInside(b: bytes, i: nat, pad: bytes)
    requires Pad(b, i, pad)
    ensures i + |pad| <= |b|
  {
  }

  // ----- slots and keys are read off the body

  /** A slot followed by a mark: its value starts after the run of blanks, and the run
      of blanks after its value ends at the mark. */
  lemma SlotForward(b: bytes, i: nat, s: Slot)
    requires FitsSlot(b, i, s)
    requires i + SlotSize(s) < |b| && !IsBlank(b[i + SlotSize(s)])
    ensures i <= |b| && BlankEnd(b, i) == i + |s.before|
    ensures Fits(b, BlankEnd(b, i), s.value)
    ensures var v := BlankEnd(b, i) + Size(s.value); v <= |b| && BlankEnd(b, v) == i + SlotSize(s)
  {
    hide Fits, Size, At, Blank, IsBlank;
    FirstByte(b, i + |s.before|, s.value);
    PadIsRun(b, i, s.before);
    PadIsRun(b, i + |s.before| + Size(s.value), s.after);
    assert i + |s.before| + Size(s.value) <= |b| by { PadInside(b, i + |s.before| + Size(s.value), s.after); }
  }

  /** The slot around a value, with all blanks there are. */
  ghost function SlotOf(b: bytes, i: nat, value: Json): (s: Slot)
    requires i <= |b| && Fits(b, BlankEnd(b, i), value)
    requires BlankEnd(b, i) + Size(value) <= |b|
    ensures s.value == value && FitsSlot(b, i, s)
    ensures i + SlotSize(s) == BlankEnd(b, BlankEnd(b, i) + Size(value))
  {
    hide Fits;
    Slot(Run(b, i), value, Run(b, BlankEnd(b, i) + Size(value)))
  }

  /** A literal after blanks ends at l, and a colon follows it after blanks. */
  ghost predicate KeyEnds(b: bytes, i: nat, l: nat) {
    i <= |b| && StringAt(b, BlankEnd(b, i), l) && Mark(b, BlankEnd(b, l), COLON)
  }

  lemma KeyForward(b: bytes, i: nat, k: Key)
    requires FitsKey(b, i, k)
    ensures KeyEnds(b, i, i + |k.before| + |k.lit|)
    ensures BlankEnd(b, i) == i + |k.before|
    ensures BlankEnd(b, i + |k.before| + |k.lit|) == i + KeySize(k)
    ensures k.lit == b[BlankEnd(b, i)..i + |k.before| + |k.lit|]
  {
    PadIsRun(b, i, k.before);
    PadIsRun(b, i + |k.before| + |k.lit|, k.after);
  }

  ghost function KeyOf(b: bytes, i: nat, l: nat): (k: Key)
    requires KeyEnds(b, i, l)
    ensures FitsKey(b, i, k) && i + KeySize(k) == BlankEnd(b, l)
    ensures k.lit == b[BlankEnd(b, i)..l]
  {
    Key(Run(b, i), b[BlankEnd(b, i)..l], Run(b, l))
  }

  lemma KeyUnique(b: bytes, i: nat, l: nat, m: nat)
    requires KeyEnds(b, i, l) && KeyEnds(b, i, m)
    ensures l == m
  {
    ClosesUnique(b, BlankEnd(b, i) + 1, l, m);
  }

  // ----- the tree is unique

  /** Two texts of one length at one position are the same. */
  lemma SameText(b: bytes, i: nat, s: bytes, t: bytes)
    requires At(b, i, s) && At(b, i, t) && |s| == |t|
    ensures s == t
  {
    assert s == b[i..i + |s|] == t;
  }

  /** At most one tree fits the bytes at a position. */
  lemma {:induction false} UniqueValue(b: bytes, i: nat, v: Json, w: Json)
    requires Fits(b, i, v) && Fits(b, i, w)
    ensures v == w
    decreases v
  {
    FirstByte(b, i, v);
    FirstByte(b, i, w);
    if v.Str? {
      ClosesUnique(b, i + 1, i + |v.lit|, i + |w.lit|);
      SameText(b, i, v.lit, w.lit);
    } else if v.Word? {
      assert b[i] == v.text[0] == w.text[0];
    } else if v.EmptyArray? || v.Array? {
      UniqueArray(b, i, v, w);
    } else if v.EmptyObject? || v.Object? {
      UniqueObject(b, i, v, w);
    } else {
      NumberUnique(b, i, v.text, w.text);
    }
  }

  lemma NumberUnique(b: bytes, i: nat, s: bytes, t: bytes)
    requires At(b, i, s) && NumberAt(b, i, i + |s|) && At(b, i, t) && NumberAt(b, i, i + |t|)
    ensures s == t
  {
    hide IsNumber, IsUtf8;
    var w := Window(b, i);
    assert IsNumber(w[..|s|]) && IsNumber(w[..|t|]);
    SameText(b, i, s, t);
  }

  lemma {:induction false} UniqueArray(b: bytes, i: nat, v: Json, w: Json)
    requires Fits(b, i, v) && Fits(b, i, w) && (v.EmptyArray? || v.Array?) && (w.EmptyArray? || w.Array?)
    ensures v == w
    decreases v, 0
  {
    hide FitsItems;
    if v.EmptyArray? { PadIsRun(b, i + 1, v.pad); } else { ItemStart(b, i + 1, v.items); }
    if w.EmptyArray? { PadIsRun(b, i + 1, w.pad); } else { ItemStart(b, i + 1, w.items); }
    if v.EmptyArray? && w.EmptyArray? { SameText(b, i + 1, v.pad, w.pad); }
    if v.Array? && w.Array? { UniqueItems(b, i + 1, v.items, w.items); }
  }

  lemma ItemStart(b: bytes, i: nat, s: Items)
    requires FitsItems(b, i, s)
    ensures i <= |b| && BlankEnd(b, i) < |b| && b[BlankEnd(b, i)] != RBRACKET
  {
    FirstByte(b, i + |s.slot.before|, s.slot.value);
    hide Fits;
    PadIsRun(b, i, s.slot.before);
  }

  lemma KeyStart(b: bytes, i: nat, s: Members)
    requires FitsMembers(b, i, s)
    ensures i <= |b| && Mark(b, BlankEnd(b, i), QUOTE)
  {
    hide FitsSlot;
    KeyForward(b, i, s.key);
  }

  lemma {:induction false} UniqueObject(b: bytes, i: nat, v: Json, w: Json)
    requires Fits(b, i, v) && Fits(b, i, w) && (v.EmptyObject? || v.Object?) && (w.EmptyObject? || w.Object?)
    ensures v == w
    decreases v, 0
  {
    hide FitsMembers;
    if v.EmptyObject? { PadIsRun(b, i + 1, v.pad); } else { KeyStart(b, i + 1, v.members); }
    if w.EmptyObject? { PadIsRun(b, i + 1, w.pad); } else { KeyStart(b, i + 1, w.members); }
    if v.EmptyObject? && w.EmptyObject? { SameText(b, i + 1, v.pad, w.pad); }
    if v.Object? && w.Object? { UniqueMembers(b, i + 1, v.members, w.members); }
  }

  lemma {:induction false} UniqueSlot(b: bytes, i: nat, s: Slot, t: Slot)
    requires FitsSlot(b, i, s) && FitsSlot(b, i, t)
    requires i + SlotSize(s) < |b| && !IsBlank(b[i + SlotSize(s)])
    requires i + SlotSize(t) < |b| && !IsBlank(b[i + SlotSize(t)])
    ensures s == t
    decreases s
  {
    hide Fits, At, Blank, Size;
    SlotForward(b, i, s);
    SlotForward(b, i, t);
    UniqueValue(b, BlankEnd(b, i), s.value, t.value);
    SameText(b, i, s.before, t.before);
    SameText(b, i + |s.before| + Size(s.value), s.after, t.after);
  }

  lemma {:induction false} UniqueItems(b: bytes, i: nat, s: Items, t: Items)
    requires FitsItems(b, i, s) && FitsItems(b, i, t)
    ensures s == t
    decreases s
  {
    hide FitsSlot, SlotSize;
    UniqueSlot(b, i, s.slot, t.slot);
    if s.MoreItems? { UniqueItems(b, i + SlotSize(s.slot) + 1, s.rest, t.rest); }
  }

  lemma UniqueKey(b: bytes, i: nat, k: Key, l: Key)
    requires FitsKey(b, i, k) && FitsKey(b, i, l)
    ensures k == l
  {
    hide KeyEnds, At, Blank, StringAt, Mark;
    KeyForward(b, i, k);
    KeyForward(b, i, l);
    KeyUnique(b, i, i + |k.before| + |k.lit|, i + |l.before| + |l.lit|);
    SameText(b, i, k.before, l.before);
    SameText(b, i + |k.before| + |k.lit|, k.after, l.after);
  }

  lemma {:induction false} UniqueMembers(b: bytes, i: nat, s: Members, t: Members)
    requires FitsMembers(b, i, s) && FitsMembers(b, i, t)
    ensures s == t
    decreases s
  {
    hide FitsKey, FitsSlot, SlotSize, KeySize;
    UniqueKey(b, i, s.key, t.key);
    var p := i + KeySize(s.key) + 1;
    UniqueSlot(b, p, s.slot, t.slot);
    if s.MoreMembers? { UniqueMembers(b, p + SlotSize(s.slot) + 1, s.rest, t.rest); }
  }

  /** At most one end derives from a position. */
  lemma EndsAreUnique(b: bytes, i: nat, j: nat, l: nat)
    requires ValueEnds(b, i, j) && ValueEnds(b, i, l)
    ensures j == l && i < j <= |b|
  {
    var v :| Fits(b, i, v) && j == i + Size(v);
    var w :| Fits(b, i, w) && l == i + Size(w);
    UniqueValue(b, i, v, w);
    FitsInside(b, i, v);
  }
}
