/** Routing of large JSON requests: the payload is not parsed, so the pre-check demands
    the unique maximal capability set of the candidates instead. */
module LargeRequests {
  import opened Wrappers
  import opened Sums
  import opened RouterWorker
  import opened WorkerSelection

  // ----- the capabilities a parsed payload requires

  /** A parsed JSON value. */
  datatype Value =
    | VNull | VBool(b: bool) | VNumber | VString(s: string) | VList(items: seq<Value>) | VDict(fields: map<string, Value>)

  function Get(fields: map<string, Value>, key: string): Value { if key in fields then fields[key] else VNull }

  function HasNonEmpty(v: Value): bool {
    match v
    case VNull => false
    case VBool(b) => b
    case VNumber => true
    case VString(s) => s != ""
    case VList(items) => items != []
    case VDict(fields) => |fields| > 0
  }

  function InputFieldCapability(key: string): Option<Capability> {
    if key == "image" || key == "images" then Some(ImageInput)
    else if key == "audio_inputs" || key == "audios" then Some(AudioInput)
    else if key == "video" || key == "videos" then Some(VideoInput)
    else None
  }

  function MessageTypeCapability(kind: string): Option<Capability> {
    if kind == "image" || kind == "image_url" || kind == "input_image" then Some(ImageInput)
    else if kind == "audio" || kind == "audio_url" || kind == "input_audio" then Some(AudioInput)
    else if kind == "video" || kind == "video_url" || kind == "input_video" then Some(VideoInput)
    else None
  }

  predicate ModalitiesIncludeAudio(payload: map<string, Value>) {
    var a, b := Get(payload, "modalities"), Get(payload, "output_modalities");
    (a.VList? && VString("audio") in a.items) || (b.VList? && VString("audio") in b.items)
  }

  predicate SpeechUsesReferenceAudio(payload: map<string, Value>) {
    var references := Get(payload, "references");
    || HasNonEmpty(Get(payload, "ref_audio"))
    || (references.VList? && exists r :: r in references.items && r.VDict? && HasNonEmpty(Get(r.fields, "audio_path")))
  }

  /** The content parts of all messages. */
  function ContentParts(messages: Value): set<Value> {
    if !messages.VList? then {} else
    set m, p | m in messages.items && m.VDict? && Get(m.fields, "content").VList? && p in Get(m.fields, "content").items :: p
  }

  /** A dictionary lookup with a list or a dictionary as its key raises a type error. */
  predicate LookupFails(parts: set<Value>) {
    exists p :: p in parts && p.VDict? && (Get(p.fields, "type").VList? || Get(p.fields, "type").VDict?)
  }

  function PartCapabilities(parts: set<Value>): set<Capability> {
    set p | p in parts && p.VDict? && Get(p.fields, "type").VString?
          && MessageTypeCapability(Get(p.fields, "type").s).Some?
      :: MessageTypeCapability(Get(p.fields, "type").s).value
  }

  const INPUT_FIELDS := {"image", "images", "audio_inputs", "audios", "video", "videos"}

  function FieldCapabilities(payload: map<string, Value>): set<Capability> {
    set f | f in INPUT_FIELDS && HasNonEmpty(Get(payload, f)) && InputFieldCapability(f).Some? :: InputFieldCapability(f).value
  }

  datatype Path = AudioSpeech | AudioTranscriptions | OtherPath

  function PathCapability(path: Path): Capability {
    match path
    case AudioSpeech => Speech
    case AudioTranscriptions => AudioInput
    case OtherPath => Chat
  }

  /** What the payload requires; `None` is the type error. */
  function InferPayloadCapabilities(path: Path, payload: map<string, Value>): Option<set<Capability>> {
    var parts := ContentParts(Get(payload, "messages"));
    if LookupFails(parts) then None else
    Some(FieldCapabilities(payload)
      + (if path.AudioSpeech? && SpeechUsesReferenceAudio(payload) then {AudioInput} else {})
      + (if ModalitiesIncludeAudio(payload) || HasNonEmpty(Get(payload, "audio")) then {AudioOutput} else {})
      + PartCapabilities(parts))
  }

  function RequiredCapabilities(path: Path, payload: Option<map<string, Value>>, stream: bool, fromHeader: set<Capability>): Option<set<Capability>> {
    var basic := {PathCapability(path)} + (if stream then {Streaming} else {}) + fromHeader;
    if payload.None? then Some(basic) else
    var inferred := InferPayloadCapabilities(path, payload.value);
    if inferred.None? then None else Some(basic + inferred.value)
  }

  // ----- capability by capability

  /** A field that is there and holds something. */
  ghost predicate HoldsField(payload: map<string, Value>, key: string) {
    key in payload && payload[key] !in {VNull, VBool(false), VString(""), VList([]), VDict(map[])}
  }

  /** Some content part of some message is a dictionary with this type. */
  ghost predicate HasPart(payload: map<string, Value>, kind: Value) {
    && "messages" in payload && payload["messages"].VList?
    && exists m, p ::
      && m in payload["messages"].items && m.VDict? && "content" in m.fields && m.fields["content"].VList?
      && p in m.fields["content"].items && p.VDict? && "type" in p.fields && p.fields["type"] == kind
  }

  ghost predicate ListsAudio(payload: map<string, Value>, key: string) {
    key in payload && payload[key].VList? && VString("audio") in payload[key].items
  }

  ghost predicate HasReferenceAudio(payload: map<string, Value>) {
    || HoldsField(payload, "ref_audio")
    || ("references" in payload && payload["references"].VList?
        && exists r :: r in payload["references"].items && r.VDict? && HoldsField(r.fields, "audio_path"))
  }

  /** What in a payload asks for a capability. */
  ghost predicate AsksFor(path: Path, payload: map<string, Value>, c: Capability) {
    match c
    case ImageInput =>
      || HoldsField(payload, "image") || HoldsField(payload, "images")
      || HasPart(payload, VString("image")) || HasPart(payload, VString("image_url")) || HasPart(payload, VString("input_image"))
    case AudioInput =>
      || HoldsField(payload, "audio_inputs") || HoldsField(payload, "audios")
      || HasPart(payload, VString("audio")) || HasPart(payload, VString("audio_url")) || HasPart(payload, VString("input_audio"))
      || (path == AudioSpeech && HasReferenceAudio(payload))
    case VideoInput =>
      || HoldsField(payload, "video") || HoldsField(payload, "videos")
      || HasPart(payload, VString("video")) || HasPart(payload, VString("video_url")) || HasPart(payload, VString("input_video"))
    case AudioOutput =>
      HoldsField(payload, "audio") || ListsAudio(payload, "modalities") || ListsAudio(payload, "output_modalities")
    case _ => false
  }

  lemma HoldsIff(payload: map<string, Value>, key: string)
    ensures HasNonEmpty(Get(payload, key)) <==> HoldsField(payload, key)
  {
    var v := Get(payload, key);
    match v
    case VDict(fields) => assert |fields| > 0 <==> fields != map[];
    case _ =>
  }

  lemma GetIs(fields: map<string, Value>, key: string)
    ensures key in fields ==> Get(fields, key) == fields[key]
    ensures key !in fields ==> Get(fields, key) == VNull
  {
  }

  lemma PartIff(payload: map<string, Value>, kind: Value)
    requires !kind.VNull?
    ensures HasPart(payload, kind)
      <==> exists p :: p in ContentParts(Get(payload, "messages")) && p.VDict? && Get(p.fields, "type") == kind
  {
    GetIs(payload, "messages");
    if p :| p in ContentParts(Get(payload, "messages")) && p.VDict? && Get(p.fields, "type") == kind {
      var m :| m in Get(payload, "messages").items && m.VDict? && Get(m.fields, "content").VList?
        && p in Get(m.fields, "content").items;
    }
    if HasPart(payload, kind) {
      var m, p :| m in payload["messages"].items && m.VDict? && "content" in m.fields && m.fields["content"].VList?
        && p in m.fields["content"].items && p.VDict? && "type" in p.fields && p.fields["type"] == kind;
      GetIs(m.fields, "content");
      GetIs(p.fields, "type");
      hide Get;
      assert p in ContentParts(Get(payload, "messages")) && p.VDict? && Get(p.fields, "type") == kind;
    }
  }

  lemma FieldsIff(payload: map<string, Value>, c: Capability)
    ensures c in FieldCapabilities(payload) <==>
      || (c == ImageInput && (HoldsField(payload, "image") || HoldsField(payload, "images")))
      || (c == AudioInput && (HoldsField(payload, "audio_inputs") || HoldsField(payload, "audios")))
      || (c == VideoInput && (HoldsField(payload, "video") || HoldsField(payload, "videos")))
  {
    forall f ensures HasNonEmpty(Get(payload, f)) <==> HoldsField(payload, f) { HoldsIff(payload, f); }
    hide HasNonEmpty, HoldsField, Get;
  }

  lemma PartsIff(payload: map<string, Value>, c: Capability)
    ensures c in PartCapabilities(ContentParts(Get(payload, "messages"))) <==>
      exists kind :: HasPart(payload, VString(kind)) && MessageTypeCapability(kind) == Some(c)
  {
    forall kind ensures HasPart(payload, VString(kind))
      <==> exists p :: p in ContentParts(Get(payload, "messages")) && p.VDict? && Get(p.fields, "type") == VString(kind)
    {
      PartIff(payload, VString(kind));
    }
    hide HasPart, ContentParts, MessageTypeCapability;
  }

  lemma KindsOf(payload: map<string, Value>, c: Capability)
    ensures (exists kind :: HasPart(payload, VString(kind)) && MessageTypeCapability(kind) == Some(c)) <==>
      || (c == ImageInput && (HasPart(payload, VString("image")) || HasPart(payload, VString("image_url"))
                              || HasPart(payload, VString("input_image"))))
      || (c == AudioInput && (HasPart(payload, VString("audio")) || HasPart(payload, VString("audio_url"))
                              || HasPart(payload, VString("input_audio"))))
      || (c == VideoInput && (HasPart(payload, VString("video")) || HasPart(payload, VString("video_url"))
                              || HasPart(payload, VString("input_video"))))
  {
    hide HasPart;
  }

  /** A payload requires exactly the capabilities something in it asks for. */
  lemma InferredIff(path: Path, payload: map<string, Value>, c: Capability)
    requires InferPayloadCapabilities(path, payload).Some?
    ensures c in InferPayloadCapabilities(path, payload).value <==> AsksFor(path, payload, c)
  {
    FieldsIff(payload, c);
    PartsIff(payload, c);
    KindsOf(payload, c);
    HoldsIff(payload, "audio");
    ReferenceIff(payload);
    hide HasPart, HoldsField, HasReferenceAudio, ContentParts, FieldCapabilities, PartCapabilities, MessageTypeCapability,
         SpeechUsesReferenceAudio, HasNonEmpty;
  }

  lemma ReferenceIff(payload: map<string, Value>)
    ensures SpeechUsesReferenceAudio(payload) <==> HasReferenceAudio(payload)
  {
    HoldsIff(payload, "ref_audio");
    forall fields ensures HasNonEmpty(Get(fields, "audio_path")) <==> HoldsField(fields, "audio_path") {
      HoldsIff(fields, "audio_path");
    }
    hide HasNonEmpty, HoldsField;
  }

  /** A request requires the capability of its path, streaming if it streams, what its header
      names, and what its payload asks for. */
  lemma RequiredIff(path: Path, payload: Option<map<string, Value>>, stream: bool, fromHeader: set<Capability>, c: Capability)
    requires RequiredCapabilities(path, payload, stream, fromHeader).Some?
    ensures c in RequiredCapabilities(path, payload, stream, fromHeader).value <==>
      || (c == Speech && path == AudioSpeech) || (c == AudioInput && path == AudioTranscriptions)
      || (c == Chat && path == OtherPath) || (c == Streaming && stream) || c in fromHeader
      || (payload.Some? && AsksFor(path, payload.value, c))
  {
    if payload.Some? { InferredIff(path, payload.value, c); }
    hide InferPayloadCapabilities, AsksFor;
  }

  /** The inference fails exactly when the type of some part is a list or a dictionary. */
  lemma InferenceFailsIff(path: Path, payload: map<string, Value>)
    ensures (InferPayloadCapabilities(path, payload).None?
      <==> exists kind: Value :: (kind.VList? || kind.VDict?) && HasPart(payload, kind))
  {
    forall kind: Value | !kind.VNull? ensures HasPart(payload, kind)
      <==> exists p :: p in ContentParts(Get(payload, "messages")) && p.VDict? && Get(p.fields, "type") == kind
    {
      PartIff(payload, kind);
    }
    hide HasPart, ContentParts;
  }

  // ----- the pre-check

  datatype Metadata = Metadata(model: Option<string>, required: set<Capability>, exceedsLimit: bool, headerPresent: bool)

  datatype PreCheckError = MixedModels | MixedCapabilities

  datatype PreCheck = Extra(capabilities: set<Capability>) | Failed(error: PreCheckError)

  function CapabilitySets(ws: seq<Snapshot>, candidates: seq<nat>): set<set<Capability>> {
    set i | i in candidates && i < |ws| :: ws[i].capabilities
  }

  function Models(ws: seq<Snapshot>, candidates: seq<nat>): set<Option<string>> {
    set i | i in candidates && i < |ws| :: ws[i].model
  }

  function Maximal(sets: set<set<Capability>>): set<set<Capability>> {
    set c | c in sets && !exists o :: o in sets && c < o
  }

  /** The element of a one-element set. */
  ghost function Only<T(!new)>(s: set<T>): (x: T)
    requires |s| == 1
    ensures s == {x}
  {
    SingleElement(s);
    var x :| x in s;
    x
  }

  lemma SingleElement<T(!new)>(s: set<T>)
    requires |s| == 1
    ensures forall x :: x in s ==> s == {x}
  {
    forall x | x in s ensures s == {x} { SubsetSameSize({x}, s); }
  }

  // ----- a unique maximal set contains every set

  /** Every set is contained in a maximal one. */
  lemma {:induction false} BelowMaximal(sets: set<set<Capability>>, c: set<Capability>) returns (m: set<Capability>)
    requires c in sets
    ensures m in Maximal(sets) && c <= m
    decreases AllCapabilities() - c
  {
    if exists o :: o in sets && c < o {
      var o :| o in sets && c < o;
      CapabilityBound(o);
      m := BelowMaximal(sets, o);
    } else {
      m := c;
    }
  }

  function AllCapabilities(): set<Capability> {
    {Chat, Speech, Streaming, ImageInput, AudioInput, VideoInput, AudioOutput}
  }

  lemma CapabilityBound(c: set<Capability>)
    ensures c <= AllCapabilities()
  {
    forall x | x in c ensures x in AllCapabilities() {
      match x
      case Chat => case Speech => case Streaming => case ImageInput => case AudioInput => case VideoInput => case AudioOutput =>
    }
  }

  lemma UniqueMaximalIsGreatest(sets: set<set<Capability>>, c: set<Capability>)
    requires |Maximal(sets)| == 1 && c in sets
    ensures c <= Only(Maximal(sets)) && Only(Maximal(sets)) in sets
  {
    var m := BelowMaximal(sets, c);
    assert m in {Only(Maximal(sets))};
  }

  // ----- what the pre-check decides

  /** The candidates the pre-check looked at. */
  ghost predicate PreCandidate(ws: seq<Snapshot>, metadata: Metadata, i: nat) {
    IsCandidate(ws, metadata.required, metadata.model, i)
  }

  ghost predicate NameDifferentModels(ws: seq<Snapshot>, metadata: Metadata) {
    exists i: nat, k: nat :: PreCandidate(ws, metadata, i) && PreCandidate(ws, metadata, k) && ws[i].model != ws[k].model
  }

  /** Another candidate can do something that candidate i cannot. */
  ghost predicate Lacks(ws: seq<Snapshot>, metadata: Metadata, i: nat)
    requires i < |ws|
  {
    exists k: nat :: PreCandidate(ws, metadata, k) && !(ws[k].capabilities <= ws[i].capabilities)
  }

  ghost predicate AllLack(ws: seq<Snapshot>, metadata: Metadata) {
    forall i: nat :: PreCandidate(ws, metadata, i) ==> Lacks(ws, metadata, i)
  }

  /** Candidate i has every capability of every candidate. */
  ghost predicate HasAll(ws: seq<Snapshot>, metadata: Metadata, i: nat) {
    PreCandidate(ws, metadata, i) && !Lacks(ws, metadata, i)
  }

  ghost predicate AllAlike(ws: seq<Snapshot>, metadata: Metadata) {
    forall i: nat, k: nat ::
      PreCandidate(ws, metadata, i) && PreCandidate(ws, metadata, k) ==> ws[i].capabilities == ws[k].capabilities
  }

  /** The extra capabilities are those of a candidate that has all, if candidates differ. */
  ghost predicate IsExtra(ws: seq<Snapshot>, metadata: Metadata, extra: set<Capability>) {
    if !metadata.exceedsLimit || metadata.headerPresent || AllAlike(ws, metadata) then extra == {}
    else exists top: nat :: HasAll(ws, metadata, top) && extra == ws[top].capabilities - metadata.required
  }

  /** When a large request is refused for its models, and when for its capabilities: no model
      is requested and the candidates name different ones; or there are candidates and each of
      them lacks a capability of another, and no header names the capabilities. */
  ghost predicate IsPreCheck(ws: seq<Snapshot>, metadata: Metadata, r: PreCheck) {
    && (r == Failed(MixedModels) <==>
      metadata.exceedsLimit && metadata.model.None? && NameDifferentModels(ws, metadata))
    && (r == Failed(MixedCapabilities) <==>
      && metadata.exceedsLimit && !metadata.headerPresent && r != Failed(MixedModels)
      && (exists i: nat :: PreCandidate(ws, metadata, i)) && AllLack(ws, metadata))
    && (r.Extra? ==> IsExtra(ws, metadata, r.capabilities))
  }

  lemma CapabilitySetOf(ws: seq<Snapshot>, metadata: Metadata, i: nat)
    requires PreCandidate(ws, metadata, i)
    ensures Candidates(ws, metadata.required, metadata.model) != []
    ensures ws[i].capabilities in CapabilitySets(ws, Candidates(ws, metadata.required, metadata.model))
  {
    CandidatesAre(ws, metadata.required, metadata.model);
    assert i in Candidates(ws, metadata.required, metadata.model);
  }

  lemma CandidateOfSet(ws: seq<Snapshot>, metadata: Metadata, c: set<Capability>) returns (i: nat)
    requires c in CapabilitySets(ws, Candidates(ws, metadata.required, metadata.model))
    ensures PreCandidate(ws, metadata, i) && ws[i].capabilities == c
  {
    CandidatesAre(ws, metadata.required, metadata.model);
    i :| i in Candidates(ws, metadata.required, metadata.model) && i < |ws| && ws[i].capabilities == c;
  }

  lemma SingleSet(sets: set<set<Capability>>, c: set<Capability>)
    requires |sets| <= 1 && c in sets
    ensures sets == {c}
  {
    SubsetSameSize({c}, sets);
  }

  lemma SomeCandidate(ws: seq<Snapshot>, metadata: Metadata)
    ensures Candidates(ws, metadata.required, metadata.model) != [] <==> exists i: nat :: PreCandidate(ws, metadata, i)
    ensures NameDifferentModels(ws, metadata) ==> Candidates(ws, metadata.required, metadata.model) != []
  {
    var candidates := Candidates(ws, metadata.required, metadata.model);
    CandidatesAre(ws, metadata.required, metadata.model);
    hide Candidates, IsCandidate;
    if candidates != [] {
      assert candidates[0] in candidates;
      assert PreCandidate(ws, metadata, candidates[0]);
    }
  }

  lemma ModelsDiffer(ws: seq<Snapshot>, metadata: Metadata)
    ensures |Models(ws, Candidates(ws, metadata.required, metadata.model))| > 1 <==> NameDifferentModels(ws, metadata)
  {
    var candidates := Candidates(ws, metadata.required, metadata.model);
    CandidatesAre(ws, metadata.required, metadata.model);
    hide Candidates;
    var models := Models(ws, candidates);
    if NameDifferentModels(ws, metadata) {
      var i: nat, k: nat :| PreCandidate(ws, metadata, i) && PreCandidate(ws, metadata, k) && ws[i].model != ws[k].model;
      assert {ws[i].model, ws[k].model} <= models;
      SubsetSize({ws[i].model, ws[k].model}, models);
    }
    if |models| > 1 {
      var a :| a in models;
      Spare({a}, models);
      var b :| b in models && b !in {a};
      var i :| i in candidates && i < |ws| && ws[i].model == a;
      var k :| k in candidates && k < |ws| && ws[k].model == b;
      assert PreCandidate(ws, metadata, i) && PreCandidate(ws, metadata, k);
    }
  }

  ghost predicate IsGreatest(sets: set<set<Capability>>, g: set<Capability>) {
    g in sets && forall c :: c in sets ==> c <= g
  }

  lemma GreatestIff(sets: set<set<Capability>>)
    requires sets != {}
    ensures |sets| <= 1 || |Maximal(sets)| == 1 <==> exists g :: IsGreatest(sets, g)
  {
    var c :| c in sets;
    if |sets| <= 1 {
      SingleSet(sets, c);
      assert IsGreatest(sets, c);
    } else if |Maximal(sets)| == 1 {
      forall d | d in sets ensures d <= Only(Maximal(sets)) { UniqueMaximalIsGreatest(sets, d); }
      UniqueMaximalIsGreatest(sets, c);
      assert IsGreatest(sets, Only(Maximal(sets)));
    }
    if g :| IsGreatest(sets, g) {
      forall m | m in Maximal(sets) ensures m == g { assert m <= g && !(m < g); }
      assert g in Maximal(sets);
      assert Maximal(sets) == {g};
    }
  }

  /** No greatest set: every candidate lacks something another candidate has. */
  lemma NoGreatest(ws: seq<Snapshot>, metadata: Metadata)
    requires Candidates(ws, metadata.required, metadata.model) != []
    ensures var sets := CapabilitySets(ws, Candidates(ws, metadata.required, metadata.model));
      (|sets| > 1 && |Maximal(sets)| != 1) <==> AllLack(ws, metadata)
  {
    var candidates := Candidates(ws, metadata.required, metadata.model);
    var sets := CapabilitySets(ws, candidates);
    SomeCandidate(ws, metadata);
    hide Candidates, CapabilitySets, Maximal;
    forall i: nat | PreCandidate(ws, metadata, i) ensures ws[i].capabilities in sets {
      CapabilitySetOf(ws, metadata, i);
    }
    var first: nat :| PreCandidate(ws, metadata, first);
    assert ws[first].capabilities in sets;
    GreatestIff(sets);
    if exists g :: IsGreatest(sets, g) {
      var g :| IsGreatest(sets, g);
      var i := CandidateOfSet(ws, metadata, g);
      assert !Lacks(ws, metadata, i);
    } else {
      forall i: nat | PreCandidate(ws, metadata, i) ensures Lacks(ws, metadata, i) {
        assert !IsGreatest(sets, ws[i].capabilities);
        var c :| c in sets && !(c <= ws[i].capabilities);
        var k := CandidateOfSet(ws, metadata, c);
      }
    }
  }

  lemma AlikeIff(ws: seq<Snapshot>, metadata: Metadata)
    ensures |CapabilitySets(ws, Candidates(ws, metadata.required, metadata.model))| <= 1 <==> AllAlike(ws, metadata)
  {
    var sets := CapabilitySets(ws, Candidates(ws, metadata.required, metadata.model));
    hide Candidates, CapabilitySets;
    forall i: nat | PreCandidate(ws, metadata, i) ensures ws[i].capabilities in sets {
      CapabilitySetOf(ws, metadata, i);
    }
    if |sets| <= 1 {
      forall i: nat | PreCandidate(ws, metadata, i) ensures sets == {ws[i].capabilities} {
        SingleSet(sets, ws[i].capabilities);
      }
    } else {
      var a :| a in sets;
      Spare({a}, sets);
      var b :| b in sets && b !in {a};
      var i := CandidateOfSet(ws, metadata, a);
      var k := CandidateOfSet(ws, metadata, b);
    }
  }

  /** The unique maximal set is that of a candidate that has all. */
  lemma MaximalHasAll(ws: seq<Snapshot>, metadata: Metadata, top: set<Capability>) returns (i: nat)
    requires Maximal(CapabilitySets(ws, Candidates(ws, metadata.required, metadata.model))) == {top}
    ensures HasAll(ws, metadata, i) && ws[i].capabilities == top
  {
    var sets := CapabilitySets(ws, Candidates(ws, metadata.required, metadata.model));
    assert top in Maximal(sets) && top in sets;
    hide Candidates, CapabilitySets, IsCandidate, Maximal;
    i := CandidateOfSet(ws, metadata, top);
    forall k: nat | PreCandidate(ws, metadata, k) ensures ws[k].capabilities <= top {
      CapabilitySetOf(ws, metadata, k);
      UniqueMaximalIsGreatest(sets, ws[k].capabilities);
    }
  }

  method LargeRequestExtraCapabilitiesOrError(ws: seq<Snapshot>, metadata: Metadata) returns (r: PreCheck)
    ensures IsPreCheck(ws, metadata, r)
  {
    hide Candidates, CapabilitySets, Maximal, Models, NameDifferentModels, AllLack, AllAlike, HasAll, PreCandidate;
    if !metadata.exceedsLimit {
      return Extra({});
    }
    var candidates := Candidates(ws, metadata.required, metadata.model);
    SomeCandidate(ws, metadata);
    if candidates == [] {
      NobodyIsAlike(ws, metadata);
      return Extra({});
    }
    ModelsDiffer(ws, metadata);
    if metadata.model.None? && |Models(ws, candidates)| > 1 {
      return Failed(MixedModels);
    }
    var sets := CapabilitySets(ws, candidates);
    NoGreatest(ws, metadata);
    AlikeIff(ws, metadata);
    if metadata.headerPresent || |sets| <= 1 {
      return Extra({});
    }
    var maximal := Maximal(sets);
    if |maximal| == 1 {
      SingleElement(maximal);
      var top :| top in maximal;
      ghost var i := MaximalHasAll(ws, metadata, top);
      return Extra(top - metadata.required);
    }
    r := Failed(MixedCapabilities);
  }

  lemma NobodyIsAlike(ws: seq<Snapshot>, metadata: Metadata)
    requires !exists i: nat :: PreCandidate(ws, metadata, i)
    ensures AllAlike(ws, metadata)
  {
  }

  // ----- what the selection after the pre-check guarantees

  /** The required set after the pre-check's extra capabilities are added. */
  ghost function Demanded(metadata: Metadata, r: PreCheck): set<Capability>
    requires r.Extra?
  {
    metadata.required + r.capabilities
  }

  /** The demanded set is one that some candidate has in full, and nothing but that of
      a candidate whose capabilities contain those of all others. */
  lemma SomeCandidateHasAll(ws: seq<Snapshot>, metadata: Metadata, r: PreCheck, i: nat) returns (top: nat)
    requires metadata.exceedsLimit && !metadata.headerPresent
    requires IsPreCheck(ws, metadata, r) && r.Extra? && PreCandidate(ws, metadata, i)
    ensures HasAll(ws, metadata, top) && Demanded(metadata, r) <= ws[top].capabilities
    ensures forall k: nat :: (PreCandidate(ws, metadata, k) && Demanded(metadata, r) <= ws[k].capabilities
      ==> ws[top].capabilities <= ws[k].capabilities)
  {
    if AllAlike(ws, metadata) {
      top := i;
    } else {
      top :| HasAll(ws, metadata, top) && r.capabilities == ws[top].capabilities - metadata.required;
    }
    CandidateSupports(ws, metadata, top);
  }

  lemma CandidateSupports(ws: seq<Snapshot>, metadata: Metadata, i: nat)
    requires PreCandidate(ws, metadata, i)
    ensures metadata.required <= ws[i].capabilities
  {
  }

  /** A candidate for the demanded set is a pre-check candidate, and the pre-check's
      greatest candidate is a candidate for the demanded set. */
  lemma DemandNarrows(ws: seq<Snapshot>, metadata: Metadata, demanded: set<Capability>, top: nat)
    requires metadata.required <= demanded && PreCandidate(ws, metadata, top) && demanded <= ws[top].capabilities
    ensures IsCandidate(ws, demanded, metadata.model, top)
    ensures forall i: nat :: IsCandidate(ws, demanded, metadata.model, i) ==> PreCandidate(ws, metadata, i)
  {
    forall i: nat | IsCandidate(ws, demanded, metadata.model, i) ensures PreCandidate(ws, metadata, i) {
      if metadata.model.Some? && exists k :: 0 <= k < |ws| && Supports(ws[k], metadata.required) && ws[k].model.Some? {
        assert ws[top].model == metadata.model;
        assert Supports(ws[top], demanded) && ws[top].model.Some?;
      }
    }
  }

  /** Large request, no capabilities header, no pre-check error, some candidate: the
      selection succeeds, and every worker it can choose is a candidate whose
      capabilities contain those of every candidate. */
  lemma ChosenHasAllCapabilities(ws: seq<Snapshot>, metadata: Metadata, r: PreCheck, i: nat)
    requires metadata.exceedsLimit && !metadata.headerPresent
    requires IsPreCheck(ws, metadata, r) && r.Extra? && PreCandidate(ws, metadata, i)
    ensures exists c: nat :: IsCandidate(ws, Demanded(metadata, r), metadata.model, c)
    ensures forall c: nat, k: nat ::
      IsCandidate(ws, Demanded(metadata, r), metadata.model, c) && PreCandidate(ws, metadata, k)
      ==> PreCandidate(ws, metadata, c) && ws[k].capabilities <= ws[c].capabilities
  {
    hide IsPreCheck, Lacks;
    var top := SomeCandidateHasAll(ws, metadata, r, i);
    DemandNarrows(ws, metadata, Demanded(metadata, r), top);
    forall c: nat, k: nat | IsCandidate(ws, Demanded(metadata, r), metadata.model, c) && PreCandidate(ws, metadata, k)
      ensures PreCandidate(ws, metadata, c) && ws[k].capabilities <= ws[c].capabilities
    {
      Covered(ws, metadata, top, k);
      assert PreCandidate(ws, metadata, c);
    }
  }

  lemma Covered(ws: seq<Snapshot>, metadata: Metadata, top: nat, k: nat)
    requires HasAll(ws, metadata, top) && PreCandidate(ws, metadata, k)
    ensures PreCandidate(ws, metadata, top) && ws[k].capabilities <= ws[top].capabilities
  {
  }

  /** The payload only adds to what the path and the stream flag require. */
  lemma BasicIsContained(path: Path, payload: map<string, Value>, stream: bool)
    requires RequiredCapabilities(path, Some(payload), stream, {}).Some?
    ensures RequiredCapabilities(path, None, stream, {}).Some?
    ensures (RequiredCapabilities(path, None, stream, {}).value
          <= RequiredCapabilities(path, Some(payload), stream, {}).value)
  {
    hide InferPayloadCapabilities;
  }

  /** If some candidate could serve what full payload inference requires, then every
      worker the large-request path can choose can serve it too. */
  lemma ChosenServesThePayload(ws: seq<Snapshot>, metadata: Metadata, r: PreCheck, path: Path, payload: map<string, Value>,
                               stream: bool, able: nat, chosen: nat)
    requires metadata.exceedsLimit && !metadata.headerPresent
    requires RequiredCapabilities(path, None, stream, {}) == Some(metadata.required)
    requires IsPreCheck(ws, metadata, r) && r.Extra?
    requires PreCandidate(ws, metadata, able)
    requires RequiredCapabilities(path, Some(payload), stream, {}).Some?
    requires RequiredCapabilities(path, Some(payload), stream, {}).value <= ws[able].capabilities
    requires IsCandidate(ws, Demanded(metadata, r), metadata.model, chosen)
    ensures RequiredCapabilities(path, Some(payload), stream, {}).value <= ws[chosen].capabilities
  {
    hide IsPreCheck, RequiredCapabilities, Demanded;
    ChosenHasAllCapabilities(ws, metadata, r, able);
    assert ws[able].capabilities <= ws[chosen].capabilities;
  }

  /** No routable worker with the basic capabilities names a model. */
  predicate NoneNamesAModel(ws: seq<Snapshot>, required: set<Capability>) {
    forall k :: 0 <= k < |ws| && Supports(ws[k], required) ==> ws[k].model.None?
  }

  /** The large-body path finds a worker, and every worker it can choose has the full set. */
  ghost predicate LargeBodyServes(ws: seq<Snapshot>, metadata: Metadata, r: PreCheck, full: set<Capability>)
    requires r.Extra?
  {
    && (exists c: nat :: IsCandidate(ws, Demanded(metadata, r), metadata.model, c))
    && (forall c: nat :: IsCandidate(ws, Demanded(metadata, r), metadata.model, c) ==> full <= ws[c].capabilities)
  }

  /** The large-body path serves the payload if and only if some worker has all the payload
      requires and may be chosen: no model is requested, or the worker names the requested
      one, or no worker with the basic capabilities names any. The requested model is the
      body's, or else the header's. */
  lemma LargeBodyServesIff(ws: seq<Snapshot>, metadata: Metadata, r: PreCheck, path: Path, payload: map<string, Value>,
                           stream: bool)
    requires metadata.exceedsLimit && !metadata.headerPresent
    requires RequiredCapabilities(path, None, stream, {}) == Some(metadata.required)
    requires IsPreCheck(ws, metadata, r) && r.Extra?
    requires RequiredCapabilities(path, Some(payload), stream, {}).Some?
    ensures (LargeBodyServes(ws, metadata, r, RequiredCapabilities(path, Some(payload), stream, {}).value) <==>
      exists k: nat :: MayServe(ws, metadata, RequiredCapabilities(path, Some(payload), stream, {}).value, k))
  {
    BasicIsContained(path, payload, stream);
    hide RequiredCapabilities, IsPreCheck, Demanded;
    var full := RequiredCapabilities(path, Some(payload), stream, {}).value;
    if k: nat :| MayServe(ws, metadata, full, k) {
      assert PreCandidate(ws, metadata, k);
      ChosenHasAllCapabilities(ws, metadata, r, k);
      hide IsCandidate;
      assert full <= ws[k].capabilities;
    }
    if LargeBodyServes(ws, metadata, r, full) { ServesByOne(ws, metadata, r, full); }
  }

  ghost predicate MayServe(ws: seq<Snapshot>, metadata: Metadata, full: set<Capability>, k: nat) {
    && k < |ws| && Supports(ws[k], full)
    && (metadata.model.None? || ws[k].model == metadata.model || NoneNamesAModel(ws, metadata.required))
  }

  lemma ServesByOne(ws: seq<Snapshot>, metadata: Metadata, r: PreCheck, full: set<Capability>)
    requires metadata.exceedsLimit && !metadata.headerPresent && IsPreCheck(ws, metadata, r) && r.Extra?
    requires metadata.required <= full && LargeBodyServes(ws, metadata, r, full)
    ensures exists k: nat :: MayServe(ws, metadata, full, k)
  {
    var c: nat :| IsCandidate(ws, Demanded(metadata, r), metadata.model, c);
    if i: nat :| PreCandidate(ws, metadata, i) {
      ChosenHasAllCapabilities(ws, metadata, r, i);
    } else {
      NobodyIsAlike(ws, metadata);
    }
    hide IsPreCheck;
    assert PreCandidate(ws, metadata, c);
    assert MayServe(ws, metadata, full, c);
  }

  /** With one requested model on both paths: given a worker the small-body path can choose for
      the payload, the large-body path serves it, by that worker or another, if and only if
      that very worker may be chosen. */
  lemma SameModelServesIff(ws: seq<Snapshot>, metadata: Metadata, r: PreCheck, path: Path, payload: map<string, Value>,
                           stream: bool, able: nat)
    requires metadata.exceedsLimit && !metadata.headerPresent
    requires RequiredCapabilities(path, None, stream, {}) == Some(metadata.required)
    requires IsPreCheck(ws, metadata, r) && r.Extra?
    requires RequiredCapabilities(path, Some(payload), stream, {}).Some?
    requires IsCandidate(ws, RequiredCapabilities(path, Some(payload), stream, {}).value, metadata.model, able)
    ensures LargeBodyServes(ws, metadata, r, RequiredCapabilities(path, Some(payload), stream, {}).value) <==>
      metadata.model.None? || ws[able].model == metadata.model || NoneNamesAModel(ws, metadata.required)
  {
    LargeBodyServesIff(ws, metadata, r, path, payload, stream);
    hide RequiredCapabilities, IsPreCheck, Demanded, LargeBodyServes;
    var full := RequiredCapabilities(path, Some(payload), stream, {}).value;
    assert (metadata.model.None? || ws[able].model == metadata.model || NoneNamesAModel(ws, metadata.required))
      ==> MayServe(ws, metadata, full, able);
  }

  // ----- two inputs on which the paths differ

  lemma PreCheckCases(r: PreCheck)
    ensures r == Failed(MixedModels) || r == Failed(MixedCapabilities) || r.Extra?
  {
    if r.Failed? {
      match r.error
      case MixedModels =>
      case MixedCapabilities =>
    }
  }

  /** The condition can fail: here the small-body path selects worker 0, which names no model,
      and the large-body path worker 1, which cannot take the image. */
  lemma UnnamedWorkerIsPassedOver(r: PreCheck)
    requires var ws := [Snapshot(true, None, {Chat, ImageInput}, 0), Snapshot(true, Some("m"), {Chat}, 0)];
      IsPreCheck(ws, Metadata(Some("m"), {Chat}, true, false), r)
    ensures var ws := [Snapshot(true, None, {Chat, ImageInput}, 0), Snapshot(true, Some("m"), {Chat}, 0)];
      && IsCandidate(ws, {Chat, ImageInput}, Some("m"), 0) && r == Extra({})
      && (forall i: nat :: IsCandidate(ws, {Chat}, Some("m"), i) <==> i == 1)
  {
    var ws := [Snapshot(true, None, {Chat, ImageInput}, 0), Snapshot(true, Some("m"), {Chat}, 0)];
    var metadata := Metadata(Some("m"), {Chat}, true, false);
    assert Supports(ws[1], {Chat}) && ws[1].model.Some?;
    assert forall i: nat :: PreCandidate(ws, metadata, i) <==> i == 1;
    assert !Lacks(ws, metadata, 1);
    assert PreCandidate(ws, metadata, 1) && !AllLack(ws, metadata);
    assert AllAlike(ws, metadata);
    PreCheckCases(r);
  }

  /** The model may come from the header, which the small-body path ignores: the body names no
      model, so the small-body path can select worker 0; the large-body path asks for the
      header's model and only finds worker 1, which cannot take the image. */
  lemma HeaderModelNarrows(r: PreCheck)
    requires var ws := [Snapshot(true, Some("n"), {Chat, ImageInput}, 0), Snapshot(true, Some("m"), {Chat}, 0)];
      IsPreCheck(ws, Metadata(Some("m"), {Chat}, true, false), r)
    ensures var ws := [Snapshot(true, Some("n"), {Chat, ImageInput}, 0), Snapshot(true, Some("m"), {Chat}, 0)];
      && IsCandidate(ws, {Chat, ImageInput}, None, 0) && r == Extra({})
      && (forall i: nat :: IsCandidate(ws, {Chat}, Some("m"), i) <==> i == 1)
  {
    var ws := [Snapshot(true, Some("n"), {Chat, ImageInput}, 0), Snapshot(true, Some("m"), {Chat}, 0)];
    var metadata := Metadata(Some("m"), {Chat}, true, false);
    assert Supports(ws[1], {Chat}) && ws[1].model.Some?;
    assert "m"[0] != "n"[0];
    assert forall i: nat :: PreCandidate(ws, metadata, i) <==> i == 1;
    assert !Lacks(ws, metadata, 1);
    assert PreCandidate(ws, metadata, 1) && !AllLack(ws, metadata);
    assert AllAlike(ws, metadata);
    PreCheckCases(r);
  }
}
