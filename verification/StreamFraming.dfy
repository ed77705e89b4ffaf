/** The two stream reassemblers of the speech client: the line reader of the chat event
    stream and the regrouper of HTTP chunks. Neither depends on how the network cuts the bytes. */
module StreamFraming {
  import opened Wrappers

  const NEWLINE: byte := 10

  /** Everything that arrives, in order. */
  ghost function Concat(chunks: seq<seq<byte>>): seq<byte> {
    if chunks == [] then [] else Concat(chunks[..|chunks| - 1]) + chunks[|chunks| - 1]
  }

  // ----- lines

  /** The lines ended by a newline, without it. */
  ghost function Lines(s: seq<byte>): seq<seq<byte>> {
    if s == [] then []
    else if s[|s| - 1] == NEWLINE then Lines(s[..|s| - 1]) + [Rest(s[..|s| - 1])]
    else Lines(s[..|s| - 1])
  }

  /** What follows the last newline. */
  ghost function Rest(s: seq<byte>): seq<byte> {
    if s == [] || s[|s| - 1] == NEWLINE then [] else Rest(s[..|s| - 1]) + [s[|s| - 1]]
  }

  /** The bytes that `strip` removes: tab, newline, vertical tab, form feed, return, space. */
  predicate IsBlank(s: seq<byte>) { forall i :: 0 <= i < |s| ==> s[i] in {9, 10, 11, 12, 13, 32} }

  /** The lines of a stream: the ended ones, and a remainder that is not blank. */
  ghost function LinesOf(s: seq<byte>): seq<seq<byte>> { Lines(s) + if IsBlank(Rest(s)) then [] else [Rest(s)] }

  /** Every line with its newline put back. */
  ghost function Ended(lines: seq<seq<byte>>): seq<byte> {
    if lines == [] then [] else Ended(lines[..|lines| - 1]) + lines[|lines| - 1] + [NEWLINE]
  }

  ghost predicate NoNewline(s: seq<byte>) { ('\n' as int) !in s }

  ghost predicate IsSplit(s: seq<byte>, lines: seq<seq<byte>>, rest: seq<byte>) {
    && s == Ended(lines) + rest && NoNewline(rest)
    && forall i :: 0 <= i < |lines| ==> NoNewline(lines[i])
  }

  lemma {:induction false} LinesSplit(s: seq<byte>)
    ensures IsSplit(s, Lines(s), Rest(s))
  {
    if s != [] {
      var front, last := s[..|s| - 1], s[|s| - 1];
      LinesSplit(front);
      assert s == front + [last];
      if last == NEWLINE {
        assert Lines(s)[..|Lines(s)| - 1] == Lines(front);
      }
    }
  }

  /** There is only one way to split a stream at its newlines. */
  lemma {:induction false} SplitIsUnique(s: seq<byte>, lines: seq<seq<byte>>, rest: seq<byte>)
    requires IsSplit(s, lines, rest)
    ensures lines == Lines(s) && rest == Rest(s)
    decreases |s|
  {
    assert lines == [] || |Ended(lines)| > 0;
    if s == [] {
    } else if rest != [] {
      var front, last := s[..|s| - 1], s[|s| - 1];
      assert last == rest[|rest| - 1] && last in rest;
      assert front == Ended(lines) + rest[..|rest| - 1];
      SplitIsUnique(front, lines, rest[..|rest| - 1]);
      assert rest == rest[..|rest| - 1] + [last];
    } else {
      var front := s[..|s| - 1];
      var n := |lines| - 1;
      assert s == Ended(lines[..n]) + lines[n] + [NEWLINE];
      assert front == Ended(lines[..n]) + lines[n];
      SplitIsUnique(front, lines[..n], lines[n]);
      assert lines == lines[..n] + [lines[n]];
    }
  }

  lemma {:induction false} EndedTogether(a: seq<seq<byte>>, b: seq<seq<byte>>)
    ensures Ended(a + b) == Ended(a) + Ended(b)
  {
    if b == [] {
      assert a + b == a;
    } else {
      var n := |b| - 1;
      EndedTogether(a, b[..n]);
      assert (a + b)[..|a + b| - 1] == a + b[..n];
      assert Ended(a) + (Ended(b[..n]) + b[n] + [NEWLINE]) == Ended(a) + Ended(b[..n]) + b[n] + [NEWLINE];
    }
  }

  /** Lines taken from the front of the buffer and the rest of the buffer are the split of
      everything seen. */
  lemma SplitContinues(seen: seq<byte>, lines: seq<seq<byte>>, buffer: seq<byte>)
    requires seen == Ended(lines) + buffer && NoNewline(buffer)
    requires forall i :: 0 <= i < |lines| ==> NoNewline(lines[i])
    ensures lines == Lines(seen) && buffer == Rest(seen)
  {
    SplitIsUnique(seen, lines, buffer);
  }

  /** `buffer.index` of the newline. */
  method IndexOfNewline(buffer: seq<byte>) returns (idx: nat)
    requires NEWLINE in buffer
    ensures idx < |buffer| && buffer[idx] == NEWLINE && NoNewline(buffer[..idx])
  {
    idx := 0;
    while buffer[idx] != NEWLINE
      invariant idx < |buffer| && NoNewline(buffer[..idx])
      invariant exists j :: idx <= j < |buffer| && buffer[j] == NEWLINE
      decreases |buffer| - idx
    {
      idx := idx + 1;
    }
  }

  lemma LineTaken(seen: seq<byte>, lines: seq<seq<byte>>, buffer: seq<byte>, idx: nat)
    requires seen == Ended(lines) + buffer && idx < |buffer| && buffer[idx] == NEWLINE
    ensures seen == Ended(lines + [buffer[..idx]]) + buffer[idx + 1..]
  {
    assert (lines + [buffer[..idx]])[..|lines|] == lines;
    assert buffer == buffer[..idx] + [NEWLINE] + buffer[idx + 1..];
    assert (Ended(lines) + (buffer[..idx] + [NEWLINE] + buffer[idx + 1..])
         == Ended(lines) + buffer[..idx] + [NEWLINE] + buffer[idx + 1..]);
  }

  /** The lines handed to the audio collector, however the response was cut. */
  method ReadLines(chunks: seq<seq<byte>>) returns (lines: seq<seq<byte>>)
    ensures lines == LinesOf(Concat(chunks))
  {
    hide Ended, Lines, Rest, NoNewline;
    lines := [];
    var buffer: seq<byte> := [];
    NothingRead();
    for i := 0 to |chunks|
      invariant Concat(chunks[..i]) == Ended(lines) + buffer && NoNewline(buffer)
      invariant forall k :: 0 <= k < |lines| ==> NoNewline(lines[k])
    {
      ghost var seen := Concat(chunks[..i + 1]);
      assert chunks[..i + 1][..i] == chunks[..i];
      assert seen == Ended(lines) + (buffer + chunks[i]);
      buffer := buffer + chunks[i];
      while NEWLINE in buffer
        invariant seen == Ended(lines) + buffer
        invariant forall k :: 0 <= k < |lines| ==> NoNewline(lines[k])
        decreases |buffer|
      {
        var idx := IndexOfNewline(buffer);
        LineTaken(seen, lines, buffer, idx);
        lines := lines + [buffer[..idx]];
        buffer := buffer[idx + 1..];
      }
      NoNewlineLeft(buffer);
    }
    assert chunks[..|chunks|] == chunks;
    SplitContinues(Concat(chunks), lines, buffer);
    if !IsBlank(buffer) {
      lines := lines + [buffer];
    }
  }

  lemma NothingRead()
    ensures Ended([]) == [] && NoNewline([])
  {
  }

  lemma NoNewlineLeft(buffer: seq<byte>)
    requires NEWLINE !in buffer
    ensures NoNewline(buffer)
  {
  }

  /** The chunks one after the other, from the first on. */
  ghost function Joined(chunks: seq<seq<byte>>): seq<byte> {
    if chunks == [] then [] else chunks[0] + Joined(chunks[1..])
  }

  lemma {:induction false} ConcatIsJoined(chunks: seq<seq<byte>>)
    ensures Concat(chunks) == Joined(chunks)
  {
    if chunks != [] {
      FirstOfConcat(chunks[0], chunks[1..]);
      assert [chunks[0]] + chunks[1..] == chunks;
      ConcatIsJoined(chunks[1..]);
    }
  }

  lemma {:induction false} FirstOfConcat(first: seq<byte>, rest: seq<seq<byte>>)
    ensures Concat([first] + rest) == first + Concat(rest)
    decreases |rest|
  {
    var all := [first] + rest;
    if rest == [] {
      assert all == [first] && all[..0] == [];
    } else {
      FirstOfConcat(first, rest[..|rest| - 1]);
      assert all[..|all| - 1] == [first] + rest[..|rest| - 1];
      assert (first + Concat(rest[..|rest| - 1])) + rest[|rest| - 1] == first + (Concat(rest[..|rest| - 1]) + rest[|rest| - 1]);
    }
  }

  /** However a stream was cut, what the reader returns is its one split: any lines without
      newlines and remainder that rebuild it. A remainder of nothing but tabs, newlines, feeds,
      returns and spaces is left out. */
  lemma CutsDoNotMatter(chunks: seq<seq<byte>>, lines: seq<seq<byte>>, rest: seq<byte>)
    requires IsSplit(Joined(chunks), lines, rest)
    ensures (LinesOf(Concat(chunks))
      == lines + if forall i :: 0 <= i < |rest| ==> 9 <= rest[i] <= 13 || rest[i] == 32 then [] else [rest])
  {
    ConcatIsJoined(chunks);
    SplitIsUnique(Concat(chunks), lines, rest);
    hide Lines, Rest, IsSplit;
  }

  // ----- HTTP chunks

  /** One read: its bytes, whether it ends an HTTP chunk, and when it arrived. */
  datatype Read = Read(data: seq<byte>, ends: bool, now: int)

  datatype Piece = Piece(data: seq<byte>, start: int)

  ghost function DataOf(got: seq<Read>): seq<byte> {
    if got == [] then [] else DataOf(got[..|got| - 1]) + got[|got| - 1].data
  }

  /** The reads of every HTTP chunk that has ended. */
  ghost function ClosedChunks(got: seq<Read>): seq<seq<Read>> {
    if got == [] then []
    else if got[|got| - 1].ends then
      ClosedChunks(got[..|got| - 1]) + [OpenChunk(got[..|got| - 1]) + [got[|got| - 1]]]
    else ClosedChunks(got[..|got| - 1])
  }

  /** The reads since the last end of an HTTP chunk. */
  ghost function OpenChunk(got: seq<Read>): seq<Read> {
    if got == [] || got[|got| - 1].ends then [] else OpenChunk(got[..|got| - 1]) + [got[|got| - 1]]
  }

  /** When the first byte of a chunk arrived. */
  ghost function FirstTime(chunk: seq<Read>): Option<int> {
    if DataOf(chunk) == [] then None
    else if DataOf(chunk[..|chunk| - 1]) == [] then Some(chunk[|chunk| - 1].now)
    else FirstTime(chunk[..|chunk| - 1])
  }

  /** `start or now`: zero counts as absent. */
  function StartOr(start: Option<int>, now: int): int { if start.Some? && start.value != 0 then start.value else now }

  ghost function PieceOf(chunk: seq<Read>, now: int): seq<Piece> {
    if DataOf(chunk) == [] then [] else [Piece(DataOf(chunk), StartOr(FirstTime(chunk), now))]
  }

  /** When the last read of a chunk arrived. */
  ghost function LastTime(chunk: seq<Read>): int { if chunk == [] then 0 else chunk[|chunk| - 1].now }

  ghost function PiecesOf(chunks: seq<seq<Read>>): seq<Piece> {
    if chunks == [] then [] else
    PiecesOf(chunks[..|chunks| - 1]) + PieceOf(chunks[|chunks| - 1], LastTime(chunks[|chunks| - 1]))
  }

  /** The pieces the regrouper owes: one for each HTTP chunk that has bytes. */
  ghost function Regrouped(got: seq<Read>, end: int): seq<Piece> {
    PiecesOf(ClosedChunks(got)) + PieceOf(OpenChunk(got), end)
  }

  /** One more read. */
  lemma ReadAppended(front: seq<Read>, last: Read)
    ensures DataOf(front + [last]) == DataOf(front) + last.data
    ensures OpenChunk(front + [last]) == if last.ends then [] else OpenChunk(front) + [last]
    ensures (PiecesOf(ClosedChunks(front + [last]))
          == if last.ends then PiecesOf(ClosedChunks(front)) + PieceOf(OpenChunk(front) + [last], last.now)
             else PiecesOf(ClosedChunks(front)))
    ensures (FirstTime(front + [last])
          == if DataOf(front) != [] then FirstTime(front) else if last.data != [] then Some(last.now) else None)
  {
    hide PieceOf;
    var got := front + [last];
    assert got[..|front|] == front;
    if last.ends {
      var chunk := OpenChunk(front) + [last];
      assert ClosedChunks(got) == ClosedChunks(front) + [chunk];
      assert ClosedChunks(got)[..|ClosedChunks(front)|] == ClosedChunks(front);
    }
  }

  method IterResponseHttpChunks(got: seq<Read>, end: int) returns (pieces: seq<Piece>)
    ensures pieces == Regrouped(got, end)
  {
    hide DataOf, ClosedChunks, OpenChunk, PiecesOf, FirstTime;
    pieces := [];
    var pending: seq<byte> := [];
    var pendingStart: Option<int> := None;
    NothingGot();
    for i := 0 to |got|
      invariant pieces == PiecesOf(ClosedChunks(got[..i]))
      invariant pending == DataOf(OpenChunk(got[..i])) && pendingStart == FirstTime(OpenChunk(got[..i]))
      invariant pendingStart.None? <==> pending == []
    {
      var data, now := got[i].data, got[i].now;
      assert got[..i + 1] == got[..i] + [got[i]];
      ReadAppended(got[..i], got[i]);
      ReadAppended(OpenChunk(got[..i]), got[i]);
      if data != [] {
        if pending == [] {
          pendingStart := Some(now);
        }
        pending := pending + data;
      }
      assert pending == DataOf(OpenChunk(got[..i]) + [got[i]]);
      assert pendingStart == FirstTime(OpenChunk(got[..i]) + [got[i]]);
      if got[i].ends && pending != [] {
        pieces := pieces + [Piece(pending, StartOr(pendingStart, now))];
        pending := [];
        pendingStart := None;
      }
    }
    assert got[..|got|] == got;
    if pending != [] {
      pieces := pieces + [Piece(pending, StartOr(pendingStart, end))];
    }
  }

  lemma NothingGot()
    ensures DataOf([]) == [] && OpenChunk([]) == [] && ClosedChunks([]) == [] && PiecesOf([]) == []
    ensures FirstTime([]).None? && PieceBytes([]) == []
  {
  }

  /** No byte is lost, added or moved, and no piece is empty. */
  lemma RegroupedIsTheInput(got: seq<Read>, end: int)
    ensures forall k :: 0 <= k < |Regrouped(got, end)| ==> Regrouped(got, end)[k].data != []
    ensures PieceBytes(Regrouped(got, end)) == DataOf(got)
  {
    ClosedBytes(got);
    BytesOfOne(PiecesOf(ClosedChunks(got)), OpenChunk(got), end);
    PiecesNotEmpty(ClosedChunks(got));
  }

  ghost function PieceBytes(pieces: seq<Piece>): seq<byte> {
    if pieces == [] then [] else PieceBytes(pieces[..|pieces| - 1]) + pieces[|pieces| - 1].data
  }

  lemma BytesOfOne(pieces: seq<Piece>, chunk: seq<Read>, now: int)
    ensures PieceBytes(pieces + PieceOf(chunk, now)) == PieceBytes(pieces) + DataOf(chunk)
  {
    if DataOf(chunk) == [] {
      assert pieces + PieceOf(chunk, now) == pieces;
    } else {
      assert (pieces + PieceOf(chunk, now))[..|pieces|] == pieces;
    }
  }

  lemma {:induction false} PiecesNotEmpty(chunks: seq<seq<Read>>)
    ensures forall k :: 0 <= k < |PiecesOf(chunks)| ==> PiecesOf(chunks)[k].data != []
  {
    if chunks != [] { PiecesNotEmpty(chunks[..|chunks| - 1]); }
  }

  lemma {:induction false} ClosedBytes(got: seq<Read>)
    ensures PieceBytes(PiecesOf(ClosedChunks(got))) + DataOf(OpenChunk(got)) == DataOf(got)
  {
    hide DataOf, ClosedChunks, OpenChunk, PiecesOf, FirstTime, PieceBytes, PieceOf;
    NothingGot();
    if got != [] {
      var front, last := got[..|got| - 1], got[|got| - 1];
      assert got == front + [last];
      ClosedBytes(front);
      ReadAppended(front, last);
      ReadAppended(OpenChunk(front), last);
      BytesOfOne(PiecesOf(ClosedChunks(front)), OpenChunk(front) + [last], last.now);
      assert DataOf(got) == PieceBytes(PiecesOf(ClosedChunks(front))) + (DataOf(OpenChunk(front)) + last.data);
    }
  }

  // ----- one piece for each HTTP chunk

  /** The reads of one HTTP chunk: only the last one ends it. */
  ghost predicate IsChunk(chunk: seq<Read>) {
    chunk != [] && chunk[|chunk| - 1].ends && forall k :: 0 <= k < |chunk| - 1 ==> !chunk[k].ends
  }

  /** The reads of a chunk the stream stopped in. */
  ghost predicate IsCutShort(chunk: seq<Read>) { forall k :: 0 <= k < |chunk| ==> !chunk[k].ends }

  ghost function ReadsOf(chunks: seq<seq<Read>>): seq<Read> {
    if chunks == [] then [] else chunks[0] + ReadsOf(chunks[1..])
  }

  /** The bytes of the reads, from the first on. */
  ghost function Bytes(got: seq<Read>): seq<byte> {
    if got == [] then [] else got[0].data + Bytes(got[1..])
  }

  /** When the first read that brought any bytes arrived. */
  ghost function FirstArrival(got: seq<Read>): int
    requires Bytes(got) != []
  {
    if got[0].data != [] then got[0].now else FirstArrival(got[1..])
  }

  /** What a chunk gives: nothing without bytes; or all its bytes and the time the first of them
      arrived, or the closing time where that is zero. */
  ghost function Owed(chunk: seq<Read>, closing: int): seq<Piece> {
    if Bytes(chunk) == [] then []
    else [Piece(Bytes(chunk), if FirstArrival(chunk) != 0 then FirstArrival(chunk) else closing)]
  }

  /** What the chunks give, each closed by its last read. */
  ghost function OwedByAll(chunks: seq<seq<Read>>): seq<Piece> {
    if chunks == [] then [] else
    var first := chunks[0];
    Owed(first, if first == [] then 0 else first[|first| - 1].now) + OwedByAll(chunks[1..])
  }

  lemma {:induction false} DataIsBytes(got: seq<Read>)
    ensures DataOf(got) == Bytes(got)
  {
    if got != [] {
      FirstOfData(got[0], got[1..]);
      assert [got[0]] + got[1..] == got;
      DataIsBytes(got[1..]);
    }
  }

  lemma {:induction false} FirstOfData(first: Read, rest: seq<Read>)
    ensures DataOf([first] + rest) == first.data + DataOf(rest)
    decreases |rest|
  {
    var all := [first] + rest;
    if rest == [] {
      assert all == [first] && all[..0] == [];
    } else {
      FirstOfData(first, rest[..|rest| - 1]);
      assert all[..|all| - 1] == [first] + rest[..|rest| - 1];
      JoinTwo(first.data, DataOf(rest[..|rest| - 1]), rest[|rest| - 1].data, DataOf(rest));
    }
  }

  lemma {:induction false} FirstTimeIs(got: seq<Read>)
    ensures FirstTime(got) == if Bytes(got) == [] then None else Some(FirstArrival(got))
  {
    if got == [] {
    } else {
      FirstTimeIs(got[1..]);
      TimeOfFirst(got[0], got[1..]);
      assert [got[0]] + got[1..] == got;
      DataIsBytes(got[1..]);
    }
  }

  lemma {:induction false} TimeOfFirst(first: Read, rest: seq<Read>)
    ensures FirstTime([first] + rest) == if first.data != [] then Some(first.now) else FirstTime(rest)
    decreases |rest|
  {
    hide FirstTime, DataOf;
    if rest == [] {
      assert [first] + rest == [] + [first];
      ReadAppended([], first);
      NothingGot();
    } else {
      var n := |rest| - 1;
      TimeOfFirst(first, rest[..n]);
      assert [first] + rest == ([first] + rest[..n]) + [rest[n]] && rest == rest[..n] + [rest[n]];
      ReadAppended([first] + rest[..n], rest[n]);
      ReadAppended(rest[..n], rest[n]);
      FirstOfData(first, rest[..n]);
    }
  }

  lemma PieceIs(chunk: seq<Read>, closing: int)
    ensures PieceOf(chunk, closing) == Owed(chunk, closing)
  {
    DataIsBytes(chunk);
    FirstTimeIs(chunk);
    hide DataOf, FirstTime, Bytes, FirstArrival;
  }

  lemma OneMoreRead(got: seq<Read>, last: Read)
    ensures (ClosedChunks(got + [last])
      == if last.ends then ClosedChunks(got) + [OpenChunk(got) + [last]] else ClosedChunks(got))
    ensures OpenChunk(got + [last]) == if last.ends then [] else OpenChunk(got) + [last]
  {
    assert (got + [last])[..|got|] == got;
  }

  /** Reads that end no chunk only add to the open one. */
  lemma {:induction false} StillOpen(got: seq<Read>, more: seq<Read>)
    requires IsCutShort(more)
    ensures ClosedChunks(got + more) == ClosedChunks(got) && OpenChunk(got + more) == OpenChunk(got) + more
  {
    hide ClosedChunks, OpenChunk;
    if more == [] {
      assert got + more == got && OpenChunk(got) + more == OpenChunk(got);
    } else {
      var n := |more| - 1;
      StillOpen(got, more[..n]);
      OneMoreRead(got + more[..n], more[n]);
      assert got + more[..n] + [more[n]] == got + more;
      assert OpenChunk(got) + more[..n] + [more[n]] == OpenChunk(got) + more;
    }
  }

  lemma OneClosed(got: seq<Read>, chunk: seq<Read>)
    requires IsChunk(chunk) && OpenChunk(got) == []
    ensures ClosedChunks(got + chunk) == ClosedChunks(got) + [chunk] && OpenChunk(got + chunk) == []
  {
    hide ClosedChunks, OpenChunk;
    var n := |chunk| - 1;
    StillOpen(got, chunk[..n]);
    OneMoreRead(got + chunk[..n], chunk[n]);
    assert got + chunk[..n] + [chunk[n]] == got + chunk;
    assert [] + chunk[..n] + [chunk[n]] == chunk;
  }

  lemma {:induction false} ChunksAreClosed(got: seq<Read>, chunks: seq<seq<Read>>)
    requires OpenChunk(got) == [] && forall i :: 0 <= i < |chunks| ==> IsChunk(chunks[i])
    ensures ClosedChunks(got + ReadsOf(chunks)) == ClosedChunks(got) + chunks && OpenChunk(got + ReadsOf(chunks)) == []
    decreases |chunks|
  {
    hide ClosedChunks, OpenChunk, IsChunk;
    if chunks == [] {
      assert got + [] == got && ClosedChunks(got) + [] == ClosedChunks(got);
    } else {
      OneClosed(got, chunks[0]);
      ChunksAreClosed(got + chunks[0], chunks[1..]);
      assert got + (chunks[0] + ReadsOf(chunks[1..])) == got + chunks[0] + ReadsOf(chunks[1..]);
      assert ClosedChunks(got) + [chunks[0]] + chunks[1..] == ClosedChunks(got) + chunks;
    }
  }

  lemma {:induction false} PiecesAre(done: seq<seq<Read>>, chunks: seq<seq<Read>>)
    ensures PiecesOf(done + chunks) == PiecesOf(done) + OwedByAll(chunks)
    decreases |chunks|
  {
    hide PieceOf, Owed;
    if chunks == [] {
      assert done + chunks == done && PiecesOf(done) + [] == PiecesOf(done);
    } else {
      var first := chunks[0];
      OneMorePiece(done, first);
      PieceIs(first, LastTime(first));
      PiecesAre(done + [first], chunks[1..]);
      assert done + [first] + chunks[1..] == done + chunks;
    }
  }

  lemma OneMorePiece(done: seq<seq<Read>>, chunk: seq<Read>)
    ensures PiecesOf(done + [chunk]) == PiecesOf(done) + PieceOf(chunk, LastTime(chunk))
  {
    assert (done + [chunk])[..|done|] == done;
  }

  /** However a response is made up of HTTP chunks, a last one cut short included: the pieces
      are those of the chunks, in order, and then that of the one cut short. */
  lemma OnePieceForEachChunk(chunks: seq<seq<Read>>, open: seq<Read>, end: int)
    requires (forall i :: 0 <= i < |chunks| ==> IsChunk(chunks[i])) && IsCutShort(open)
    ensures Regrouped(ReadsOf(chunks) + open, end) == OwedByAll(chunks) + Owed(open, end)
  {
    NothingGot();
    assert [] + ReadsOf(chunks) == ReadsOf(chunks) && [] + chunks == chunks && [] + open == open;
    ChunksAreClosed([], chunks);
    StillOpen(ReadsOf(chunks), open);
    PiecesAre([], chunks);
    PieceIs(open, end);
    assert [] + OwedByAll(chunks) == OwedByAll(chunks);
    hide ClosedChunks, OpenChunk, PiecesOf, PieceOf, OwedByAll, Owed, ReadsOf;
  }

  /** Every response is made up so. */
  lemma {:induction false} MadeOfChunks(got: seq<Read>) returns (chunks: seq<seq<Read>>, open: seq<Read>)
    ensures (forall i :: 0 <= i < |chunks| ==> IsChunk(chunks[i])) && IsCutShort(open)
    ensures got == ReadsOf(chunks) + open
  {
    if got == [] {
      chunks, open := [], [];
    } else {
      var first := [got[0]];
      var rest;
      rest, open := MadeOfChunks(got[1..]);
      assert got == first + (ReadsOf(rest) + open);
      if got[0].ends {
        chunks := [first] + rest;
        assert chunks[1..] == rest;
      } else if rest == [] {
        chunks, open := [], first + open;
      } else {
        chunks := [first + rest[0]] + rest[1..];
        assert chunks[1..] == rest[1..];
        assert first + (rest[0] + ReadsOf(rest[1..])) == first + rest[0] + ReadsOf(rest[1..]);
      }
    }
  }

  // ----- only the ends of HTTP chunks cut

  /** The data of the pieces, without their times. */
  ghost function DataOfPieces(pieces: seq<Piece>): seq<seq<byte>> {
    seq(|pieces|, i requires 0 <= i < |pieces| => pieces[i].data)
  }

  /** Two lists of reads with the same bytes in their finished pieces and the same open bytes;
      if timed, with the same pieces and the same first time as well. */
  ghost predicate SameCut(a: seq<Read>, b: seq<Read>, timed: bool) {
    && DataOfPieces(PiecesOf(ClosedChunks(a))) == DataOfPieces(PiecesOf(ClosedChunks(b)))
    && SameChunk(OpenChunk(a), OpenChunk(b), timed)
    && (timed ==> PiecesOf(ClosedChunks(a)) == PiecesOf(ClosedChunks(b)))
  }

  ghost predicate SameChunk(a: seq<Read>, b: seq<Read>, timed: bool) {
    DataOf(a) == DataOf(b) && (timed ==> FirstTime(a) == FirstTime(b))
  }

  lemma SamePiecesAppended(p: seq<Piece>, q: seq<Piece>, a: seq<Read>, t: int, b: seq<Read>, timed: bool)
    requires DataOfPieces(p) == DataOfPieces(q) && (timed ==> p == q) && SameChunk(a, b, timed)
    ensures DataOfPieces(p + PieceOf(a, t)) == DataOfPieces(q + PieceOf(b, t))
    ensures timed ==> p + PieceOf(a, t) == q + PieceOf(b, t)
  {
    hide DataOf, FirstTime;
    assert |DataOfPieces(p)| == |DataOfPieces(q)|;
    forall i | 0 <= i < |p| ensures p[i].data == q[i].data {
      assert DataOfPieces(p)[i] == DataOfPieces(q)[i];
    }
  }

  lemma SameChunkAppended(a: seq<Read>, b: seq<Read>, r: Read, timed: bool)
    requires SameChunk(a, b, timed)
    ensures SameChunk(a + [r], b + [r], timed)
  {
    hide DataOf, FirstTime, OpenChunk, ClosedChunks, PiecesOf, PieceOf;
    ReadAppended(a, r);
    ReadAppended(b, r);
  }

  lemma SameCutAppended(a: seq<Read>, b: seq<Read>, r: Read, timed: bool)
    requires SameCut(a, b, timed)
    ensures SameCut(a + [r], b + [r], timed)
  {
    hide DataOf, ClosedChunks, OpenChunk, PiecesOf, FirstTime, PieceOf, DataOfPieces, SameChunk;
    ReadAppended(a, r);
    ReadAppended(b, r);
    SameChunkAppended(OpenChunk(a), OpenChunk(b), r, timed);
    var p, q := PiecesOf(ClosedChunks(a)), PiecesOf(ClosedChunks(b));
    SamePiecesAppended(p, q, OpenChunk(a) + [r], r.now, OpenChunk(b) + [r], timed);
    if r.ends { SameChunkEmpty(timed); }
  }

  lemma SameChunkEmpty(timed: bool)
    ensures SameChunk([], [], timed)
  {
  }

  lemma {:induction false} SameCutContinues(a: seq<Read>, b: seq<Read>, more: seq<Read>, timed: bool)
    requires SameCut(a, b, timed)
    ensures SameCut(a + more, b + more, timed)
  {
    hide SameCut;
    if more == [] {
      assert a + more == a && b + more == b;
    } else {
      var n := |more| - 1;
      SameCutContinues(a, b, more[..n], timed);
      SameCutAppended(a + more[..n], b + more[..n], more[n], timed);
      assert a + more[..n] + [more[n]] == a + more && b + more[..n] + [more[n]] == b + more;
    }
  }

  /** Cutting one read in two inside an HTTP chunk changes no piece's bytes; and if both parts
      arrive when the whole would have, it changes nothing at all. */
  lemma ReadCutsDoNotMatter(before: seq<Read>, r: Read, k: nat, earlier: int, after: seq<Read>, end: int)
    requires k <= |r.data|
    ensures (var cut := before + [Read(r.data[..k], false, earlier), r.(data := r.data[k..])] + after;
      && DataOfPieces(Regrouped(cut, end)) == DataOfPieces(Regrouped(before + [r] + after, end))
      && (earlier == r.now ==> Regrouped(cut, end) == Regrouped(before + [r] + after, end)))
  {
    hide SameCut, Regrouped, DataOfPieces;
    var first, second := Read(r.data[..k], false, earlier), r.(data := r.data[k..]);
    var timed := earlier == r.now;
    OneReadCut(before, r, first, second, timed);
    SameCutContinues(before + [first] + [second], before + [r], after, timed);
    assert before + [first] + [second] + after == before + [first, second] + after;
    SamePieces(before + [first, second] + after, before + [r] + after, end, timed);
  }

  lemma OneReadCut(before: seq<Read>, r: Read, first: Read, second: Read, timed: bool)
    requires r.data == first.data + second.data && !first.ends && second.ends == r.ends && second.now == r.now
    requires timed ==> first.now == r.now
    ensures SameCut(before + [first] + [second], before + [r], timed)
  {
    hide *;
    var open, p := OpenChunk(before), PiecesOf(ClosedChunks(before));
    ReadAppended(before, first);
    ReadAppended(before + [first], second);
    ReadAppended(before, r);
    SameBytes(open, r, first, second, timed);
    if r.ends {
      SamePiecesAppended(p, p, open + [first] + [second], r.now, open + [r], timed);
      SameChunkEmpty(timed);
    }
    SameCutIntro(before + [first] + [second], before + [r], timed);
  }

  lemma SameCutIntro(a: seq<Read>, b: seq<Read>, timed: bool)
    requires DataOfPieces(PiecesOf(ClosedChunks(a))) == DataOfPieces(PiecesOf(ClosedChunks(b)))
    requires timed ==> PiecesOf(ClosedChunks(a)) == PiecesOf(ClosedChunks(b))
    requires SameChunk(OpenChunk(a), OpenChunk(b), timed)
    ensures SameCut(a, b, timed)
  {
    hide DataOf, ClosedChunks, OpenChunk, PiecesOf, DataOfPieces, SameChunk;
  }

  lemma SameBytes(open: seq<Read>, r: Read, first: Read, second: Read, timed: bool)
    requires r.data == first.data + second.data && second.now == r.now && (timed ==> first.now == r.now)
    ensures SameChunk(open + [first] + [second], open + [r], timed)
  {
    hide DataOf, FirstTime, OpenChunk, ClosedChunks, PiecesOf, PieceOf;
    ReadAppended(open, first);
    ReadAppended(open + [first], second);
    ReadAppended(open, r);
    JoinTwo(DataOf(open), first.data, second.data, r.data);
  }

  lemma JoinTwo(a: seq<byte>, b: seq<byte>, c: seq<byte>, whole: seq<byte>)
    requires whole == b + c
    ensures (a + b) + c == a + whole
    ensures a + b == [] <==> a == [] && b == []
    ensures whole == [] <==> b == [] && c == []
  {
    assert |a + b| == |a| + |b| && |whole| == |b| + |c|;
  }

  lemma SamePieces(a: seq<Read>, b: seq<Read>, end: int, timed: bool)
    requires SameCut(a, b, timed)
    ensures DataOfPieces(Regrouped(a, end)) == DataOfPieces(Regrouped(b, end))
    ensures timed ==> Regrouped(a, end) == Regrouped(b, end)
  {
    hide DataOf, ClosedChunks, OpenChunk, PiecesOf, FirstTime, PieceOf, DataOfPieces, SameChunk;
    SamePiecesAppended(PiecesOf(ClosedChunks(a)), PiecesOf(ClosedChunks(b)), OpenChunk(a), end, OpenChunk(b), timed);
  }
}
