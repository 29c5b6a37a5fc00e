/**
  The read side: an input stream that maps the file one bounded window at a
  time and hands out its bytes in order (ChunkedMappedInputStream).

  The stream is an immutable value; every operation returns the next state.
  `position` is the absolute offset of the END of the current window, as in the
  source, and the absolute offset of the next byte to hand out is `Consumed`.
 */
module ChunkedInput {
  import opened Wrappers
  import opened MappedWindows

  datatype InputStream = InputStream(
    file: seq<bv8>,          // the whole file; its length is the size fixed at open
    chunkSize: int,          // the long passed to the constructor
    position: nat,           // end of the current window
    mapped: Option<Window>,  // null once the end of the file has been reached
    log: seq<Event>)         // every map and release so far

  /** End offset of the most recently mapped region (0 before the first map). */
  function MappedEnd(log: seq<Event>): (end: nat)
    decreases |log|
  {
    if |log| == 0 then 0
    else if log[|log| - 1].Mapped? then log[|log| - 1].start + log[|log| - 1].size
    else MappedEnd(log[..|log| - 1])
  }

  /** Every mapped region starts where the previous one ended (the first at 0)
      and has size min(chunkSize, fileSize - start). */
  predicate Tiled(log: seq<Event>, chunkSize: int, fileSize: nat)
    decreases |log|
  {
    if |log| == 0 then true
    else
      var init := log[..|log| - 1];
      var last := log[|log| - 1];
      && Tiled(init, chunkSize, fileSize)
      && (last.Mapped? ==>
            last.start == MappedEnd(init) && last.size == Min(chunkSize, fileSize - last.start))
  }

  /** A chunk size the stream works with: a positive one, or any at all for an
      empty file, where the constructor maps nothing. */
  predicate ChunkFits(chunkSize: int, fileSize: nat) {
    chunkSize > 0 || fileSize == 0
  }

  /** The invariant of the fields, which also holds just before the constructor's first map. */
  predicate WindowAligned(s: InputStream) {
    && ChunkFits(s.chunkSize, |s.file|)
    && s.position <= |s.file|
    && (s.mapped.Some? ==>
          var w := s.mapped.value;
          && w.cursor <= w.capacity
          && 0 < w.capacity <= s.chunkSize
          && w.start + w.capacity == s.position)
  }

  /** The invariant of the history: map and release alternate, the live window
      is the last one mapped, and the mapped regions tile the file up to `position`. */
  predicate Recorded(s: InputStream) {
    && Alternating(s.log)
    && LiveIs(s.log, s.mapped)
    && Tiled(s.log, s.chunkSize, |s.file|)
    && MappedEnd(s.log) == s.position
  }

  /** The invariant of a constructed stream: no window only at the end of the file. */
  predicate Valid(s: InputStream) {
    && WindowAligned(s)
    && (s.mapped.None? ==> s.position == |s.file|)
  }

  /** Absolute offset of the next byte the stream will hand out. */
  function Consumed(s: InputStream): (offset: nat) {
    if s.mapped.Some? then s.mapped.value.start + s.mapped.value.cursor else s.position
  }

  lemma ConsumedBounded(s: InputStream)
    requires Valid(s)
    ensures Consumed(s) <= s.position <= |s.file|
    ensures Consumed(s) == |s.file| ==> s.mapped.None? || !s.mapped.value.HasRemaining()
  {
  }

  lemma TiledStep(log: seq<Event>, chunkSize: int, fileSize: nat, e: Event)
    requires Tiled(log, chunkSize, fileSize)
    requires e.Mapped? ==> e.start == MappedEnd(log) && e.size == Min(chunkSize, fileSize - e.start)
    ensures Tiled(log + [e], chunkSize, fileSize)
    ensures MappedEnd(log + [e]) == if e.Mapped? then e.start + e.size else MappedEnd(log)
  {
    assert (log + [e])[..|log|] == log;
  }

  /** Releasing the current window keeps the history alternating and tiled. */
  lemma ReleaseKeepsTiling(s: InputStream)
    requires WindowAligned(s) && Recorded(s)
    ensures var released := s.log + ReleaseOf(s.mapped);
            && Alternating(released) && LiveIs(released, None)
            && Tiled(released, s.chunkSize, |s.file|) && MappedEnd(released) == s.position
  {
    var released := s.log + ReleaseOf(s.mapped);
    AlternatingStep(s.log, s.mapped, None);
    assert released + MapOf(None) == released;
    if s.mapped.Some? {
      TiledStep(s.log, s.chunkSize, |s.file|, Released(s.mapped.value.start, s.mapped.value.capacity));
    } else {
      assert released == s.log;
    }
  }

  /** mapNext: release the current window, then map
      min(chunkSize, fileSize - position) bytes at `position`, or drop to the
      no-window end state when nothing is left. */
  function MapNext(s: InputStream): (r: InputStream)
    requires WindowAligned(s)
    ensures Valid(r)
    ensures r.file == s.file && r.chunkSize == s.chunkSize
    ensures r.mapped.None? <==> s.position >= |s.file|
    ensures r.mapped.Some? ==>
              && r.mapped.value.start == s.position
              && r.mapped.value.cursor == 0
              && r.mapped.value.capacity == Min(s.chunkSize, |s.file| - s.position)
    ensures r.position == s.position + (if r.mapped.Some? then r.mapped.value.capacity else 0)
    ensures s.position < |s.file| ==> s.position < r.position
    ensures Consumed(r) == s.position
    ensures r.log == s.log + ReleaseOf(s.mapped) + MapOf(r.mapped)
  {
    var released := s.log + ReleaseOf(s.mapped);
    if s.position >= |s.file| then
      s.(mapped := None, log := released)
    else
      var size := Min(s.chunkSize, |s.file| - s.position);
      s.(mapped := Some(Window(s.position, size, 0)), position := s.position + size,
         log := released + [Mapped(s.position, size)])
  }

  /** mapNext releases the old window before it maps the next one, and the next
      one starts where the last mapped region ended. */
  lemma MapNextRecorded(s: InputStream)
    requires WindowAligned(s) && Recorded(s)
    ensures Recorded(MapNext(s))
  {
    ReleaseKeepsTiling(s);
    var released := s.log + ReleaseOf(s.mapped);
    var r := MapNext(s);
    if s.position < |s.file| {
      AlternatingStep(s.log, s.mapped, r.mapped);
      TiledStep(released, s.chunkSize, |s.file|, Mapped(s.position, r.mapped.value.capacity));
    } else {
      assert r.log == released;
    }
  }

  /** Moving the cursor of the live window leaves the history invariant alone. */
  lemma CursorKeepsRecorded(s: InputStream, cursor: nat)
    requires Recorded(s) && s.mapped.Some?
    ensures Recorded(s.(mapped := Some(s.mapped.value.(cursor := cursor))))
  {
  }

  /** The constructor: a stream over `file` whose first window is already mapped. */
  function Open(file: seq<bv8>, chunkSize: int): (r: InputStream)
    requires ChunkFits(chunkSize, |file|)
    ensures Valid(r) && Recorded(r) && r.file == file && r.chunkSize == chunkSize
    ensures Consumed(r) == 0
    ensures r.mapped.None? <==> |file| == 0
    ensures r.log == if |file| == 0 then [] else [Mapped(0, Min(chunkSize, |file|))]
  {
    MapNextRecorded(InputStream(file, chunkSize, 0, None, []));
    MapNext(InputStream(file, chunkSize, 0, None, []))
  }

  datatype ByteRead = ByteRead(stream: InputStream, value: int)

  /** read(): the next byte as 0..255, or -1 at the end of the stream; an
      exhausted window is replaced by the next one first. */
  function ReadByte(s: InputStream): (r: ByteRead)
    requires Valid(s)
    ensures Valid(r.stream) && r.stream.file == s.file && r.stream.chunkSize == s.chunkSize
    ensures r.value == -1 <==> Consumed(s) == |s.file|
    ensures r.value != -1 ==>
              && 0 <= r.value < 256
              && Consumed(s) < |s.file|
              && r.value == s.file[Consumed(s)] as int
              && Consumed(r.stream) == Consumed(s) + 1
    ensures r.value == -1 ==> r.stream.mapped.None?
    ensures s.mapped.None? ==> r == ByteRead(s, -1)
    ensures s.log <= r.stream.log
    decreases |s.file| - s.position, s.mapped.Some?
  {
    match s.mapped
    case None => ByteRead(s, -1)
    case Some(w) =>
      if w.HasRemaining() then
        ByteRead(s.(mapped := Some(w.(cursor := w.cursor + 1))), s.file[w.start + w.cursor] as int)
      else
        ReadByte(MapNext(s))
  }

  datatype BulkRead = BulkRead(stream: InputStream, buffer: seq<bv8>, count: int)

  /** Replace `b[off..off + |data|]` by `data`. */
  function CopyInto(b: seq<bv8>, off: nat, data: seq<bv8>): (r: seq<bv8>)
    requires off + |data| <= |b|
    ensures |r| == |b| && r[off..off + |data|] == data
    ensures r[..off] == b[..off] && r[off + |data|..] == b[off + |data|..]
  {
    b[..off] + data + b[off + |data|..]
  }

  /** The copy step of the bulk read: min(len, remaining) bytes of the live window. */
  function CopyFromWindow(s: InputStream, b: seq<bv8>, off: nat, len: nat): (r: BulkRead)
    requires Valid(s) && 0 < len && off + len <= |b|
    requires s.mapped.Some? && s.mapped.value.HasRemaining()
    ensures Valid(r.stream) && r.stream.file == s.file && r.stream.chunkSize == s.chunkSize
    ensures r.stream.log == s.log && r.stream.position == s.position
    ensures r.count == Min(len, s.mapped.value.capacity - s.mapped.value.cursor)
    ensures Consumed(r.stream) == Consumed(s) + r.count <= |s.file|
    ensures r.buffer == CopyInto(b, off, s.file[Consumed(s)..Consumed(r.stream)])
    ensures r.stream.mapped.Some? && r.stream.mapped.value.start == s.mapped.value.start
    ensures r.count == len || !r.stream.mapped.value.HasRemaining()
  {
    var w := s.mapped.value;
    var n := Min(len, w.capacity - w.cursor);
    var from := w.start + w.cursor;
    BulkRead(s.(mapped := Some(w.(cursor := w.cursor + n))), CopyInto(b, off, s.file[from..from + n]), n)
  }

  /** Skipping an exhausted window hands out nothing and only extends the history. */
  lemma SkipExhausted(s: InputStream)
    requires Valid(s) && s.mapped.Some? && !s.mapped.value.HasRemaining()
    ensures Valid(MapNext(s)) && Consumed(MapNext(s)) == Consumed(s)
    ensures s.log <= MapNext(s).log
    ensures |s.file| - MapNext(s).position < |s.file| - s.position || MapNext(s).mapped.None?
  {
  }

  /** The loop of read(byte[], int, int) once `len > 0`: skip exhausted windows,
      then copy min(len, remaining) bytes of one window and stop. */
  function ReadLoop(s: InputStream, b: seq<bv8>, off: nat, len: nat): (r: BulkRead)
    requires Valid(s) && 0 < len && off + len <= |b|
    ensures Valid(r.stream) && r.stream.file == s.file && r.stream.chunkSize == s.chunkSize
    ensures r.count == -1 <==> Consumed(s) == |s.file|
    ensures r.count == -1 ==> r.stream.mapped.None? && r.buffer == b
    ensures r.count != -1 ==>
              && 1 <= r.count <= len
              && Consumed(r.stream) == Consumed(s) + r.count <= |s.file|
              && r.buffer == CopyInto(b, off, s.file[Consumed(s)..Consumed(r.stream)])
              && r.stream.mapped.Some? && r.stream.mapped.value.start <= Consumed(s)
              && (r.count == len || !r.stream.mapped.value.HasRemaining())
    ensures s.log <= r.stream.log
    decreases |s.file| - s.position, s.mapped.Some?
  {
    match s.mapped
    case None => BulkRead(s, b, -1)
    case Some(w) =>
      if !w.HasRemaining() then
        SkipExhausted(s);
        ReadLoop(MapNext(s), b, off, len)
      else
        CopyFromWindow(s, b, off, len)
  }

  /** read(byte[] b, int off, int len) as written: -1 with no window, and also
      -1 for `len == 0` because the loop never runs and nothing was copied. */
  function ReadBulk(s: InputStream, b: seq<bv8>, off: nat, len: nat): (r: BulkRead)
    requires Valid(s) && off + len <= |b|
    ensures Valid(r.stream) && r.stream.file == s.file && r.stream.chunkSize == s.chunkSize
    ensures r.count == -1 <==> len == 0 || Consumed(s) == |s.file|
    ensures r.count == -1 ==> r.buffer == b
    ensures len == 0 || s.mapped.None? ==> r.stream == s
    ensures r.count != -1 ==>
              && 1 <= r.count <= len
              && Consumed(r.stream) == Consumed(s) + r.count
              && r.buffer == CopyInto(b, off, s.file[Consumed(s)..Consumed(r.stream)])
              && r.stream.mapped.Some? && r.stream.mapped.value.start <= Consumed(s)
              && (r.count == len || !r.stream.mapped.value.HasRemaining())
    ensures s.log <= r.stream.log
  {
    if s.mapped.None? then BulkRead(s, b, -1)
    else if len == 0 then BulkRead(s, b, -1)
    else ReadLoop(s, b, off, len)
  }

  /** Whatever the window, a zero-length bulk read reports the end of the
      stream, even when bytes remain. */
  lemma ZeroLengthReadReportsEnd(s: InputStream, b: seq<bv8>, off: nat)
    requires Valid(s) && off <= |b|
    ensures ReadBulk(s, b, off, 0).count == -1
  {
  }

  /** A concrete stream with bytes left on which a zero-length read returns -1. */
  lemma ZeroLengthReadWitness()
    ensures var s := Open([1, 2, 3], 4);
            Consumed(s) < |s.file| && ReadBulk(s, [], 0, 0).count == -1
  {
  }

  /** read(byte[], int, int) as java.io.InputStream specifies it: a zero-length
      request returns 0; otherwise the source's behaviour. */
  function ReadBulkPerContract(s: InputStream, b: seq<bv8>, off: nat, len: nat): (r: BulkRead)
    requires Valid(s) && off + len <= |b|
    ensures Valid(r.stream) && r.stream.file == s.file && r.stream.chunkSize == s.chunkSize
    ensures r.count == 0 <==> len == 0
    ensures r.count == -1 <==> 0 < len && Consumed(s) == |s.file|
    ensures r.count <= 0 ==> r.buffer == b && Consumed(r.stream) == Consumed(s)
    ensures 0 < r.count ==>
              && r.count <= len
              && Consumed(r.stream) == Consumed(s) + r.count
              && r.buffer == CopyInto(b, off, s.file[Consumed(s)..Consumed(r.stream)])
    ensures s.log <= r.stream.log
  {
    if len == 0 then BulkRead(s, b, 0) else ReadBulk(s, b, off, len)
  }

  /** The two agree on every request of at least one byte. */
  lemma PerContractAgreesOnNonEmpty(s: InputStream, b: seq<bv8>, off: nat, len: nat)
    requires Valid(s) && off + len <= |b| && 0 < len
    ensures ReadBulkPerContract(s, b, off, len) == ReadBulk(s, b, off, len)
  {
  }

  /** close(): release the current window (if any). Returns the final history. */
  function Close(s: InputStream): (log: seq<Event>)
    requires Valid(s) && Recorded(s)
    ensures log == s.log + ReleaseOf(s.mapped)
    ensures Alternating(log) && LiveCount(log) == 0
  {
    AlternatingStep(s.log, s.mapped, None);
    assert s.log + ReleaseOf(s.mapped) + MapOf(None) == s.log + ReleaseOf(s.mapped);
    LiveCountAlternating(s.log + ReleaseOf(s.mapped));
    s.log + ReleaseOf(s.mapped)
  }

  /** The bytes of repeated read() calls until -1. */
  function ReadToEnd(s: InputStream): (out: seq<bv8>)
    requires Valid(s)
    ensures Consumed(s) <= |s.file| && out == s.file[Consumed(s)..]
    decreases |s.file| - Consumed(s)
  {
    ConsumedBounded(s);
    var step := ReadByte(s);
    if step.value == -1 then []
    else
      OneByte(s.file, Consumed(s), step.value);
      [step.value as bv8] + ReadToEnd(step.stream)
  }

  /** Reading a freshly opened stream to the end yields the whole file, for every chunk size. */
  lemma ReadWholeFile(file: seq<bv8>, chunkSize: int)
    requires ChunkFits(chunkSize, |file|)
    ensures ReadToEnd(Open(file, chunkSize)) == file
  {
  }

  /** One call a consumer makes on the stream. */
  datatype ReadCall = ReadOne | ReadInto(buffer: seq<bv8>, off: nat, len: nat)

  predicate Fits(c: ReadCall) {
    c.ReadInto? ==> c.off + c.len <= |c.buffer|
  }

  /** The stream after a run of calls, the bytes they returned in order, and
      whether any of them reported the end of the stream. */
  datatype Drained = Drained(stream: InputStream, out: seq<bv8>, ended: bool)

  /** One read() call as a step of a run of calls. */
  function StepOne(s: InputStream): (r: Drained)
    requires Valid(s)
    ensures Valid(r.stream) && r.stream.file == s.file
    ensures Consumed(s) <= Consumed(r.stream) <= |s.file|
    ensures r.out == s.file[Consumed(s)..Consumed(r.stream)]
    ensures r.ended ==> Consumed(r.stream) == |s.file|
    ensures s.log <= r.stream.log
  {
    var step := ReadByte(s);
    ConsumedBounded(s);
    ConsumedBounded(step.stream);
    if step.value == -1 then
      Drained(step.stream, [], true)
    else
      OneByte(s.file, Consumed(s), step.value);
      Drained(step.stream, [step.value as bv8], false)
  }

  lemma OneByte(f: seq<bv8>, i: nat, v: int)
    requires i < |f| && v == f[i] as int
    ensures 0 <= v < 256 && [v as bv8] == f[i..i + 1]
    ensures [v as bv8] + f[i + 1..] == f[i..]
  {
    assert f[i..] == [f[i]] + f[i + 1..];
  }

  /** One bulk read call as a step of a run of calls. */
  function StepInto(s: InputStream, buffer: seq<bv8>, off: nat, len: nat): (r: Drained)
    requires Valid(s) && off + len <= |buffer|
    ensures Valid(r.stream) && r.stream.file == s.file
    ensures Consumed(s) <= Consumed(r.stream) <= |s.file|
    ensures r.out == s.file[Consumed(s)..Consumed(r.stream)]
    ensures r.ended ==> Consumed(r.stream) == |s.file|
    ensures s.log <= r.stream.log
  {
    var step := ReadBulkPerContract(s, buffer, off, len);
    ConsumedBounded(s);
    ConsumedBounded(step.stream);
    Drained(step.stream, if step.count <= 0 then [] else step.buffer[off..off + step.count], step.count == -1)
  }

  /** One call: the bytes it returned, in order, are the next bytes of the file. */
  function Step(s: InputStream, c: ReadCall): (r: Drained)
    requires Valid(s) && Fits(c)
    ensures Valid(r.stream) && r.stream.file == s.file
    ensures Consumed(s) <= Consumed(r.stream) <= |s.file|
    ensures r.out == s.file[Consumed(s)..Consumed(r.stream)]
    ensures r.ended ==> Consumed(r.stream) == |s.file|
    ensures s.log <= r.stream.log
  {
    match c
    case ReadOne => StepOne(s)
    case ReadInto(buffer, off, len) => StepInto(s, buffer, off, len)
  }

  /** Any interleaving of read() and bulk reads hands out the file's bytes in
      order with none skipped or repeated; once one call reports the end, all
      of the file has been handed out. */
  function Drive(s: InputStream, calls: seq<ReadCall>): (r: Drained)
    requires Valid(s) && forall i | 0 <= i < |calls| :: Fits(calls[i])
    ensures Valid(r.stream) && r.stream.file == s.file
    ensures Consumed(s) <= Consumed(r.stream) <= |s.file|
    ensures r.out == s.file[Consumed(s)..Consumed(r.stream)]
    ensures r.ended ==> Consumed(r.stream) == |s.file|
    ensures s.log <= r.stream.log
    decreases |calls|
  {
    if |calls| == 0 then
      ConsumedBounded(s);
      Drained(s, [], false)
    else
      var first := Step(s, calls[0]);
      var rest := Drive(first.stream, calls[1..]);
      SliceJoin(s.file, Consumed(s), Consumed(first.stream), Consumed(rest.stream));
      Drained(rest.stream, first.out + rest.out, first.ended || rest.ended)
  }

  lemma SplitAt(f: seq<bv8>, out: seq<bv8>, rest: seq<bv8>, c: nat)
    requires c <= |f| && out == f[0..c] && rest == f[c..]
    ensures out + rest == f
  {
    assert f[0..c] + f[c..] == f;
  }

  /** After any run of calls, reading the rest with read() completes the file. */
  lemma {:induction false} DriveThenDrain(file: seq<bv8>, chunkSize: int, calls: seq<ReadCall>)
    requires ChunkFits(chunkSize, |file|) && forall i | 0 <= i < |calls| :: Fits(calls[i])
    ensures var r := Drive(Open(file, chunkSize), calls);
            r.out + ReadToEnd(r.stream) == file
  {
    var s := Open(file, chunkSize);
    assert Consumed(s) == 0 && s.file == file;
    var r := Drive(s, calls);
    var rest := ReadToEnd(r.stream);
    SplitAt(file, r.out, rest, Consumed(r.stream));
  }

  /** End of stream is a fixed point: every further read() returns -1 and changes nothing. */
  lemma {:induction false} EndOfStreamIsSticky(s: InputStream, calls: nat)
    requires Valid(s) && Consumed(s) == |s.file|
    ensures Drive(s, seq(calls, _ => ReadOne)).out == []
    ensures calls > 0 ==> Drive(s, seq(calls, _ => ReadOne)).ended
    decreases calls
  {
    if calls > 0 {
      var step := ReadByte(s);
      assert seq(calls, _ => ReadOne)[1..] == seq(calls - 1, _ => ReadOne);
      EndOfStreamIsSticky(step.stream, calls - 1);
    }
  }

  // ----- the same runs with the bulk read as written -----

  /** A bulk read that asks for no bytes at all. */
  predicate EmptyRequest(c: ReadCall) {
    c.ReadInto? && c.len == 0
  }

  /** Some call of the run asks for no bytes, or none does, whichever the first call is. */
  lemma EmptyRequestSplit(calls: seq<ReadCall>)
    requires |calls| > 0
    ensures (exists i | 0 <= i < |calls| :: EmptyRequest(calls[i]))
            <==> EmptyRequest(calls[0]) || exists i | 0 <= i < |calls| - 1 :: EmptyRequest(calls[1..][i])
  {
    if exists i | 0 <= i < |calls| :: EmptyRequest(calls[i]) {
      var i :| 0 <= i < |calls| && EmptyRequest(calls[i]);
      if i > 0 {
        assert calls[1..][i - 1] == calls[i];
      }
    }
    if exists i | 0 <= i < |calls| - 1 :: EmptyRequest(calls[1..][i]) {
      var i :| 0 <= i < |calls| - 1 && EmptyRequest(calls[1..][i]);
      assert calls[i + 1] == calls[1..][i];
    }
  }

  /** One call with the source's bulk read: a zero-length request reports the
      end of the stream (-1) whatever is left. */
  function StepAsWritten(s: InputStream, c: ReadCall): (r: Drained)
    requires Valid(s) && Fits(c)
    ensures Valid(r.stream) && r.stream.file == s.file
    ensures Consumed(s) <= Consumed(r.stream) <= |s.file|
    ensures r.out == s.file[Consumed(s)..Consumed(r.stream)]
    ensures r.ended ==> Consumed(r.stream) == |s.file| || EmptyRequest(c)
    ensures s.log <= r.stream.log
  {
    match c
    case ReadOne => StepOne(s)
    case ReadInto(buffer, off, len) =>
      var step := ReadBulk(s, buffer, off, len);
      ConsumedBounded(s);
      ConsumedBounded(step.stream);
      Drained(step.stream, if step.count == -1 then [] else step.buffer[off..off + step.count], step.count == -1)
  }

  /** A run of calls with the source's bulk read: the bytes still come in file
      order, but a reported end of stream only means the file is used up when
      no call of the run asked for zero bytes. */
  function DriveAsWritten(s: InputStream, calls: seq<ReadCall>): (r: Drained)
    requires Valid(s) && forall i | 0 <= i < |calls| :: Fits(calls[i])
    ensures Valid(r.stream) && r.stream.file == s.file
    ensures Consumed(s) <= Consumed(r.stream) <= |s.file|
    ensures r.out == s.file[Consumed(s)..Consumed(r.stream)]
    ensures r.ended ==> Consumed(r.stream) == |s.file| || exists i | 0 <= i < |calls| :: EmptyRequest(calls[i])
    ensures s.log <= r.stream.log
    decreases |calls|
  {
    if |calls| == 0 then
      ConsumedBounded(s);
      Drained(s, [], false)
    else
      var first := StepAsWritten(s, calls[0]);
      var rest := DriveAsWritten(first.stream, calls[1..]);
      SliceJoin(s.file, Consumed(s), Consumed(first.stream), Consumed(rest.stream));
      EmptyRequestSplit(calls);
      Drained(rest.stream, first.out + rest.out, first.ended || rest.ended)
  }

  /** The source's run and the corrected run leave the same stream and hand
      out the same bytes; the source's run reports the end of the stream
      exactly when the corrected one does or some call asked for zero bytes. */
  lemma {:induction false} AsWrittenRunAgrees(s: InputStream, calls: seq<ReadCall>)
    requires Valid(s) && forall i | 0 <= i < |calls| :: Fits(calls[i])
    ensures DriveAsWritten(s, calls).stream == Drive(s, calls).stream
    ensures DriveAsWritten(s, calls).out == Drive(s, calls).out
    ensures DriveAsWritten(s, calls).ended
            <==> Drive(s, calls).ended || exists i | 0 <= i < |calls| :: EmptyRequest(calls[i])
    decreases |calls|
  {
    if |calls| > 0 {
      match calls[0] {
        case ReadOne =>
        case ReadInto(buffer, off, len) =>
          if len > 0 {
            PerContractAgreesOnNonEmpty(s, buffer, off, len);
          }
      }
      AsWrittenRunAgrees(Step(s, calls[0]).stream, calls[1..]);
      EmptyRequestSplit(calls);
    }
  }

  // ----- the history invariant holds for every stream a consumer can reach -----

  lemma {:induction false} ReadByteRecorded(s: InputStream)
    requires Valid(s) && Recorded(s)
    ensures Recorded(ReadByte(s).stream)
    decreases |s.file| - s.position, s.mapped.Some?
  {
    match s.mapped
    case None =>
    case Some(w) =>
      if w.HasRemaining() {
        CursorKeepsRecorded(s, w.cursor + 1);
      } else {
        MapNextRecorded(s);
        ReadByteRecorded(MapNext(s));
      }
  }

  lemma {:induction false} ReadLoopRecorded(s: InputStream, b: seq<bv8>, off: nat, len: nat)
    requires Valid(s) && Recorded(s) && 0 < len && off + len <= |b|
    ensures Recorded(ReadLoop(s, b, off, len).stream)
    decreases |s.file| - s.position, s.mapped.Some?
  {
    match s.mapped
    case None =>
    case Some(w) =>
      if !w.HasRemaining() {
        SkipExhausted(s);
        MapNextRecorded(s);
        ReadLoopRecorded(MapNext(s), b, off, len);
      } else {
        CursorKeepsRecorded(s, w.cursor + Min(len, w.capacity - w.cursor));
      }
  }

  lemma StepRecorded(s: InputStream, c: ReadCall)
    requires Valid(s) && Recorded(s) && Fits(c)
    ensures Recorded(Step(s, c).stream)
  {
    match c
    case ReadOne => ReadByteRecorded(s);
    case ReadInto(buffer, off, len) =>
      if len > 0 && s.mapped.Some? {
        ReadLoopRecorded(s, buffer, off, len);
      }
  }

  lemma {:induction false} DriveRecorded(s: InputStream, calls: seq<ReadCall>)
    requires Valid(s) && Recorded(s) && forall i | 0 <= i < |calls| :: Fits(calls[i])
    ensures Recorded(Drive(s, calls).stream)
    decreases |calls|
  {
    if |calls| > 0 {
      StepRecorded(s, calls[0]);
      DriveRecorded(Step(s, calls[0]).stream, calls[1..]);
    }
  }

  /** Whatever calls a consumer makes, the stream keeps the history invariant,
      so it can be closed; the history then alternates map and release, never
      holds two live mappings at once, and ends with none. */
  lemma OneLiveMappingPerRun(file: seq<bv8>, chunkSize: int, calls: seq<ReadCall>)
    requires ChunkFits(chunkSize, |file|) && forall i | 0 <= i < |calls| :: Fits(calls[i])
    ensures var r := Drive(Open(file, chunkSize), calls).stream;
            && Recorded(r)
            && var log := r.log + ReleaseOf(r.mapped);
               && Alternating(log) && LiveCount(log) == 0
               && forall k | 0 <= k <= |log| :: 0 <= LiveCount(log[..k]) <= 1
  {
    var r := Drive(Open(file, chunkSize), calls).stream;
    DriveRecorded(Open(file, chunkSize), calls);
    AtMostOneLive(Close(r));
  }
}
