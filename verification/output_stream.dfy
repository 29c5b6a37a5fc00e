/**
  The write side: an output stream that grows the file window by window and
  truncates it to exactly the bytes written on close
  (ChunkedMappedOutputStream).

  The stream is an immutable value; every operation returns the next state.
  Bytes stored through a mapping land directly in `file`.
 */
module ChunkedOutput {
  import opened Wrappers
  import opened MappedWindows

  datatype OutputStream = OutputStream(
    file: seq<bv8>,          // current contents of the output file
    chunkSize: int,          // any long: windows never get smaller than 1 byte
    mappingStart: nat,       // bytes committed by earlier windows
    mapped: Option<Window>,  // the live window; null only before the first map and after close
    log: seq<Event>)         // every map and release so far

  /** The invariant of the fields, which also holds just before the constructor's first map. */
  predicate Shape(w: OutputStream) {
    (w.mapped.Some? ==>
          var m := w.mapped.value;
          && m.start == w.mappingStart
          && m.cursor <= m.capacity
          && 0 < m.capacity
          && w.mappingStart + m.capacity <= |w.file|)
  }

  /** The invariant of the history: map and release alternate and the live
      window is the last one mapped. */
  predicate Recorded(w: OutputStream) {
    Alternating(w.log) && LiveIs(w.log, w.mapped)
  }

  predicate IsOpen(w: OutputStream) {
    Shape(w) && w.mapped.Some?
  }

  predicate IsClosed(w: OutputStream) {
    Shape(w) && w.mapped.None? && |w.file| == w.mappingStart
  }

  /** Bytes written so far: those committed by earlier windows plus the live window's cursor. */
  function Written(w: OutputStream): (n: nat) {
    w.mappingStart + (if w.mapped.Some? then w.mapped.value.cursor else 0)
  }

  /** `n` zero bytes: the contents the operating system gives a file region it adds. */
  function Zeros(n: nat): (z: seq<bv8>)
    ensures |z| == n && forall i | 0 <= i < n :: z[i] == 0
  {
    seq(n, _ => 0 as bv8)
  }

  /** Java's `(byte) b`: keep the low eight bits. */
  function ToByte(b: int): (v: bv8) {
    (b % 256) as bv8
  }

  /** mapNext(minSize): commit the live window's cursor into `mappingStart`,
      release it, grow the file to at least mappingStart + max(minSize, chunkSize)
      and map that many bytes at `mappingStart`. */
  function MapNext(w: OutputStream, minSize: int): (r: OutputStream)
    requires Shape(w) && minSize > 0
    ensures IsOpen(r) && r.chunkSize == w.chunkSize
    ensures r.mappingStart == Written(w) && Written(r) == Written(w)
    ensures w.mappingStart <= r.mappingStart
    ensures r.mapped.value.cursor == 0
    ensures r.mapped.value.capacity == Max(minSize, w.chunkSize) >= minSize
    ensures |w.file| <= |r.file| && r.file[..|w.file|] == w.file
    ensures r.log == w.log + ReleaseOf(w.mapped) + MapOf(r.mapped)
  {
    var start := Written(w);
    var size := Max(minSize, w.chunkSize);
    var grown := if |w.file| < start + size then w.file + Zeros(start + size - |w.file|) else w.file;
    var m := Window(start, size, 0);
    assert grown[..|w.file|] == w.file;
    OutputStream(grown, w.chunkSize, start, Some(m), w.log + ReleaseOf(w.mapped) + [Mapped(start, size)])
  }

  /** mapNext releases the old window before it maps the next one. */
  lemma MapNextRecorded(w: OutputStream, minSize: int)
    requires Shape(w) && Recorded(w) && minSize > 0
    ensures Recorded(MapNext(w, minSize))
  {
    AlternatingStep(w.log, w.mapped, MapNext(w, minSize).mapped);
  }

  /** The constructor: the first window has max(1, chunkSize) bytes. The file
      is opened without truncation, so it may hold older contents. */
  function Open(existing: seq<bv8>, chunkSize: int): (r: OutputStream)
    ensures IsOpen(r) && Recorded(r) && r.chunkSize == chunkSize && Written(r) == 0
    ensures r.mapped.value.capacity == Max(1, chunkSize) >= 1
    ensures r.log == [Mapped(0, Max(1, chunkSize))]
  {
    MapNextRecorded(OutputStream(existing, chunkSize, 0, None, []), Max(1, chunkSize));
    MapNext(OutputStream(existing, chunkSize, 0, None, []), Max(1, chunkSize))
  }

  /** Store `data` at the live window's cursor. */
  function Put(w: OutputStream, data: seq<bv8>): (r: OutputStream)
    requires IsOpen(w) && |data| <= w.mapped.value.capacity - w.mapped.value.cursor
    ensures IsOpen(r) && r.chunkSize == w.chunkSize && r.log == w.log
    ensures r.mappingStart == w.mappingStart
    ensures r.mapped.value.capacity == w.mapped.value.capacity
    ensures Written(r) == Written(w) + |data|
    ensures r.file[..Written(r)] == w.file[..Written(w)] + data
  {
    var m := w.mapped.value;
    var at := Written(w);
    var file := w.file[..at] + data + w.file[at + |data|..];
    assert file[..at + |data|] == w.file[..at] + data;
    w.(file := file, mapped := Some(m.(cursor := m.cursor + |data|)))
  }

  /** write(int): map a fresh window (minSize 1) only when the live one is full,
      then store the low byte of `b`. */
  function WriteByte(w: OutputStream, b: int): (r: OutputStream)
    requires IsOpen(w)
    ensures IsOpen(r) && r.chunkSize == w.chunkSize
    ensures Written(r) == Written(w) + 1
    ensures r.file[..Written(r)] == w.file[..Written(w)] + [ToByte(b)]
    ensures r.log == w.log <==> w.mapped.value.HasRemaining()
    ensures r.log != w.log ==>
              && r.log == w.log + [Released(w.mappingStart, w.mapped.value.capacity), Mapped(Written(w), Max(1, w.chunkSize))]
              && r.mappingStart == Written(w)
  {
    var w1 := if w.mapped.value.HasRemaining() then w else MapNext(w, 1);
    assert w1.file[..Written(w1)] == w.file[..Written(w)];
    Put(w1, [ToByte(b)])
  }

  /** The stream after one pass of the bulk-write loop and the bytes it stored. */
  datatype Filled = Filled(stream: OutputStream, stored: nat)

  /** One pass of the bulk-write loop: map a fresh window of
      max(remaining, chunkSize) when the live one is full, then store as much
      as fits. */
  function FillWindow(w: OutputStream, b: seq<bv8>, srcPos: nat, remaining: nat): (r: Filled)
    requires IsOpen(w) && srcPos + remaining <= |b| && 0 < remaining
    ensures IsOpen(r.stream) && r.stream.chunkSize == w.chunkSize
    ensures 0 < r.stored <= remaining
    ensures Written(r.stream) == Written(w) + r.stored
    ensures r.stream.file[..Written(r.stream)] == w.file[..Written(w)] + b[srcPos..srcPos + r.stored]
    ensures w.mapped.value.HasRemaining() ==>
              && r.stream.log == w.log && r.stored == Min(w.mapped.value.capacity - w.mapped.value.cursor, remaining)
              && r.stream.mappingStart == w.mappingStart
              && r.stream.mapped.value.capacity == w.mapped.value.capacity
    ensures !w.mapped.value.HasRemaining() ==>
              && r.stream.log == w.log + [Released(w.mappingStart, w.mapped.value.capacity),
                                          Mapped(Written(w), Max(remaining, w.chunkSize))]
              && r.stored == remaining
    ensures r.stored < remaining ==> !r.stream.mapped.value.HasRemaining()
  {
    var w1 := if w.mapped.value.HasRemaining() then w else MapNext(w, remaining);
    assert w1.file[..Written(w1)] == w.file[..Written(w)];
    var n := Min(w1.mapped.value.capacity - w1.mapped.value.cursor, remaining);
    Filled(Put(w1, b[srcPos..srcPos + n]), n)
  }

  /** The loop of write(byte[], int, int): runs until all `remaining` bytes are
      stored, in order; at most one fresh window is mapped per call, because a
      fresh window holds at least what is still pending. */
  function WriteLoop(w: OutputStream, b: seq<bv8>, srcPos: nat, remaining: nat): (r: OutputStream)
    requires IsOpen(w) && srcPos + remaining <= |b|
    ensures IsOpen(r) && r.chunkSize == w.chunkSize
    ensures Written(r) == Written(w) + remaining
    ensures r.file[..Written(r)] == w.file[..Written(w)] + b[srcPos..srcPos + remaining]
    decreases remaining
  {
    if remaining == 0 then
      w
    else
      var step := FillWindow(w, b, srcPos, remaining);
      AppendAssoc(w.file[..Written(w)], b[srcPos..srcPos + step.stored], b[srcPos + step.stored..srcPos + remaining]);
      SliceJoin(b, srcPos, srcPos + step.stored, srcPos + remaining);
      WriteLoop(step.stream, b, srcPos + step.stored, remaining - step.stored)
  }

  /** The bulk-write loop remaps exactly when the bytes do not fit in the live
      window, and then only once. */
  lemma {:induction false} WriteLoopRemaps(w: OutputStream, b: seq<bv8>, srcPos: nat, remaining: nat)
    requires IsOpen(w) && srcPos + remaining <= |b|
    ensures var r := WriteLoop(w, b, srcPos, remaining);
            var free := w.mapped.value.capacity - w.mapped.value.cursor;
            && (remaining <= free ==> r.log == w.log)
            && (free < remaining ==>
                  r.log == w.log + [Released(w.mappingStart, w.mapped.value.capacity),
                                    Mapped(Written(w) + free, Max(remaining - free, w.chunkSize))])
    decreases remaining
  {
    if remaining > 0 {
      var step := FillWindow(w, b, srcPos, remaining);
      WriteLoopRemaps(step.stream, b, srcPos + step.stored, remaining - step.stored);
    }
  }

  /** write(byte[] b, int off, int len): stores all `len` bytes, in order. */
  function WriteBulk(w: OutputStream, b: seq<bv8>, off: nat, len: nat): (r: OutputStream)
    requires IsOpen(w) && off + len <= |b|
    ensures IsOpen(r) && r.chunkSize == w.chunkSize
    ensures Written(r) == Written(w) + len
    ensures r.file[..Written(r)] == w.file[..Written(w)] + b[off..off + len]
    ensures var free := w.mapped.value.capacity - w.mapped.value.cursor;
            && (len <= free ==> r.log == w.log)
            && (free < len ==>
                  r.log == w.log + [Released(w.mappingStart, w.mapped.value.capacity),
                                    Mapped(Written(w) + free, Max(len - free, w.chunkSize))])
  {
    WriteLoopRemaps(w, b, off, len);
    WriteLoop(w, b, off, len)
  }

  /** close(): commit the live window's cursor, release the window, and cut the
      file to exactly the bytes written. */
  function Close(w: OutputStream): (r: OutputStream)
    requires IsOpen(w) && Recorded(w)
    ensures IsClosed(r)
    ensures |r.file| == Written(w) && r.file == w.file[..Written(w)]
    ensures r.log == w.log + [Released(w.mappingStart, w.mapped.value.capacity)]
    ensures Alternating(r.log) && LiveCount(r.log) == 0
  {
    var finalSize := Written(w);
    AlternatingStep(w.log, w.mapped, None);
    assert w.log + ReleaseOf(w.mapped) + MapOf(None) == w.log + [Released(w.mappingStart, w.mapped.value.capacity)];
    LiveCountAlternating(w.log + [Released(w.mappingStart, w.mapped.value.capacity)]);
    var file := if |w.file| > finalSize then w.file[..finalSize] else w.file;
    OutputStream(file, w.chunkSize, finalSize, None, w.log + [Released(w.mappingStart, w.mapped.value.capacity)])
  }

  /** One call a producer makes on the stream. */
  datatype WriteCall = WriteOne(b: int) | WriteFrom(buffer: seq<bv8>, off: nat, len: nat)

  predicate Fits(c: WriteCall) {
    c.WriteFrom? ==> c.off + c.len <= |c.buffer|
  }

  /** The bytes one call hands to the stream. */
  function PayloadOf(c: WriteCall): (p: seq<bv8>)
    requires Fits(c)
  {
    match c
    case WriteOne(b) => [ToByte(b)]
    case WriteFrom(buffer, off, len) => buffer[off..off + len]
  }

  /** The bytes a run of calls hands to the stream, in call order. */
  function Payload(calls: seq<WriteCall>): (p: seq<bv8>)
    requires forall i | 0 <= i < |calls| :: Fits(calls[i])
    decreases |calls|
  {
    if |calls| == 0 then [] else PayloadOf(calls[0]) + Payload(calls[1..])
  }

  /** One call appends exactly its payload to what was written. */
  function ApplyOne(w: OutputStream, c: WriteCall): (r: OutputStream)
    requires IsOpen(w) && Fits(c)
    ensures IsOpen(r) && r.chunkSize == w.chunkSize
    ensures Written(r) == Written(w) + |PayloadOf(c)|
    ensures r.file[..Written(r)] == w.file[..Written(w)] + PayloadOf(c)
  {
    match c
    case WriteOne(b) => WriteByte(w, b)
    case WriteFrom(buffer, off, len) => WriteBulk(w, buffer, off, len)
  }

  /** Applying a run of calls appends exactly their payload to what was written. */
  function Apply(w: OutputStream, calls: seq<WriteCall>): (r: OutputStream)
    requires IsOpen(w) && forall i | 0 <= i < |calls| :: Fits(calls[i])
    ensures IsOpen(r) && r.chunkSize == w.chunkSize
    ensures Written(r) == Written(w) + |Payload(calls)|
    ensures r.file[..Written(r)] == w.file[..Written(w)] + Payload(calls)
    decreases |calls|
  {
    if |calls| == 0 then w
    else
      var w1 := ApplyOne(w, calls[0]);
      var r := Apply(w1, calls[1..]);
      AppendAssoc(w.file[..Written(w)], PayloadOf(calls[0]), Payload(calls[1..]));
      r
  }

  /** Open, make the calls, close: the file holds exactly the payload, whatever
      it held before and whatever the chunk size. */
  function WriteFile(existing: seq<bv8>, chunkSize: int, calls: seq<WriteCall>): (file: seq<bv8>)
    requires forall i | 0 <= i < |calls| :: Fits(calls[i])
    ensures file == Payload(calls)
  {
    var w := Apply(Open(existing, chunkSize), calls);
    ApplyRecorded(Open(existing, chunkSize), calls);
    assert w.file[..0] == [];
    Close(w).file
  }

  // ----- the history invariant holds for every stream a producer can reach -----

  /** Storing bytes into the live window leaves the history invariant alone. */
  lemma SameWindowKeepsRecorded(w: OutputStream, r: OutputStream)
    requires IsOpen(w) && Recorded(w) && IsOpen(r)
    requires r.log == w.log && r.mappingStart == w.mappingStart
    requires r.mapped.value.capacity == w.mapped.value.capacity
    ensures Recorded(r)
  {
  }

  lemma WriteByteRecorded(w: OutputStream, b: int)
    requires IsOpen(w) && Recorded(w)
    ensures Recorded(WriteByte(w, b))
  {
    var w1 := if w.mapped.value.HasRemaining() then w else MapNext(w, 1);
    if !w.mapped.value.HasRemaining() {
      MapNextRecorded(w, 1);
    }
    SameWindowKeepsRecorded(w1, Put(w1, [ToByte(b)]));
  }

  lemma FillWindowRecorded(w: OutputStream, b: seq<bv8>, srcPos: nat, remaining: nat)
    requires IsOpen(w) && Recorded(w) && srcPos + remaining <= |b| && 0 < remaining
    ensures Recorded(FillWindow(w, b, srcPos, remaining).stream)
  {
    var w1 := if w.mapped.value.HasRemaining() then w else MapNext(w, remaining);
    if !w.mapped.value.HasRemaining() {
      MapNextRecorded(w, remaining);
    }
    var n := Min(w1.mapped.value.capacity - w1.mapped.value.cursor, remaining);
    SameWindowKeepsRecorded(w1, Put(w1, b[srcPos..srcPos + n]));
  }

  lemma {:induction false} WriteLoopRecorded(w: OutputStream, b: seq<bv8>, srcPos: nat, remaining: nat)
    requires IsOpen(w) && Recorded(w) && srcPos + remaining <= |b|
    ensures Recorded(WriteLoop(w, b, srcPos, remaining))
    decreases remaining
  {
    if remaining > 0 {
      var step := FillWindow(w, b, srcPos, remaining);
      FillWindowRecorded(w, b, srcPos, remaining);
      WriteLoopRecorded(step.stream, b, srcPos + step.stored, remaining - step.stored);
    }
  }

  lemma {:induction false} ApplyRecorded(w: OutputStream, calls: seq<WriteCall>)
    requires IsOpen(w) && Recorded(w) && forall i | 0 <= i < |calls| :: Fits(calls[i])
    ensures Recorded(Apply(w, calls))
    decreases |calls|
  {
    if |calls| > 0 {
      match calls[0] {
        case WriteOne(b) => WriteByteRecorded(w, b);
        case WriteFrom(buffer, off, len) => WriteLoopRecorded(w, buffer, off, len);
      }
      ApplyRecorded(ApplyOne(w, calls[0]), calls[1..]);
    }
  }

  /** Whatever calls a producer makes, then close: the history alternates map
      and release, never holds two live mappings at once, and ends with none. */
  lemma OneLiveMappingPerWrite(existing: seq<bv8>, chunkSize: int, calls: seq<WriteCall>)
    requires forall i | 0 <= i < |calls| :: Fits(calls[i])
    ensures var w := Apply(Open(existing, chunkSize), calls);
            && Recorded(w)
            && var log := w.log + [Released(w.mappingStart, w.mapped.value.capacity)];
               && Alternating(log) && LiveCount(log) == 0
               && forall k | 0 <= k <= |log| :: 0 <= LiveCount(log[..k]) <= 1
  {
    var w := Apply(Open(existing, chunkSize), calls);
    ApplyRecorded(Open(existing, chunkSize), calls);
    AtMostOneLive(Close(w).log);
  }
}
