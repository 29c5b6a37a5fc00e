/**
  The two streams together: bytes written through the output stream and read
  back through the input stream come back unchanged, whatever the chunk sizes
  on either side, plus a worked example.
 */
module StreamRoundTrip {
  import ChunkedInput
  import ChunkedOutput

  /** Writing a run of calls, closing, and reading the file back to the end
      yields exactly the bytes handed to the writer. */
  lemma WriteThenRead(existing: seq<bv8>, writeChunk: int, readChunk: int, calls: seq<ChunkedOutput.WriteCall>)
    requires forall i | 0 <= i < |calls| :: ChunkedOutput.Fits(calls[i])
    requires ChunkedInput.ChunkFits(readChunk, |ChunkedOutput.Payload(calls)|)
    ensures var file := ChunkedOutput.WriteFile(existing, writeChunk, calls);
            && |file| == |ChunkedOutput.Payload(calls)|
            && ChunkedInput.ReadToEnd(ChunkedInput.Open(file, readChunk)) == ChunkedOutput.Payload(calls)
  {
    ChunkedInput.ReadWholeFile(ChunkedOutput.WriteFile(existing, writeChunk, calls), readChunk);
  }

  /** "hello" written with a chunk size of 2 leaves a five-byte file holding
      exactly "hello": no padding from the last two-byte window survives. */
  lemma HelloInWindowsOfTwo(existing: seq<bv8>)
    ensures var hello: seq<bv8> := [0x68, 0x65, 0x6c, 0x6c, 0x6f];
            var file := ChunkedOutput.WriteFile(existing, 2, [ChunkedOutput.WriteFrom(hello, 0, 5)]);
            |file| == 5 && file == hello
  {
    var hello: seq<bv8> := [0x68, 0x65, 0x6c, 0x6c, 0x6f];
    var calls := [ChunkedOutput.WriteFrom(hello, 0, 5)];
    assert ChunkedOutput.Payload(calls) == hello[0..5] + ChunkedOutput.Payload([]);
  }
}
