/** Both objects together: what a writer object sends, a reader object at the other end delivers. */
module Exchange {
  import W = WriterSpec
  import R = ReaderSpec
  import opened RoundTrip
  import opened ByteStreams
  import opened ChunkWriter
  import opened ChunkReader

  /** End to end for the objects, in any state in which they are in lockstep. */
  method SendAndReceive(writer: ChunkStreamWriter, reader: ChunkStreamReader, ms: seq<W.Message>)
    returns (err: ReadError, ghost delivered: seq<R.InMessage>)
    requires writer.Valid() && reader.Valid() && writer.chunkStreams.Values + {writer} !! reader.Repr
    requires Lockstep(writer.Value(), reader.Value()) && AllSendable(writer.Value(), ms)
    requires forall m <- ms :: m.csid in writer.chunkStreams
    modifies writer`chunkSize, writer.chunkStreams.Values, reader, reader.Repr, reader.handler
    ensures err == ErrEof
    ensures reader.handler.messages == old(reader.handler.messages) + delivered
    ensures AllDelivered(NonEmpty(ms), delivered)
  {
    hide R.ReadAll, W.WriteAll, W.WriteMessage, AllSendable, AllDelivered, StreamLockstep, NonEmpty;
    hide ChunkStreamReader.Value;
    ghost var (w0, r0) := (writer.Value(), reader.Value());
    EndToEnd(w0, r0, ms);
    SizesInRange(w0, ms);
    ghost var sent := W.WriteAll(w0, ms);
    delivered := R.ReadAll(r0, sent.out).out;
    var sink := new ByteSink();
    assert writer.Value() == w0;
    var _ := writer.WriteTo(sink, ms);
    assert sink.output == [] + sent.out;
    assert [] + sent.out == sent.out;
    var source := new ByteSource(sink.output);
    assert reader.Valid() && reader.Value() == r0;
    var _, e := reader.ReadFrom(source);
    err := e;
  }

  lemma {:induction false} SizesInRange(w: W.Writer, ms: seq<W.Message>)
    requires w.chunkSize > 0 && AllSendable(w, ms)
    ensures forall m <- ms :: |m.payload| < 0x100_0000
    decreases |ms|
  {
    hide W.WriteMessage;
    if ms != [] {
      SizesInRange(W.WriteMessage(w, ms[0]).writer, ms[1..]);
      forall m | m in ms
        ensures |m.payload| < 0x100_0000
      {
        assert m == ms[0] || m in ms[1..];
      }
    }
  }
}
