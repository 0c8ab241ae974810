/** The message object of message.go, whose buffer is filled by a reader and drained by a writer. */
module MessageObject {
  import opened Bytes
  import W = WriterSpec
  import R = ReaderSpec

  class Message {
    const chunkStreamID: uint32
    const timestamp: uint32
    const size: uint32
    const typ: byte
    const streamID: uint32
    const absoluteTimestamp: uint32
    var buf: bytes

    /** `NewMessage`: an outgoing message, complete from the start. */
    constructor (csi: uint32, t: byte, sid: uint32, ts: uint32, data: bytes)
      ensures buf == data && size == Wrap32(|data|)
      ensures Outgoing() == W.Message(csi, t, sid, ts, data) && absoluteTimestamp == ts
    {
      chunkStreamID, typ, streamID, timestamp, absoluteTimestamp := csi, t, sid, ts, ts;
      buf := data;
      size := Wrap32(|data|);
    }

    /** An incoming message of which nothing has arrived yet. */
    constructor Inbound(csi: uint32, t: byte, sid: uint32, ts: uint32, absolute: uint32, length: uint32)
      ensures Incoming() == R.InMessage(csi, t, sid, ts, absolute, length, [])
    {
      chunkStreamID, typ, streamID, timestamp, absoluteTimestamp := csi, t, sid, ts, absolute;
      buf := [];
      size := length;
    }

    /** The message with what is in the buffer as its payload. */
    function Outgoing(): W.Message
      reads this
    {
      W.Message(chunkStreamID, typ, streamID, timestamp, buf)
    }

    function Incoming(): R.InMessage
      reads this
    {
      R.InMessage(chunkStreamID, typ, streamID, timestamp, absoluteTimestamp, size, buf)
    }

    function Remain(): uint32
      reads this
    {
      Wrap32(size - |buf|)
    }
  }
}
