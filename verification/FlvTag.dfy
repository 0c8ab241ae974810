/** FLV tags and the media headers at the start of their bodies. */
module Flv {
  import opened Bytes
  import opened Defines

  datatype FlvTag = FlvTag(typ: byte, timestamp: uint32, size: uint32, bytes: bytes)

  datatype AudioHeader = AudioHeader(
    soundFormat: byte, soundRate: byte, soundSize: byte, soundType: byte, aacPacketType: byte)

  datatype VideoHeader = VideoHeader(frameType: byte, codecId: byte, avcPacketType: byte)

  /** A failed read leaves the zero its target holds. */
  function ByteAt(s: bytes, i: nat): byte {
    if i < |s| then s[i] else 0
  }

  lemma BitFields(bits: byte)
    ensures bits / 4 == bits / 16 * 4 + bits / 4 % 4
    ensures bits / 2 == bits / 4 * 2 + bits / 2 % 2
    ensures bits == bits / 2 * 2 + bits % 2
  {
  }

  /** `GetAudioHeader`: the bit fields, from which the first byte can be put together again. */
  function GetAudioHeader(tag: FlvTag): (h: Option<AudioHeader>)
    ensures h.Some? <==> tag.typ == AUDIO_TYPE
    ensures h.Some? ==>
      var AudioHeader(format, rate, size, typ, packet) := h.value;
      && format < 16 && rate < 4 && size < 2 && typ < 2
      && format * 16 + rate * 4 + size * 2 + typ == ByteAt(tag.bytes, 0)
      && packet == if 0xA0 <= ByteAt(tag.bytes, 0) <= 0xAF then ByteAt(tag.bytes, 1) else 0
  {
    if tag.typ != AUDIO_TYPE then None else
    var bits := ByteAt(tag.bytes, 0);
    var format: byte := bits / 16;
    BitFields(bits);
    Some(AudioHeader(format, bits / 4 % 4, bits / 2 % 2, bits % 2, if format == 10 then ByteAt(tag.bytes, 1) else 0))
  }

  /** `GetVideoHeader`, likewise. */
  function GetVideoHeader(tag: FlvTag): (h: Option<VideoHeader>)
    ensures h.Some? <==> tag.typ == VIDEO_TYPE
    ensures h.Some? ==>
      var VideoHeader(frame, codec, packet) := h.value;
      && frame < 16 && codec < 16 && frame * 16 + codec == ByteAt(tag.bytes, 0)
      && packet == if ByteAt(tag.bytes, 0) % 16 == 7 then ByteAt(tag.bytes, 1) else 0
  {
    if tag.typ != VIDEO_TYPE then None else
    var bits := ByteAt(tag.bytes, 0);
    var codec: byte := bits % 16;
    Some(VideoHeader(bits / 16, codec, if codec == 7 then ByteAt(tag.bytes, 1) else 0))
  }

  // ----- What mediaStream asks of a tag -----

  predicate IsData(tag: FlvTag) {
    tag.typ == DATA_AMF0
  }

  predicate IsAacSequence(tag: FlvTag) {
    var h := GetAudioHeader(tag);
    h.Some? && h.value.soundFormat == 10 && h.value.aacPacketType == 0
  }

  predicate IsKeyframe(tag: FlvTag) {
    var h := GetVideoHeader(tag);
    h.Some? && h.value.frameType == 1
  }

  predicate IsAvcSequence(tag: FlvTag) {
    IsKeyframe(tag) && var h := GetVideoHeader(tag).value; h.codecId == 7 && h.avcPacketType == 0
  }

  // ----- The same, by the tag's type and its leading bytes -----

  predicate Metadata(tag: FlvTag) {
    tag.typ == 18
  }

  predicate AacHeader(tag: FlvTag) {
    tag.typ == 8 && 0xA0 <= ByteAt(tag.bytes, 0) <= 0xAF && ByteAt(tag.bytes, 1) == 0
  }

  predicate Keyframe(tag: FlvTag) {
    tag.typ == 9 && 0x10 <= ByteAt(tag.bytes, 0) <= 0x1F
  }

  predicate AvcHeader(tag: FlvTag) {
    tag.typ == 9 && ByteAt(tag.bytes, 0) == 0x17 && ByteAt(tag.bytes, 1) == 0
  }

  lemma TagsOnTheWire(tag: FlvTag)
    ensures IsData(tag) <==> Metadata(tag)
    ensures IsAacSequence(tag) <==> AacHeader(tag)
    ensures IsKeyframe(tag) <==> Keyframe(tag)
    ensures IsAvcSequence(tag) <==> AvcHeader(tag)
  {
    var first := ByteAt(tag.bytes, 0);
    assert first / 16 * 16 + first % 16 == first;
  }
}
