/** Machine integers, byte strings, and the encodings of package `encoding/binary` that RTMP uses. */
module Bytes {

  type byte = x: int | 0 <= x < 0x100
  type uint32 = x: int | 0 <= x < 0x1_0000_0000
  type bytes = seq<byte>

  datatype Option<+T> = None | Some(value: T)

  function OptionSeq<T>(o: Option<T>): seq<T> {
    if o.Some? then [o.value] else []
  }

  /** The result of `uint32` arithmetic, which wraps around. */
  function Wrap32(x: int): uint32 {
    x % 0x1_0000_0000
  }

  lemma WrapAdd(x: int, y: int)
    ensures Wrap32(Wrap32(x) + y) == Wrap32(x + y)
  {
  }

  lemma SmallWrap(x: uint32)
    ensures Wrap32(x) == x
  {
  }

  function Min(a: nat, b: nat): nat {
    if a <= b then a else b
  }

  /** `binary.BigEndian.PutUint32`. */
  function PutBE32(v: uint32): (s: bytes)
    ensures |s| == 4 && BE32(s) == v
  {
    var (high, low) := (v / 0x1_0000, v % 0x1_0000);
    [high / 0x100, high % 0x100, low / 0x100, low % 0x100]
  }

  /** `binary.BigEndian.Uint32`, which panics on fewer than four bytes. */
  function BE32(s: bytes): uint32
    requires |s| >= 4
  {
    s[0] as int * 0x100_0000 + s[1] as int * 0x1_0000 + s[2] as int * 0x100 + s[3]
  }

  /** The last three bytes of `binary.BigEndian.PutUint32`: the top byte is dropped. */
  function PutBE24(v: uint32): (s: bytes)
    ensures |s| == 3 && BE24(s) == v % 0x100_0000
  {
    var (high, low) := (v / 0x1_0000, v % 0x1_0000);
    [high % 0x100, low / 0x100, low % 0x100]
  }

  function BE24(s: bytes): (v: uint32)
    requires |s| >= 3
    ensures v < 0x100_0000
  {
    s[0] as int * 0x1_0000 + s[1] as int * 0x100 + s[2]
  }

  /** `binary.LittleEndian`, used only for the message stream id. */
  function PutLE32(v: uint32): (s: bytes)
    ensures |s| == 4 && LE32(s) == v
  {
    var (high, low) := (v / 0x1_0000, v % 0x1_0000);
    [low % 0x100, low / 0x100, high % 0x100, high / 0x100]
  }

  function LE32(s: bytes): uint32
    requires |s| >= 4
  {
    s[0] + s[1] as int * 0x100 + s[2] as int * 0x1_0000 + s[3] as int * 0x100_0000
  }

  // Each decoder looks at its own bytes only.

  lemma BE24Append(v: uint32, rest: bytes)
    requires v < 0x100_0000
    ensures BE24(PutBE24(v) + rest) == v
  {
    var s := PutBE24(v) + rest;
    assert s[..3] == PutBE24(v);
  }

  lemma BE32Append(v: uint32, rest: bytes)
    ensures BE32(PutBE32(v) + rest) == v
  {
    var s := PutBE32(v) + rest;
    assert s[..4] == PutBE32(v);
  }

  lemma LE32Append(v: uint32, rest: bytes)
    ensures LE32(PutLE32(v) + rest) == v
  {
    var s := PutLE32(v) + rest;
    assert s[..4] == PutLE32(v);
  }
}
