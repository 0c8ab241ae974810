/** The reading and writing ends of a connection that does not fail in the middle of a value. */
module ByteStreams {
  import opened Bytes

  class ByteSource {
    var input: bytes  // what has not been read yet

    constructor (input: bytes)
      ensures this.input == input
    {
      this.input := input;
    }

    method ReadByte() returns (ok: bool, b: byte)
      modifies this
      ensures ok == (|old(input)| >= 1)
      ensures if ok then b == old(input)[0] && input == old(input)[1..] else input == old(input)
    {
      ok, b := |input| >= 1, 0;
      if ok {
        b, input := input[0], input[1..];
      }
    }

    /** `io.CopyN` into a buffer, which keeps what there was if that is too little. */
    method CopyN(n: nat) returns (ok: bool, s: bytes)
      modifies this
      ensures ok == (|old(input)| >= n)
      ensures if ok then s == old(input)[..n] && input == old(input)[n..] else s == old(input) && input == []
    {
      ok := |input| >= n;
      var k := if ok then n else |input|;
      s, input := input[..k], input[k..];
    }

    /** `io.ReadFull`. */
    method ReadFull(n: nat) returns (ok: bool, s: bytes)
      modifies this
      ensures ok == (|old(input)| >= n)
      ensures ok ==> s == old(input)[..n] && input == old(input)[n..]
    {
      ok, s := |input| >= n, [];
      if ok {
        s, input := input[..n], input[n..];
      } else {
        input := [];
      }
    }
  }

  class ByteSink {
    var output: bytes  // everything written so far

    constructor ()
      ensures output == []
    {
      output := [];
    }

    method WriteByte(b: byte)
      modifies this
      ensures output == old(output) + [b]
    {
      output := output + [b];
    }

    method Write(s: bytes) returns (n: nat)
      modifies this
      ensures output == old(output) + s && n == |s|
    {
      output := output + s;
      n := |s|;
    }
  }
}
