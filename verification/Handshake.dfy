/** The digests of the RTMP handshake: where they are, how the server signs, and what then validates. */
module HandshakeSpec {
  import opened Bytes

  const HANDSHAKE_SIZE := 1536
  const DIGEST_LENGTH := 32

  type Digest = s: bytes | |s| == DIGEST_LENGTH witness seq(DIGEST_LENGTH, _ => 0)

  /** HMAC-SHA256 of a message under a key. */
  type Hmac = (bytes, bytes) -> Digest

  /** The start of the Flash Media Server key. */
  const GENUINE_FMS: bytes := [
    0x47, 0x65, 0x6e, 0x75, 0x69, 0x6e, 0x65, 0x20,
    0x41, 0x64, 0x6f, 0x62, 0x65, 0x20, 0x46, 0x6c,
    0x61, 0x73, 0x68, 0x20, 0x4d, 0x65, 0x64, 0x69,
    0x61, 0x20, 0x53, 0x65, 0x72, 0x76, 0x65, 0x72,
    0x20, 0x30, 0x30, 0x31]

  const GENUINE_FMS_KEY: bytes := GENUINE_FMS + [
    0xf0, 0xee, 0xc2, 0x4a, 0x80, 0x68, 0xbe, 0xe8,
    0x2e, 0x00, 0xd0, 0xd1, 0x02, 0x9e, 0x7e, 0x57,
    0x6e, 0xec, 0x5d, 0x2d, 0x29, 0x80, 0x6f, 0xab,
    0x93, 0xb8, 0xe6, 0x36, 0xcf, 0xeb, 0x31, 0xae]

  /** The part of the Flash Player key that clients sign with. */
  const FP_CLIENT_KEY: bytes := [
    0x47, 0x65, 0x6E, 0x75, 0x69, 0x6E, 0x65, 0x20,
    0x41, 0x64, 0x6F, 0x62, 0x65, 0x20, 0x46, 0x6C,
    0x61, 0x73, 0x68, 0x20, 0x50, 0x6C, 0x61, 0x79,
    0x65, 0x72, 0x20, 0x30, 0x30, 0x31]

  function Sum(s: bytes): nat {
    if s == [] then 0 else Sum(s[..|s| - 1]) + s[|s| - 1]
  }

  /** The digest's offset in a handshake block; an unknown scheme counts as 0. */
  function Offset(block: bytes, scheme: int): (off: nat)
    requires |block| == HANDSHAKE_SIZE
    ensures if scheme == 1 then 776 <= off < 776 + 728 else 12 <= off < 12 + 728
  {
    if scheme == 1 then Sum(block[772..776]) % 728 + 776 else Sum(block[8..12]) % 728 + 12
  }

  /** Four bytes of the block give the offset. */
  lemma OffsetByBytes(b: bytes)
    requires |b| == HANDSHAKE_SIZE
    ensures Offset(b, 0) == (b[8] + b[9] as int + b[10] as int + b[11] as int) % 728 + 12
    ensures Offset(b, 1) == (b[772] + b[773] as int + b[774] as int + b[775] as int) % 728 + 776
  {
    SumBytes4(b[8..12]);
    SumBytes4(b[772..776]);
  }

  lemma SumBytes4(s: bytes)
    requires |s| == 4
    ensures Sum(s) == s[0] + s[1] as int + s[2] as int + s[3] as int
  {
    assert s[..3][..2] == s[..2] && s[..2][..1] == s[..1] && s[..1][..0] == [];
    assert Sum(s[..3]) == Sum(s[..2]) + s[2] && Sum(s[..2]) == Sum(s[..1]) + s[1] && Sum(s[..1]) == Sum([]) + s[0];
  }

  /** The block without the digest: what is signed. */
  function Unsigned(block: bytes, scheme: int): bytes
    requires |block| == HANDSHAKE_SIZE
  {
    var off := Offset(block, scheme);
    block[..off] + block[off + DIGEST_LENGTH..]
  }

  function DigestOf(block: bytes, scheme: int): Digest
    requires |block| == HANDSHAKE_SIZE
  {
    var off := Offset(block, scheme);
    block[off..off + DIGEST_LENGTH]
  }

  /** `validateScheme`, which knows the schemes 0 and 1 only. */
  predicate Validates(hmac: Hmac, key: bytes, block: bytes, scheme: int)
    requires |block| == HANDSHAKE_SIZE
  {
    (scheme == 0 || scheme == 1) && DigestOf(block, scheme) == hmac(Unsigned(block, scheme), key)
  }

  /** The block with the digest written over its window. */
  function Sign(hmac: Hmac, key: bytes, block: bytes, scheme: int): (signed: bytes)
    requires |block| == HANDSHAKE_SIZE
    ensures |signed| == HANDSHAKE_SIZE
  {
    var off := Offset(block, scheme);
    block[..off] + hmac(Unsigned(block, scheme), key) + block[off + DIGEST_LENGTH..]
  }

  /** Two blocks that differ within the digest window of the first at most. */
  predicate AgreeOutside(a: bytes, b: bytes, scheme: int)
    requires |a| == |b| == HANDSHAKE_SIZE
  {
    var off := Offset(a, scheme);
    forall i | 0 <= i < HANDSHAKE_SIZE && !(off <= i < off + DIGEST_LENGTH) :: a[i] == b[i]
  }

  /** The bytes that give the offset lie outside every digest window of their scheme. */
  lemma WindowMovesNothing(a: bytes, b: bytes, scheme: int)
    requires |a| == |b| == HANDSHAKE_SIZE && AgreeOutside(a, b, scheme)
    ensures Offset(b, scheme) == Offset(a, scheme) && Unsigned(b, scheme) == Unsigned(a, scheme)
  {
    hide Sum;
    var off := Offset(a, scheme);
    if scheme == 1 {
      assert a[772..776] == b[772..776];
    } else {
      assert a[8..12] == b[8..12];
    }
    assert a[..off] == b[..off];
    assert a[off + DIGEST_LENGTH..] == b[off + DIGEST_LENGTH..];
  }

  /**
   * Signing does not disturb validation: it moves neither the window nor the message signed, it
   * touches no byte outside the window, and of all blocks that agree with the original outside the
   * window exactly the signed one validates with the same key.
   */
  lemma SigningValidates(hmac: Hmac, key: bytes, block: bytes, scheme: int, other: bytes)
    requires |block| == |other| == HANDSHAKE_SIZE && (scheme == 0 || scheme == 1)
    ensures var signed := Sign(hmac, key, block, scheme);
            && AgreeOutside(block, signed, scheme)
            && Offset(signed, scheme) == Offset(block, scheme) && Unsigned(signed, scheme) == Unsigned(block, scheme)
            && Validates(hmac, key, signed, scheme)
            && (AgreeOutside(block, other, scheme) ==> (Validates(hmac, key, other, scheme) <==> other == signed))
  {
    hide Sum;
    var signed := Sign(hmac, key, block, scheme);
    var off := Offset(block, scheme);
    WindowMovesNothing(block, signed, scheme);
    assert DigestOf(signed, scheme) == hmac(Unsigned(block, scheme), key);
    if AgreeOutside(block, other, scheme) {
      WindowMovesNothing(block, other, scheme);
      assert other == block[..off] + other[off..off + DIGEST_LENGTH] + block[off + DIGEST_LENGTH..];
    }
  }

  /** The parts of a block: what comes before the digest and what comes after it are signed, in this order. */
  lemma ValidMeans(hmac: Hmac, key: bytes, a: bytes, digest: Digest, b: bytes, scheme: int)
    requires |a| + |b| == HANDSHAKE_SIZE - DIGEST_LENGTH && (scheme == 0 || scheme == 1)
    requires Offset(a + digest + b, scheme) == |a|
    ensures Validates(hmac, key, a + digest + b, scheme) <==> digest == hmac(a + b, key)
    ensures Sign(hmac, key, a + digest + b, scheme) == a + hmac(a + b, key) + b
    ensures DigestOf(a + digest + b, scheme) == digest
  {
    hide Offset;
    var block := a + digest + b;
    assert block[..|a|] == a && block[|a|..|a| + DIGEST_LENGTH] == digest && block[|a| + DIGEST_LENGTH..] == b;
  }

  /** `validate`: the first scheme that fits, or 0 together with an error. */
  function Detect(hmac: Hmac, block: bytes): (int, bool)
    requires |block| == HANDSHAKE_SIZE
  {
    if Validates(hmac, FP_CLIENT_KEY, block, 0) then (0, true)
    else if Validates(hmac, FP_CLIENT_KEY, block, 1) then (1, true)
    else (0, false)
  }

  /** A client block signed by either scheme is recognized, as that scheme unless scheme 0 fits as well. */
  lemma ClientIsRecognized(hmac: Hmac, block: bytes, scheme: int)
    requires |block| == HANDSHAKE_SIZE && (scheme == 0 || scheme == 1)
    ensures var c1 := Sign(hmac, FP_CLIENT_KEY, block, scheme);
            && Detect(hmac, c1).1
            && (Detect(hmac, c1).0 == scheme <==> scheme == 0 || !Validates(hmac, FP_CLIENT_KEY, c1, 0))
  {
    SigningValidates(hmac, FP_CLIENT_KEY, block, scheme, block);
  }

  // ----- The server's answer -----

  /** S1 before it is signed: a time of 0, a version, and random bytes. */
  function UnsignedS1(random: bytes): (s1: bytes)
    requires |random| == HANDSHAKE_SIZE - 8
    ensures |s1| == HANDSHAKE_SIZE
  {
    [0, 0, 0, 0] + PutBE32(0x01020304) + random
  }

  function Response(hmac: Hmac, c1: bytes, random1: bytes, random2: bytes): (r: bytes)
    requires |c1| == HANDSHAKE_SIZE && |random1| == HANDSHAKE_SIZE - 8
    requires |random2| == HANDSHAKE_SIZE - DIGEST_LENGTH
    ensures |r| == 2 * HANDSHAKE_SIZE + 1
  {
    var scheme := Detect(hmac, c1).0;
    var s2key := hmac(DigestOf(c1, scheme), GENUINE_FMS_KEY[..68]);
    [3] + Sign(hmac, GENUINE_FMS_KEY[..36], UnsignedS1(random1), scheme) + (random2 + hmac(random2, s2key))
  }

  lemma ResponseParts(hmac: Hmac, c1: bytes, random1: bytes, random2: bytes)
    requires |c1| == HANDSHAKE_SIZE && |random1| == HANDSHAKE_SIZE - 8
    requires |random2| == HANDSHAKE_SIZE - DIGEST_LENGTH
    ensures var (r, scheme) := (Response(hmac, c1, random1, random2), Detect(hmac, c1).0);
            && r[0] == 3
            && r[1..1 + HANDSHAKE_SIZE] == Sign(hmac, GENUINE_FMS_KEY[..36], UnsignedS1(random1), scheme)
            && r[1 + HANDSHAKE_SIZE..] == random2 + hmac(random2, hmac(DigestOf(c1, scheme), GENUINE_FMS_KEY[..68]))
  {
    hide Detect, Sign, Offset, UnsignedS1, DigestOf;
  }

  lemma SignKeepsStart(hmac: Hmac, key: bytes, block: bytes, scheme: int)
    requires |block| == HANDSHAKE_SIZE
    ensures Sign(hmac, key, block, scheme)[..8] == block[..8]
  {
  }

  /** The scheme the server answers in: 1 if C1 validates in that and not in 0, and else 0, unsigned blocks included. */
  function AnswerScheme(hmac: Hmac, c1: bytes): int
    requires |c1| == HANDSHAKE_SIZE
  {
    if !Validates(hmac, FP_CLIENT_KEY, c1, 0) && Validates(hmac, FP_CLIENT_KEY, c1, 1) then 1 else 0
  }

  /**
   * What the answer to any C1 is: S1 differs from the random block at most in its digest window, and
   * carries the server's digest there; S2 is random bytes and their digest keyed by that of C1.
   */
  lemma ResponseToAny(hmac: Hmac, c1: bytes, random1: bytes, random2: bytes)
    requires |c1| == HANDSHAKE_SIZE && |random1| == HANDSHAKE_SIZE - 8
    requires |random2| == HANDSHAKE_SIZE - DIGEST_LENGTH
    ensures var (r, scheme) := (Response(hmac, c1, random1, random2), AnswerScheme(hmac, c1));
            var (s1, s2) := (r[1..1 + HANDSHAKE_SIZE], r[1 + HANDSHAKE_SIZE..]);
            && r[0] == 3 && s1[..8] == [0, 0, 0, 0, 1, 2, 3, 4]
            && AgreeOutside([0, 0, 0, 0, 1, 2, 3, 4] + random1, s1, scheme)
            && Validates(hmac, GENUINE_FMS_KEY[..36], s1, scheme)
            && s2[..1504] == random2
            && s2[1504..] == hmac(random2, hmac(DigestOf(c1, scheme), GENUINE_FMS_KEY[..68]))
  {
    hide Sum, Sign, Offset, Response, DigestOf, Validates;
    var scheme := Detect(hmac, c1).0;
    var key := GENUINE_FMS_KEY[..36];
    var s1 := UnsignedS1(random1);
    SigningValidates(hmac, key, s1, scheme, s1);
    ResponseParts(hmac, c1, random1, random2);
    SignKeepsStart(hmac, key, s1, scheme);
    assert s1[..8] == [0, 0, 0, 0] + PutBE32(0x01020304) == [0, 0, 0, 0, 1, 2, 3, 4];
    assert s1 == [0, 0, 0, 0, 1, 2, 3, 4] + random1;
    var s2key := hmac(DigestOf(c1, scheme), GENUINE_FMS_KEY[..68]);
    assert (random2 + hmac(random2, s2key))[..|random2|] == random2;
    assert (random2 + hmac(random2, s2key))[|random2|..] == hmac(random2, s2key);
  }

  /**
   * What a client can check in the answer: S1 carries the server's digest in the scheme of C1, and
   * S2 the digest keyed by that of C1, which is the client's own if C1 was signed.
   */
  lemma ResponseAnswersClient(hmac: Hmac, block: bytes, scheme: int, random1: bytes, random2: bytes)
    requires |block| == HANDSHAKE_SIZE && (scheme == 0 || scheme == 1)
    requires |random1| == HANDSHAKE_SIZE - 8 && |random2| == HANDSHAKE_SIZE - DIGEST_LENGTH
    requires scheme == 1 ==> !Validates(hmac, FP_CLIENT_KEY, Sign(hmac, FP_CLIENT_KEY, block, 1), 0)
    ensures var r := Response(hmac, Sign(hmac, FP_CLIENT_KEY, block, scheme), random1, random2);
            var (s1, s2) := (r[1..1 + HANDSHAKE_SIZE], r[1 + HANDSHAKE_SIZE..]);
            && r[0] == 3 && s1[..8] == [0, 0, 0, 0, 1, 2, 3, 4]
            && Validates(hmac, GENUINE_FMS_KEY[..36], s1, scheme)
            && s2[HANDSHAKE_SIZE - DIGEST_LENGTH..]
               == hmac(s2[..HANDSHAKE_SIZE - DIGEST_LENGTH],
                       hmac(hmac(Unsigned(block, scheme), FP_CLIENT_KEY), GENUINE_FMS_KEY[..68]))
  {
    hide Sum, Sign, Offset, Response, DigestOf;
    var c1 := Sign(hmac, FP_CLIENT_KEY, block, scheme);
    SigningValidates(hmac, FP_CLIENT_KEY, block, scheme, block);
    ResponseToAny(hmac, c1, random1, random2);
  }

  predicate Spells(key: bytes, text: string) {
    |key| == |text| && forall i | 0 <= i < |key| :: key[i] == text[i] as int
  }

  /** What the key the server signs with says. */
  lemma ServerKeySpells()
    ensures Spells(GENUINE_FMS_KEY[..36], "Genuine Adobe Flash Media Server 001")
  {
    assert GENUINE_FMS_KEY[..36] == GENUINE_FMS;
  }

  /** What the key clients sign with says. */
  lemma ClientKeySpells()
    ensures Spells(FP_CLIENT_KEY, "Genuine Adobe Flash Player 001")
  {
  }
}

/** The handshake on byte buffers. */
module Handshakes {
  import opened Bytes
  import opened ByteStreams
  import opened HandshakeSpec

  /** `copy(buf[at:], s)`. */
  method Copy(buf: array<byte>, at: nat, s: bytes)
    requires at + |s| <= buf.Length
    modifies buf
    ensures buf[..] == old(buf[..at]) + s + old(buf[at + |s|..])
  {
    for i := 0 to |s|
      invariant forall j | 0 <= j < i :: buf[at + j] == s[j]
      invariant forall j | 0 <= j < buf.Length && !(at <= j < at + i) :: buf[j] == old(buf[j])
    {
      buf[at + i] := s[i];
    }
  }

  /** `sumBytes(buf[from:to])`, in `uint32` arithmetic. */
  method SumBytes(buf: array<byte>, from: nat, to: nat) returns (sum: uint32)
    requires from <= to <= buf.Length
    ensures sum == Wrap32(Sum(buf[from..to]))
  {
    sum := 0;
    for i := from to to
      invariant sum == Wrap32(Sum(buf[from..i]))
    {
      assert buf[from..i + 1] == buf[from..i] + [buf[i]];
      WrapAdd(Sum(buf[from..i]), buf[i]);
      sum := Wrap32(sum + buf[i]);
    }
  }

  lemma InBlock(buf: bytes, base: nat, from: nat, to: nat)
    requires from <= to <= HANDSHAKE_SIZE && base + HANDSHAKE_SIZE <= |buf|
    ensures buf[base + from..base + to] == buf[base..base + HANDSHAKE_SIZE][from..to]
  {
    var (block, part) := (buf[base..base + HANDSHAKE_SIZE], buf[base + from..base + to]);
    forall i | 0 <= i < to - from
      ensures part[i] == block[from..to][i]
    {
      assert block[from + i] == buf[base + from + i];
    }
  }

  /** `getDigestOffset` of the block that starts at `base`. */
  method GetDigestOffset(buf: array<byte>, base: nat, scheme: int) returns (off: uint32)
    requires base + HANDSHAKE_SIZE <= buf.Length
    ensures off == Offset(buf[base..base + HANDSHAKE_SIZE], scheme)
  {
    hide Sum, Wrap32;
    if scheme == 1 {
      var sum := SumBytes(buf, base + 772, base + 776);
      InBlock(buf[..], base, 772, 776);
      SmallSum(buf[base + 772..base + 776]);
      off := sum % 728 + 776;
    } else {
      var sum := SumBytes(buf, base + 8, base + 12);
      InBlock(buf[..], base, 8, 12);
      SmallSum(buf[base + 8..base + 12]);
      off := sum % 728 + 12;
    }
  }

  /** Four bytes do not overflow. */
  lemma SmallSum(s: bytes)
    requires |s| == 4
    ensures Wrap32(Sum(s)) == Sum(s)
  {
    SumBytes4(s);
  }

  /** The copy of a block without its digest. */
  method WithoutDigest(buf: array<byte>, base: nat, off: uint32) returns (message: array<byte>)
    requires base + HANDSHAKE_SIZE <= buf.Length && off + DIGEST_LENGTH <= HANDSHAKE_SIZE
    ensures fresh(message)
    ensures var block := buf[base..base + HANDSHAKE_SIZE];
            message[..] == block[..off] + block[off + DIGEST_LENGTH..]
  {
    message := new byte[HANDSHAKE_SIZE - DIGEST_LENGTH];
    Copy(message, 0, buf[base..base + off]);
    Copy(message, off, buf[base + off + DIGEST_LENGTH..base + HANDSHAKE_SIZE]);
  }

  method ValidateScheme(hmac: Hmac, buf: array<byte>, scheme: int) returns (ok: bool)
    requires buf.Length == HANDSHAKE_SIZE
    ensures ok <==> Validates(hmac, FP_CLIENT_KEY, buf[..], scheme)
  {
    if scheme != 0 && scheme != 1 {
      return false;
    }
    assert buf[0..HANDSHAKE_SIZE] == buf[..];
    var off := GetDigestOffset(buf, 0, scheme);
    var message := WithoutDigest(buf, 0, off);
    var hash := hmac(message[..], FP_CLIENT_KEY);
    ok := buf[off..off + DIGEST_LENGTH] == hash;
  }

  method Validate(hmac: Hmac, buf: array<byte>) returns (scheme: int, ok: bool)
    requires buf.Length == HANDSHAKE_SIZE
    ensures (scheme, ok) == Detect(hmac, buf[..])
  {
    for i := 0 to 2
      invariant i > 0 ==> !Validates(hmac, FP_CLIENT_KEY, buf[..], 0)
      invariant i > 1 ==> !Validates(hmac, FP_CLIENT_KEY, buf[..], 1)
    {
      var valid := ValidateScheme(hmac, buf, i);
      if valid {
        return i, true;
      }
    }
    return 0, false;
  }

  /** Overwriting a window of a block overwrites that window of the buffer. */
  lemma WindowInBuffer(buf: bytes, base: nat, off: nat, digest: Digest)
    requires base + HANDSHAKE_SIZE <= |buf| && off + DIGEST_LENGTH <= HANDSHAKE_SIZE
    ensures var block := buf[base..base + HANDSHAKE_SIZE];
            buf[..base + off] + digest + buf[base + off + DIGEST_LENGTH..]
            == buf[..base] + (block[..off] + digest + block[off + DIGEST_LENGTH..]) + buf[base + HANDSHAKE_SIZE..]
  {
    var block := buf[base..base + HANDSHAKE_SIZE];
    assert buf[..base + off] == buf[..base] + block[..off];
    assert buf[base + off + DIGEST_LENGTH..] == block[off + DIGEST_LENGTH..] + buf[base + HANDSHAKE_SIZE..];
  }

  lemma SignParts(hmac: Hmac, key: bytes, block: bytes, scheme: int)
    requires |block| == HANDSHAKE_SIZE
    ensures var off := Offset(block, scheme);
            && off + DIGEST_LENGTH <= HANDSHAKE_SIZE
            && Sign(hmac, key, block, scheme)
               == block[..off] + hmac(block[..off] + block[off + DIGEST_LENGTH..], key) + block[off + DIGEST_LENGTH..]
  {
  }

  /** Writes the server's digest into the block that starts at `base`. */
  method SignBlock(hmac: Hmac, key: bytes, buf: array<byte>, base: nat, scheme: int)
    requires base + HANDSHAKE_SIZE <= buf.Length
    modifies buf
    ensures buf[..] == old(buf[..base]) + Sign(hmac, key, old(buf[base..base + HANDSHAKE_SIZE]), scheme)
                       + old(buf[base + HANDSHAKE_SIZE..])
  {
    hide Sign, Offset;
    SignParts(hmac, key, buf[base..base + HANDSHAKE_SIZE], scheme);
    var off := GetDigestOffset(buf, base, scheme);
    var message := WithoutDigest(buf, base, off);
    var hash := hmac(message[..], key);
    WindowInBuffer(buf[..], base, off, hash);
    Copy(buf, base + off, hash);
  }

  /** S1 before it is signed, in its place in a zeroed answer. */
  method FillS1(response: array<byte>, random1: bytes)
    requires response.Length == 2 * HANDSHAKE_SIZE + 1 && |random1| == HANDSHAKE_SIZE - 8
    requires response[1..5] == [0, 0, 0, 0]
    modifies response
    ensures response[..] == old(response[..1]) + UnsignedS1(random1) + old(response[1 + HANDSHAKE_SIZE..])
  {
    hide PutBE32;
    ghost var (before, version, end) := (response[..], PutBE32(0x01020304), 1 + HANDSHAKE_SIZE);
    Copy(response, 5, PutBE32(0x01020304));
    ghost var middle := response[..];
    assert middle[..9] == before[..5] + version && middle[end..] == before[end..];
    Copy(response, 9, random1);
    assert before[..5] == before[..1] + [0, 0, 0, 0];
    assert response[..] == before[..1] + ([0, 0, 0, 0] + version + random1) + before[end..];
  }

  /** S2: random bytes, and their digest keyed by that of C1. */
  method FillS2(hmac: Hmac, c1: array<byte>, scheme: int, response: array<byte>, random2: bytes)
    requires response.Length == 2 * HANDSHAKE_SIZE + 1 && c1.Length == HANDSHAKE_SIZE && c1 != response
    requires |random2| == HANDSHAKE_SIZE - DIGEST_LENGTH
    modifies response
    ensures var s2key := hmac(DigestOf(c1[..], scheme), GENUINE_FMS_KEY[..68]);
            response[..] == old(response[..1 + HANDSHAKE_SIZE]) + (random2 + hmac(random2, s2key))
  {
    hide Offset;
    var s2 := 1 + HANDSHAKE_SIZE;
    assert c1[0..HANDSHAKE_SIZE] == c1[..];
    var c1off := GetDigestOffset(c1, 0, scheme);
    var s2key := hmac(c1[c1off..c1off + DIGEST_LENGTH], GENUINE_FMS_KEY[..68]);
    var s2hash := hmac(random2, s2key);
    Copy(response, s2, random2);
    Copy(response, s2 + |random2|, s2hash);
    assert response[..] == old(response[..s2]) + (random2 + s2hash);
  }

  /** The answer to C1, given the random bytes drawn. */
  method Answer(hmac: Hmac, c1: array<byte>, random1: bytes, random2: bytes) returns (response: array<byte>)
    requires c1.Length == HANDSHAKE_SIZE && |random1| == HANDSHAKE_SIZE - 8
    requires |random2| == HANDSHAKE_SIZE - DIGEST_LENGTH
    ensures fresh(response) && response[..] == Response(hmac, c1[..], random1, random2)
  {
    hide Sign, Offset, Detect, UnsignedS1, DigestOf;
    response := new byte[2 * HANDSHAKE_SIZE + 1](_ => 0);
    response[0] := 3;
    var scheme, _ := Validate(hmac, c1);
    FillS1(response, random1);
    assert response[..1] == [3] && response[1..1 + HANDSHAKE_SIZE] == UnsignedS1(random1);
    SignBlock(hmac, GENUINE_FMS_KEY[..36], response, 1, scheme);
    ghost var s1 := Sign(hmac, GENUINE_FMS_KEY[..36], UnsignedS1(random1), scheme);
    assert response[..1 + HANDSHAKE_SIZE] == [3] + s1;
    FillS2(hmac, c1, scheme, response, random2);
  }

  /**
   * The server's side of the handshake: C0 and C1 come in, S0 to S2 go out, and C2 is skipped.
   * C0 only leads to warnings.
   */
  method SHandshake(hmac: Hmac, conn: ByteSource, w: ByteSink, random1: bytes, random2: bytes) returns (ok: bool)
    requires |random1| == HANDSHAKE_SIZE - 8 && |random2| == HANDSHAKE_SIZE - DIGEST_LENGTH
    modifies conn, w
    ensures var input := old(conn.input);
            && (if |input| > HANDSHAKE_SIZE
                then w.output == old(w.output) + Response(hmac, input[1..1 + HANDSHAKE_SIZE], random1, random2)
                else w.output == old(w.output))
            && ok == (|input| >= 2 * HANDSHAKE_SIZE + 1)
            && (ok ==> conn.input == input[2 * HANDSHAKE_SIZE + 1..])
  {
    hide Response;
    var c0, s;
    ok, c0 := conn.ReadByte();
    if !ok {
      return;
    }
    ok, s := conn.ReadFull(HANDSHAKE_SIZE);
    if !ok {
      return;
    }
    var c1 := new byte[HANDSHAKE_SIZE](i requires 0 <= i < HANDSHAKE_SIZE => s[i]);
    assert c1[..] == s == old(conn.input)[1..1 + HANDSHAKE_SIZE];
    var response := Answer(hmac, c1, random1, random2);
    var _ := w.Write(response[..]);
    ok, s := conn.CopyN(HANDSHAKE_SIZE);
  }
}
