/**
 The bytes of WebSocket frames (section 5.2 and 5.3 of RFC 6455) as `wsParse` and `wsFrame` of scripts/fleet-drill.ts
 read and write them: which octets hold the opcode, the length and the masking key, and what each bit of a payload is.
 */
module WebSocketBytes {
  import opened Common
  import opened WebSocket

  // ---- bits

  /** Bit b of a number, the lowest being bit 0. */
  ghost function Bit(n: nat, b: nat): nat {
    if b == 0 then n % 2 else Bit(n / 2, b - 1)
  }

  lemma HalfOfParts(q: nat, r: nat)
    requires r < 2
    ensures (2 * q + r) / 2 == q && (2 * q + r) % 2 == r
  {
  }

  lemma {:induction false} XorBits(a: nat, c: nat, bits: nat, b: nat)
    requires b < bits
    ensures Bit(Xor(a, c, bits), b) == 1 <==> Bit(a, b) != Bit(c, b)
  {
    HalfOfParts(Xor(a / 2, c / 2, bits - 1), (a + c) % 2);
    if b > 0 { XorBits(a / 2, c / 2, bits - 1, b - 1); }
  }

  lemma {:induction false} BitIsBinary(n: nat, b: nat)
    ensures Bit(n, b) == 0 || Bit(n, b) == 1
  {
    if b > 0 { BitIsBinary(n / 2, b - 1); }
  }

  /** Numbers below a power of two are determined by their bits. */
  lemma {:induction false} SameBitsSame(m: nat, n: nat, bits: nat)
    requires m < Pow2(bits) && n < Pow2(bits)
    requires forall b :: 0 <= b < bits ==> Bit(m, b) == Bit(n, b)
    ensures m == n
  {
    if bits > 0 {
      forall b | 0 <= b < bits - 1 ensures Bit(m / 2, b) == Bit(n / 2, b) {
        assert Bit(m, b + 1) == Bit(n, b + 1);
      }
      SameBitsSame(m / 2, n / 2, bits - 1);
      assert Bit(m, 0) == Bit(n, 0);
    }
  }

  /** An octet is another with exactly those bits changed that are set in a third. */
  ghost predicate Flipped(octet: byte, from: byte, mask: byte) {
    forall b :: 0 <= b < 8 ==> (Bit(octet, b) != Bit(from, b) <==> Bit(mask, b) == 1)
  }

  lemma FlippedIff(octet: byte, from: byte, mask: byte)
    ensures Flipped(octet, from, mask) <==> octet == XorByte(from, mask)
  {
    var x := XorByte(from, mask);
    forall b | 0 <= b < 8
      ensures (Bit(x, b) == 1 <==> Bit(from, b) != Bit(mask, b))
      ensures Bit(x, b) in {0, 1} && Bit(from, b) in {0, 1} && Bit(mask, b) in {0, 1} && Bit(octet, b) in {0, 1}
    {
      XorBits(from, mask, 8, b);
      BitIsBinary(x, b);
      BitIsBinary(from, b);
      BitIsBinary(mask, b);
      BitIsBinary(octet, b);
    }
    if Flipped(octet, from, mask) {
      EightBits();
      forall b | 0 <= b < 8 ensures Bit(octet, b) == Bit(x, b) {
      }
      SameBitsSame(octet, x, 8);
    }
  }

  /** A payload of masked octets: octet i has exactly the bits changed that are set in octet i mod 4 of the key. */
  ghost predicate Unmasked(payload: seq<byte>, body: seq<byte>, key: seq<byte>) {
    |payload| == |body| && |key| == 4 && forall i :: 0 <= i < |body| ==> Flipped(payload[i], body[i], key[i % 4])
  }

  lemma UnmaskedIff(payload: seq<byte>, body: seq<byte>, key: seq<byte>)
    requires |key| == 4
    ensures Unmasked(payload, body, key) <==> payload == Masked(body, key)
  {
    forall i | 0 <= i < |body| && |payload| == |body|
      ensures Flipped(payload[i], body[i], key[i % 4]) <==> payload[i] == Masked(body, key)[i]
    {
      FlippedIff(payload[i], body[i], key[i % 4]);
    }
  }

  // ---- reading

  /** The number of four octets, the most significant first. */
  ghost function Four(a: int, b: int, c: int, d: int): int {
    0x100_0000 * a + 0x1_0000 * b + 0x100 * c + d
  }

  /** The length the second octet and those behind it say, the most significant octet first. */
  ghost predicate SaysLength(b: seq<byte>, length: nat, at: nat) {
    && |b| >= 2
    && if b[1] % 128 == 126 then |b| >= 4 && at == 4 && length == Four(0, 0, b[2], b[3])
       else if b[1] % 128 == 127 then
         && |b| >= 10 && at == 10
         && length == 0x1_0000_0000 * Four(b[2], b[3], b[4], b[5]) + Four(b[6], b[7], b[8], b[9])
       else at == 2 && length == b[1] % 128
  }

  lemma ReadTwo(bs: seq<byte>)
    requires |bs| == 2
    ensures ReadBigEndian(bs) == Four(0, 0, bs[0], bs[1])
  {
    assert bs[..1][..0] == [];
    assert ReadBigEndian(bs[..1]) == bs[0];
  }

  lemma ReadFour(bs: seq<byte>)
    requires |bs| >= 4
    ensures ReadBigEndian(bs[..4]) == Four(bs[0], bs[1], bs[2], bs[3])
  {
    ReadTwo(bs[..2]);
    assert bs[..4][..3] == bs[..3] && bs[..3][..2] == bs[..2];
  }

  lemma ReadEight(bs: seq<byte>)
    requires |bs| == 8
    ensures ReadBigEndian(bs) == 0x1_0000_0000 * Four(bs[0], bs[1], bs[2], bs[3]) + Four(bs[4], bs[5], bs[6], bs[7])
  {
    ReadFour(bs);
    assert bs[..5][..4] == bs[..4] && bs[..6][..5] == bs[..5] && bs[..7][..6] == bs[..6];
    assert ReadBigEndian(bs[..5]) == 256 * ReadBigEndian(bs[..4]) + bs[4];
    assert ReadBigEndian(bs[..6]) == 256 * ReadBigEndian(bs[..5]) + bs[5];
    assert ReadBigEndian(bs[..7]) == 256 * ReadBigEndian(bs[..6]) + bs[6];
  }

  lemma SaysLengthIff(b: seq<byte>, length: nat, at: nat)
    ensures SaysLength(b, length, at) <==> ParseLength(b) == Some((length, at))
  {
    if |b| >= 4 { ReadTwo(b[2..4]); }
    if |b| >= 10 { ReadEight(b[2..10]); }
  }

  /**
   The frame at the front of the bytes, whose length and where it ends are known: the opcode is the low half of the
   first octet, the top bit of the second says whether a key of four octets comes before the payload and masks it.
   */
  ghost predicate FrameIn(b: seq<byte>, length: nat, at: nat, f: Frame) {
    && |b| >= 2 && f.opcode == b[0] % 16
    && if b[1] >= 128 then
         && |b| >= at + 4 + length && f.size == at + 4 + length
         && Unmasked(f.payload, b[at + 4..at + 4 + length], b[at..at + 4])
       else |b| >= at + length && f.size == at + length && f.payload == b[at..at + length]
  }

  lemma FrameInIff(b: seq<byte>, length: nat, at: nat, f: Frame)
    requires 2 <= at <= |b|
    ensures FrameIn(b, length, at, f) <==> FrameAt(b, length, at) == Some(f)
  {
    if b[1] >= 128 && |b| >= at + 4 + length {
      UnmaskedIff(f.payload, b[at + 4..at + 4 + length], b[at..at + 4]);
    }
  }

  /** A frame is parsed from bytes exactly when they hold all of it, octet for octet and bit for bit. */
  lemma ParsedFromBytes(b: seq<byte>, f: Frame)
    ensures ParseFrame(b) == Some(f) <==> exists length, at :: SaysLength(b, length, at) && FrameIn(b, length, at, f)
  {
    if ParseFrame(b) == Some(f) {
      var (length, at) := ParseLength(b).value;
      SaysLengthIff(b, length, at);
      FrameInIff(b, length, at, f);
    }
    if length, at :| SaysLength(b, length, at) && FrameIn(b, length, at, f) {
      SaysLengthIff(b, length, at);
      FrameInIff(b, length, at, f);
    }
  }

  // ---- writing

  /**
   What the server writes: the final bit and the opcode, no mask, the payload as it is, and the length in the second
   octet if it is below 126, else behind it in two octets, or in eight where two do not suffice.
   */
  lemma WrittenBytes(payload: seq<byte>, opcode: byte)
    requires opcode < 16 && |payload| < 0x1_0000_0000_0000_0000
    ensures var b := WsFrame(payload, opcode);
            && |b| >= 2 && b[0] == 128 + opcode && b[1] < 128
            && b[1] == (if |payload| < 126 then |payload| else if |payload| < 65536 then 126 else 127)
            && exists at: nat :: at <= |b| && SaysLength(b, |payload|, at) && b[at..] == payload
  {
    var b, n := WsFrame(payload, opcode), |payload|;
    if n < 126 {
      assert SaysLength(b, n, 2) && b[2..] == payload;
    } else if n < 65536 {
      assert SaysLength(b, n, 4) && b[4..] == payload;
    } else {
      Powers();
      ReadWritten(n, 8);
      assert b[2..10] == WriteBigEndian(n, 8);
      SaysLengthIff(b, n, 10);
      assert b[10..] == payload;
    }
  }
}
