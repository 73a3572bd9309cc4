/**
 WebSocket frames (scripts/fleet-drill.ts; sections 5.2 and 5.3 of RFC 6455). `Wire` is a frame as the protocol
 writes it, `Print` its bytes; `ParseFrame` reads a frame from the front of a buffer, or finds it incomplete.
 */
module WebSocket {
  import opened Common

  /** The three ways a payload length is written. */
  datatype Form = Short | Medium | Long

  /** A frame on the wire: its first byte, its length form, its masking key if masked, and its payload unmasked. */
  datatype Wire = Wire(first: byte, form: Form, mask: Option<seq<byte>>, payload: seq<byte>)

  datatype Frame = Frame(opcode: byte, payload: seq<byte>, size: nat)

  const OCTET_BITS: nat := 8
  const OPCODE_CLOSE: byte := 8

  // ---- numbers

  function ReadBigEndian(bs: seq<byte>): nat {
    if bs == [] then 0 else 256 * ReadBigEndian(bs[..|bs| - 1]) + bs[|bs| - 1]
  }

  function WriteBigEndian(n: nat, count: nat): (bs: seq<byte>)
    ensures |bs| == count
  {
    if count == 0 then [] else WriteBigEndian(n / 256, count - 1) + [n % 256]
  }

  ghost function Pow256(k: nat): nat {
    if k == 0 then 1 else 256 * Pow256(k - 1)
  }

  lemma {:induction false} ReadWritten(n: nat, count: nat)
    requires n < Pow256(count)
    ensures ReadBigEndian(WriteBigEndian(n, count)) == n
  {
    if count > 0 {
      ReadWritten(n / 256, count - 1);
      var bs := WriteBigEndian(n, count);
      assert bs[..count - 1] == WriteBigEndian(n / 256, count - 1);
    }
  }

  lemma Quotient256(q: nat, r: nat)
    requires r < 256
    ensures (256 * q + r) / 256 == q && (256 * q + r) % 256 == r
  {
  }

  lemma {:induction false} ReadBounded(bs: seq<byte>)
    ensures ReadBigEndian(bs) < Pow256(|bs|)
  {
    if bs != [] { ReadBounded(bs[..|bs| - 1]); }
  }

  lemma {:induction false} WriteRead(bs: seq<byte>)
    ensures WriteBigEndian(ReadBigEndian(bs), |bs|) == bs
  {
    if bs != [] {
      var n := |bs| - 1;
      WriteRead(bs[..n]);
      Quotient256(ReadBigEndian(bs[..n]), bs[n]);
      assert bs == bs[..n] + [bs[n]];
    }
  }

  lemma Powers()
    ensures Pow256(2) == 65536 && Pow256(8) == 0x1_0000_0000_0000_0000
  {
    assert Pow256(4) == 0x1_0000_0000;
    assert Pow256(6) == 0x1_0000_0000_0000;
  }

  // ---- masking

  /** Exclusive or of the low bits of two numbers. */
  function Xor(a: nat, b: nat, bits: nat): nat {
    if bits == 0 then 0 else 2 * Xor(a / 2, b / 2, bits - 1) + (a + b) % 2
  }

  ghost function Pow2(k: nat): nat {
    if k == 0 then 1 else 2 * Pow2(k - 1)
  }

  lemma {:induction false} XorBounded(a: nat, b: nat, bits: nat)
    ensures Xor(a, b, bits) < Pow2(bits)
  {
    if bits > 0 { XorBounded(a / 2, b / 2, bits - 1); }
  }

  lemma HalfAndBit(q: nat, r: nat, b: nat, a: nat)
    requires r == (a + b) % 2
    ensures (2 * q + r) / 2 == q && (2 * q + r + b) % 2 == a % 2
  {
  }

  lemma {:induction false} XorTwice(a: nat, b: nat, bits: nat)
    requires a < Pow2(bits)
    ensures Xor(Xor(a, b, bits), b, bits) == a
  {
    if bits > 0 {
      var q := Xor(a / 2, b / 2, bits - 1);
      XorTwice(a / 2, b / 2, bits - 1);
      HalfAndBit(q, (a + b) % 2, b, a);
      XorOfParts(q, (a + b) % 2, b, bits);
    }
  }

  lemma XorOfParts(q: nat, r: nat, b: nat, bits: nat)
    requires bits > 0 && (2 * q + r) / 2 == q
    ensures Xor(2 * q + r, b, bits) == 2 * Xor(q, b / 2, bits - 1) + (2 * q + r + b) % 2
  {
  }

  lemma EightBits()
    ensures Pow2(OCTET_BITS) == 256
  {
    assert Pow2(4) == 16;
  }

  function XorByte(a: byte, b: byte): byte {
    XorBounded(a, b, OCTET_BITS);
    EightBits();
    Xor(a, b, OCTET_BITS)
  }

  lemma XorByteTwice(a: byte, b: byte)
    ensures XorByte(XorByte(a, b), b) == a
  {
    EightBits();
    XorTwice(a, b, OCTET_BITS);
  }

  /** The payload with every byte exchanged by the key: masking and unmasking are one operation. */
  function Masked(payload: seq<byte>, key: seq<byte>): (r: seq<byte>)
    requires |key| == 4
    ensures |r| == |payload|
  {
    seq(|payload|, i requires 0 <= i < |payload| => XorByte(payload[i], key[i % 4]))
  }

  lemma MaskedTwice(payload: seq<byte>, key: seq<byte>)
    requires |key| == 4
    ensures Masked(Masked(payload, key), key) == payload
  {
    forall i | 0 <= i < |payload| ensures Masked(Masked(payload, key), key)[i] == payload[i] {
      XorByteTwice(payload[i], key[i % 4]);
    }
  }

  // ---- printing

  predicate ValidWire(w: Wire) {
    && (w.mask.Some? ==> |w.mask.value| == 4)
    && match w.form
       case Short => |w.payload| < 126
       case Medium => |w.payload| < 65536
       case Long => |w.payload| < 0x1_0000_0000_0000_0000
  }

  function LengthCode(w: Wire): (code: byte)
    requires ValidWire(w)
    ensures code < 128
  {
    match w.form
    case Short => |w.payload|
    case Medium => 126
    case Long => 127
  }

  function Extended(w: Wire): seq<byte> {
    match w.form
    case Short => []
    case Medium => WriteBigEndian(|w.payload|, 2)
    case Long => WriteBigEndian(|w.payload|, 8)
  }

  function Head(w: Wire): (bs: seq<byte>)
    requires ValidWire(w)
    ensures |bs| == 2 + match w.form { case Short => 0 case Medium => 2 case Long => 8 }
  {
    [w.first, (if w.mask.Some? then 128 else 0) + LengthCode(w)] + Extended(w)
  }

  /** The frame's bytes: first byte, mask bit and length, extended length, masking key, payload. */
  function Print(w: Wire): seq<byte>
    requires ValidWire(w)
  {
    match w.mask
    case None => Head(w) + w.payload
    case Some(key) => Head(w) + (key + Masked(w.payload, key))
  }

  // ---- parsing

  /** The length and where it ends, when the buffer holds the whole length. */
  function ParseLength(b: seq<byte>): (r: Option<(nat, nat)>)
    ensures r.Some? ==> 2 <= r.value.1 <= |b|
  {
    if |b| < 2 then None
    else
      var short := b[1] % 128;
      if short == 126 then if |b| < 4 then None else Some((ReadBigEndian(b[2..4]), 4))
      else if short == 127 then if |b| < 10 then None else Some((ReadBigEndian(b[2..10]), 10))
      else Some((short, 2))
  }

  /** The frame whose length is known and ends at `at`, when the buffer holds all of it. */
  function FrameAt(b: seq<byte>, length: nat, at: nat): (r: Option<Frame>)
    requires 2 <= at <= |b|
    ensures r.Some? ==> 2 <= r.value.size <= |b|
  {
    if b[1] >= 128 then
      if |b| < at + 4 + length then None
      else Some(Frame(b[0] % 16, Masked(b[at + 4..at + 4 + length], b[at..at + 4]), at + 4 + length))
    else if |b| < at + length then None
    else Some(Frame(b[0] % 16, b[at..at + length], at + length))
  }

  /** `wsParse`: the frame at the front of the buffer, or nothing while it is incomplete. */
  function ParseFrame(b: seq<byte>): (r: Option<Frame>)
    ensures r.Some? ==> 2 <= r.value.size <= |b|
  {
    match ParseLength(b)
    case None => None
    case Some(p) => FrameAt(b, p.0, p.1)
  }

  function FrameOf(w: Wire): Frame
    requires ValidWire(w)
  {
    Frame(w.first % 16, w.payload, |Print(w)|)
  }

  /** A printed length is read back, whatever follows. */
  lemma ParseLengthOfHead(w: Wire, rest: seq<byte>)
    requires ValidWire(w)
    ensures ParseLength(Head(w) + rest) == Some((|w.payload|, |Head(w)|))
    ensures (Head(w) + rest)[1] >= 128 <==> w.mask.Some?
    ensures (Head(w) + rest)[0] == w.first
  {
    var b := Head(w) + rest;
    Powers();
    match w.form
    case Short =>
    case Medium =>
      assert b[2..4] == Extended(w);
      ReadWritten(|w.payload|, 2);
    case Long =>
      assert b[2..10] == Extended(w);
      ReadWritten(|w.payload|, 8);
  }

  lemma MiddleSlices<T>(h: seq<T>, k: seq<T>, b: seq<T>, rest: seq<T>)
    ensures (h + (k + (b + rest)))[|h|..|h| + |k|] == k
    ensures (h + (k + (b + rest)))[|h| + |k|..|h| + |k| + |b|] == b
  {
  }

  lemma ParseUnmasked(w: Wire, rest: seq<byte>)
    requires ValidWire(w) && w.mask.None?
    ensures ParseFrame(Head(w) + (w.payload + rest)) == Some(FrameOf(w))
  {
    var at := |Head(w)|;
    var b := Head(w) + (w.payload + rest);
    ParseLengthOfHead(w, w.payload + rest);
    MiddleSlices(Head(w), [], w.payload, rest);
    assert [] + (w.payload + rest) == w.payload + rest;
  }

  lemma ParseMasked(w: Wire, rest: seq<byte>)
    requires ValidWire(w) && w.mask.Some?
    ensures ParseFrame(Head(w) + (w.mask.value + (Masked(w.payload, w.mask.value) + rest))) == Some(FrameOf(w))
  {
    var at := |Head(w)|;
    var key := w.mask.value;
    var body := Masked(w.payload, key);
    var b := Head(w) + (key + (body + rest));
    ParseLengthOfHead(w, key + (body + rest));
    MiddleSlices(Head(w), key, body, rest);
    MaskedTwice(w.payload, key);
  }

  /** Parsing inverts printing, in every length form, masked or not, and whatever bytes follow. */
  lemma ParseOfPrint(w: Wire, rest: seq<byte>)
    requires ValidWire(w)
    ensures ParseFrame(Print(w) + rest) == Some(FrameOf(w))
  {
    if w.mask.None? {
      ParseUnmasked(w, rest);
      Regroup(Head(w), w.payload, [], rest);
    } else {
      ParseMasked(w, rest);
      Regroup(Head(w), w.mask.value, Masked(w.payload, w.mask.value), rest);
    }
  }

  /** No proper prefix of a frame parses. */
  lemma ParseOfPrefix(w: Wire, n: nat)
    requires ValidWire(w) && n < |Print(w)|
    ensures ParseFrame(Print(w)[..n]).None?
  {
    var b := Print(w)[..n];
    if n >= |Head(w)| {
      assert b == Head(w) + b[|Head(w)|..];
      ParseLengthOfHead(w, b[|Head(w)|..]);
    } else {
      ShortHead(w, b);
    }
  }

  lemma ShortHead(w: Wire, b: seq<byte>)
    requires ValidWire(w) && |b| < |Head(w)| <= |Print(w)| && b == Print(w)[..|b|]
    ensures ParseLength(b).None?
  {
    if |b| >= 2 {
      assert b[1] == Head(w)[1];
    }
  }

  /** What parses is a printed frame: the parser accepts nothing the protocol does not write. */
  lemma PrintOfParse(b: seq<byte>) returns (w: Wire)
    requires ParseFrame(b).Some?
    ensures ValidWire(w) && ParseFrame(b) == Some(FrameOf(w)) && b[..ParseFrame(b).value.size] == Print(w)
  {
    var f := ParseFrame(b).value;
    var (length, at) := ParseLength(b).value;
    var masked := b[1] >= 128;
    var short := b[1] % 128;
    var form := if short == 126 then Medium else if short == 127 then Long else Short;
    var key := if masked then Some(b[at..at + 4]) else None;
    w := Wire(b[0], form, key, f.payload);
    LengthFits(b);
    HeadIsFront(b, w);
    var offset := if masked then at + 4 else at;
    var body := b[offset..offset + length];
    if masked {
      MaskedTwice(body, key.value);
      Slices(b, at, offset, f.size);
    } else {
      Slices(b, at, at, f.size);
    }
  }

  lemma Slices<T>(b: seq<T>, at: nat, m: nat, n: nat)
    requires at <= m <= n <= |b|
    ensures b[..n] == b[..at] + (b[at..m] + b[m..n]) && b[..n] == b[..at] + b[at..n]
  {
  }

  lemma LengthFits(b: seq<byte>)
    requires ParseLength(b).Some?
    ensures var (length, at) := ParseLength(b).value;
            var short := b[1] % 128;
            && (short == 126 ==> at == 4 && length < 65536 && WriteBigEndian(length, 2) == b[2..4])
            && (short == 127 ==> at == 10 && length < 0x1_0000_0000_0000_0000 && WriteBigEndian(length, 8) == b[2..10])
            && (short < 126 ==> at == 2 && length < 126 && length == short)
            && short <= 127
  {
    Powers();
    var short := b[1] % 128;
    if short == 126 { ReadBounded(b[2..4]); WriteRead(b[2..4]); }
    else if short == 127 { ReadBounded(b[2..10]); WriteRead(b[2..10]); }
  }

  /** The header a parsed frame is printed with is the buffer's. */
  lemma HeadIsFront(b: seq<byte>, w: Wire)
    requires ValidWire(w) && ParseLength(b).Some? && |w.payload| == ParseLength(b).value.0 && w.first == b[0]
    requires w.mask.Some? <==> b[1] >= 128
    requires w.form == (var short := b[1] % 128; if short == 126 then Medium else if short == 127 then Long else Short)
    ensures Head(w) == b[..ParseLength(b).value.1]
  {
    LengthFits(b);
    var at := ParseLength(b).value.1;
    assert b[..at] == [b[0], b[1]] + b[2..at];
  }

  lemma FrontAndRest<T>(b: seq<T>, n: nat, rest: seq<T>)
    requires n <= |b|
    ensures b + rest == b[..n] + (b[n..] + rest)
  {
  }

  /** A parsed frame stays what it is whatever arrives behind it. */
  lemma ParseStable(b: seq<byte>, rest: seq<byte>)
    requires ParseFrame(b).Some?
    ensures ParseFrame(b + rest) == ParseFrame(b)
  {
    var w := PrintOfParse(b);
    var n := ParseFrame(b).value.size;
    FrontAndRest(b, n, rest);
    ParseOfPrint(w, b[n..] + rest);
  }

  // ---- wsFrame

  /** `wsFrame`: an unmasked final frame with the shortest length form. */
  function WsFrame(payload: seq<byte>, opcode: byte): seq<byte>
    requires opcode < 16
  {
    var length := |payload|;
    var first := 128 + opcode;
    var head := if length < 126 then [first, length]
                else if length < 65536 then [first, 126, length / 256, length % 256]
                else [first, 127] + WriteBigEndian(length, 8);
    head + payload
  }

  lemma TwoBytes(n: nat)
    requires n < 65536
    ensures WriteBigEndian(n, 2) == [n / 256, n % 256]
  {
    assert WriteBigEndian(n / 256, 1) == WriteBigEndian(n / 256 / 256, 0) + [n / 256 % 256];
  }

  /** What the server sends parses back to its opcode and payload, with the frame's own length as its size. */
  lemma WsFrameParses(payload: seq<byte>, opcode: byte, rest: seq<byte>)
    requires opcode < 16 && |payload| < 0x1_0000_0000_0000_0000
    ensures ParseFrame(WsFrame(payload, opcode) + rest)
         == Some(Frame(opcode, payload, |WsFrame(payload, opcode)|))
  {
    var form := if |payload| < 126 then Short else if |payload| < 65536 then Medium else Long;
    var w := Wire(128 + opcode, form, None, payload);
    if form.Medium? { TwoBytes(|payload|); }
    assert Print(w) == WsFrame(payload, opcode);
    ParseOfPrint(w, rest);
  }

  // ---- the code

  /** The loop that unmasks a payload in place. */
  method UnmaskInPlace(payload: array<byte>, key: seq<byte>)
    requires |key| == 4
    modifies payload
    ensures payload[..] == Masked(old(payload[..]), key)
  {
    ghost var body := payload[..];
    for i := 0 to payload.Length
      invariant forall k :: 0 <= k < i ==> payload[k] == XorByte(body[k], key[k % 4])
      invariant forall k :: i <= k < payload.Length ==> payload[k] == body[k]
    {
      payload[i] := XorByte(payload[i], key[i % 4]);
    }
  }

  method Unmask(body: seq<byte>, key: seq<byte>) returns (payload: seq<byte>)
    requires |key| == 4
    ensures payload == Masked(body, key)
  {
    var copy := new byte[|body|](i requires 0 <= i < |body| => body[i]);
    assert copy[..] == body;
    UnmaskInPlace(copy, key);
    payload := copy[..];
  }

  /** The length of the frame at the front of the buffer and the offset where it ends. */
  method ReadLength(buffer: seq<byte>) returns (r: Option<(nat, nat)>)
    ensures r == ParseLength(buffer)
  {
    if |buffer| < 2 { return None; }
    var short := buffer[1] % 128;
    var length: nat, offset: nat := short, 2;
    if short == 126 {
      if |buffer| < 4 { return None; }
      length, offset := ReadBigEndian(buffer[2..4]), 4;
    } else if short == 127 {
      if |buffer| < 10 { return None; }
      length, offset := ReadBigEndian(buffer[2..10]), 10;
    }
    return Some((length, offset));
  }

  /** The rest of the frame: the offset moves past the masking key, and a masked payload is unmasked in a copy. */
  method ReadFrame(buffer: seq<byte>, length: nat, maskAt: nat) returns (frame: Option<Frame>)
    requires 2 <= maskAt <= |buffer|
    ensures frame == FrameAt(buffer, length, maskAt)
  {
    var opcode, masked := buffer[0] % 16, buffer[1] >= 128;
    var offset := if masked then maskAt + 4 else maskAt;
    if |buffer| < offset + length { return None; }
    var body := buffer[offset..offset + length];
    if !masked { return Some(Frame(opcode, body, offset + length)); }
    var payload := Unmask(body, buffer[maskAt..maskAt + 4]);
    frame := Some(Frame(opcode, payload, offset + length));
  }

  /** `wsParse`. */
  method WsParse(buffer: seq<byte>) returns (frame: Option<Frame>)
    ensures frame == ParseFrame(buffer)
  {
    var header := ReadLength(buffer);
    if header.None? { return None; }
    frame := ReadFrame(buffer, header.value.0, header.value.1);
  }
}
