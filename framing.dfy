/**
 * The byte stream the camera client writes to its server (CameraFragment.kt,
 * connectToServer and sendFrame): the four ASCII bytes "SEND" once per
 * connection, then one frame per JPEG image, each a 4-byte big-endian
 * length (DataOutputStream.writeInt) followed by the payload.
 */
module Framing {
  import opened Wrappers
  import opened Jvm

  /** A Java int. */
  type Int32 = n: int | -0x8000_0000 <= n < 0x8000_0000

  /** A Java byte array: its size is a non-negative Java int. */
  type JavaBytes = s: seq<byte> | |s| < 0x8000_0000

  /** "SEND".toByteArray(UTF_8). */
  const Handshake: seq<byte> := [0x53, 0x45, 0x4E, 0x44]

  /** DataOutputStream.writeInt: the two's-complement bits of n, high byte first (n >>> 24, n >>> 16, n >>> 8, n, each & 0xFF). */
  function WriteInt(n: Int32): (b: seq<byte>)
    ensures |b| == 4
  {
    var u := n % 0x1_0000_0000;
    var u1 := u / 0x100;
    var u2 := u1 / 0x100;
    [(u2 / 0x100) as byte, (u2 % 0x100) as byte, (u1 % 0x100) as byte, (u % 0x100) as byte]
  }

  /** The unsigned value of four bytes, high byte first. */
  function Unsigned(b: seq<byte>): (u: nat)
    requires |b| == 4
    ensures u < 0x1_0000_0000
  {
    ((b[0] as int * 0x100 + b[1] as int) * 0x100 + b[2] as int) * 0x100 + b[3] as int
  }

  /** DataInputStream.readInt, the server's side of writeInt: four bytes, high byte first, as a signed int. */
  function ReadInt(b: seq<byte>): Int32
    requires |b| == 4
  {
    var u := Unsigned(b);
    if u < 0x8000_0000 then u else u - 0x1_0000_0000
  }

  /** readInt undoes writeInt. */
  lemma ReadWriteInt(n: Int32)
    ensures ReadInt(WriteInt(n)) == n
  {
    var u := n % 0x1_0000_0000;
    var u1 := u / 0x100;
    var u2 := u1 / 0x100;
    var b := WriteInt(n);
    assert b[0] as int == u2 / 0x100 && b[1] as int == u2 % 0x100;
    assert b[2] as int == u1 % 0x100 && b[3] as int == u % 0x100;
    assert Unsigned(b) == u;
  }

  /** writeInt undoes readInt: every four bytes are the encoding of exactly one int. */
  lemma WriteReadInt(b: seq<byte>)
    requires |b| == 4
    ensures WriteInt(ReadInt(b)) == b
  {
    var u := Unsigned(b);
    var u1 := u / 0x100;
    var u2 := u1 / 0x100;
    assert ReadInt(b) % 0x1_0000_0000 == u;
    assert u % 0x100 == b[3] as int && u1 == (b[0] as int * 0x100 + b[1] as int) * 0x100 + b[2] as int;
    assert u1 % 0x100 == b[2] as int && u2 == b[0] as int * 0x100 + b[1] as int;
    assert u2 % 0x100 == b[1] as int && u2 / 0x100 == b[0] as int;
  }

  /** One sendFrame: writeInt(jpeg.size), then the bytes of the JPEG. */
  function Frame(payload: JavaBytes): (b: seq<byte>)
    ensures |b| == 4 + |payload|
  {
    WriteInt(|payload|) + payload
  }

  /** The frames of a sequence of payloads, one after another. */
  function Frames(payloads: seq<JavaBytes>): seq<byte>
  {
    if payloads == [] then [] else Frame(payloads[0]) + Frames(payloads[1..])
  }

  /**
   * The server's reading of a frame sequence: a 4-byte length, that many
   * bytes of payload, repeated until the bytes run out. None when a length
   * is negative or longer than what follows, or fewer than four bytes are
   * left for a length.
   */
  function DecodeFrames(bytes: seq<byte>): Option<seq<JavaBytes>>
    decreases |bytes|
  {
    if bytes == [] then Some([])
    else if |bytes| < 4 then None
    else
      var n := ReadInt(bytes[..4]);
      if n < 0 || |bytes| - 4 < n then None
      else
        match DecodeFrames(bytes[4 + n..])
        case None => None
        case Some(rest) => Some([bytes[4..4 + n]] + rest)
  }

  /** The server's reading of a whole connection: the handshake, then frames. */
  function DecodeStream(bytes: seq<byte>): Option<seq<JavaBytes>>
  {
    if |bytes| < 4 || bytes[..4] != Handshake then None else DecodeFrames(bytes[4..])
  }

  /** Frame(p) = [0, 0, 0, 3, 1, 2, 3] for a three-byte payload. */
  lemma FrameExample()
    ensures Frame([1, 2, 3]) == [0, 0, 0, 3, 1, 2, 3]
  {
    var w := WriteInt(3);
    assert w[0] == 0 && w[1] == 0 && w[2] == 0 && w[3] == 3;
  }

  /** Appending a payload appends its frame. */
  lemma {:induction false} FramesAppend(payloads: seq<JavaBytes>, p: JavaBytes)
    ensures Frames(payloads + [p]) == Frames(payloads) + Frame(p)
  {
    if payloads != [] {
      assert (payloads + [p])[1..] == payloads[1..] + [p];
      FramesAppend(payloads[1..], p);
    }
  }

  /** The server reads back exactly the payloads that were framed. */
  lemma {:induction false} FramesRoundTrip(payloads: seq<JavaBytes>)
    ensures DecodeFrames(Frames(payloads)) == Some(payloads)
  {
    if payloads != [] {
      var p, bytes := payloads[0], Frames(payloads);
      assert bytes[..4] == WriteInt(|p|);
      ReadWriteInt(|p|);
      assert bytes[4..4 + |p|] == p;
      assert bytes[4 + |p|..] == Frames(payloads[1..]);
      FramesRoundTrip(payloads[1..]);
      assert [p] + payloads[1..] == payloads;
    }
  }

  /** A successful decoding of non-empty bytes: the first frame is sound and the rest decodes too. */
  lemma DecodeFramesStep(bytes: seq<byte>)
    requires bytes != [] && DecodeFrames(bytes).Some?
    ensures 4 <= |bytes| && 0 <= ReadInt(bytes[..4]) && 4 + ReadInt(bytes[..4]) <= |bytes|
    ensures DecodeFrames(bytes[4 + ReadInt(bytes[..4])..]).Some?
    ensures DecodeFrames(bytes).value ==
      [bytes[4..4 + ReadInt(bytes[..4])]] + DecodeFrames(bytes[4 + ReadInt(bytes[..4])..]).value
  {
  }

  /** The bytes carrying a frame's length and payload are that payload's frame. */
  lemma FrameOfPrefix(bytes: seq<byte>, n: nat)
    requires 4 + n <= |bytes| && n == ReadInt(bytes[..4])
    ensures Frame(bytes[4..4 + n]) + bytes[4 + n..] == bytes
  {
    WriteReadInt(bytes[..4]);
    assert bytes == bytes[..4] + bytes[4..4 + n] + bytes[4 + n..];
  }

  /** Only the framing of a payload sequence decodes to it: no other bytes read as the same frames. */
  lemma {:induction false} DecodeFramesSound(bytes: seq<byte>, payloads: seq<JavaBytes>)
    requires DecodeFrames(bytes) == Some(payloads)
    ensures Frames(payloads) == bytes
    decreases |bytes|
  {
    if bytes != [] {
      DecodeFramesStep(bytes);
      var n := ReadInt(bytes[..4]);
      var rest := DecodeFrames(bytes[4 + n..]).value;
      DecodeFramesSound(bytes[4 + n..], rest);
      FrameOfPrefix(bytes, n);
      assert payloads[0] == bytes[4..4 + n] && payloads[1..] == rest;
    }
  }

  /** A connection's bytes are read as frames exactly when they are the handshake followed by those frames. */
  lemma StreamRoundTrip(bytes: seq<byte>, payloads: seq<JavaBytes>)
    ensures DecodeStream(bytes) == Some(payloads) <==> bytes == Handshake + Frames(payloads)
  {
    if bytes == Handshake + Frames(payloads) {
      assert bytes[..4] == Handshake && bytes[4..] == Frames(payloads);
      FramesRoundTrip(payloads);
    }
    if DecodeStream(bytes) == Some(payloads) {
      DecodeFramesSound(bytes[4..], payloads);
      assert bytes == bytes[..4] + bytes[4..];
    }
  }

  /** The frames of a non-empty payload sequence, followed by more bytes: the first frame, then the rest. */
  lemma FramesCons(payloads: seq<JavaBytes>, tail: seq<byte>)
    requires payloads != []
    ensures Frames(payloads) + tail == Frame(payloads[0]) + (Frames(payloads[1..]) + tail)
  {
  }

  /** Decoding one frame followed by more bytes yields its payload, then whatever the rest yields. */
  lemma DecodeAfterFrame(p: JavaBytes, tail: seq<byte>)
    ensures DecodeFrames(tail).None? ==> DecodeFrames(Frame(p) + tail).None?
    ensures DecodeFrames(tail).Some? ==> DecodeFrames(Frame(p) + tail) == Some([p] + DecodeFrames(tail).value)
  {
    var bytes := Frame(p) + tail;
    assert bytes[..4] == WriteInt(|p|);
    ReadWriteInt(|p|);
    assert bytes[4..4 + |p|] == p;
    assert bytes[4 + |p|..] == tail;
  }

  /** Bytes that do not decode still do not decode after any well-formed frames. */
  lemma {:induction false} RejectedAfterFrames(payloads: seq<JavaBytes>, tail: seq<byte>)
    requires DecodeFrames(tail).None?
    ensures DecodeFrames(Frames(payloads) + tail).None?
  {
    if payloads == [] {
      assert Frames(payloads) + tail == tail;
    } else {
      RejectedAfterFrames(payloads[1..], tail);
      FramesCons(payloads, tail);
      DecodeAfterFrame(payloads[0], Frames(payloads[1..]) + tail);
    }
  }

  /** One more frame in front of decodable bytes puts its payload in front of their payloads. */
  lemma DecodedAfterFrame(p: JavaBytes, more: seq<byte>, payloads: seq<JavaBytes>, rest: seq<JavaBytes>)
    requires DecodeFrames(more) == Some(payloads + rest)
    ensures DecodeFrames(Frame(p) + more) == Some(([p] + payloads) + rest)
  {
    DecodeAfterFrame(p, more);
    assert [p] + (payloads + rest) == ([p] + payloads) + rest;
  }

  /** Decoding frames followed by decodable bytes yields their payloads, then what those bytes yield. */
  lemma {:induction false} DecodedAfterFrames(payloads: seq<JavaBytes>, tail: seq<byte>, rest: seq<JavaBytes>)
    requires DecodeFrames(tail) == Some(rest)
    ensures DecodeFrames(Frames(payloads) + tail) == Some(payloads + rest)
  {
    if payloads == [] {
      assert Frames(payloads) + tail == tail;
      assert payloads + rest == rest;
    } else {
      DecodedAfterFrames(payloads[1..], tail, rest);
      FramesCons(payloads, tail);
      DecodedAfterFrame(payloads[0], Frames(payloads[1..]) + tail, payloads[1..], rest);
      assert [payloads[0]] + payloads[1..] == payloads;
    }
  }

  /** A frame cut short, as a write failure can leave it, never decodes. */
  lemma PartialFrameRejected(p: JavaBytes, k: nat)
    requires 0 < k < |Frame(p)|
    ensures DecodeFrames(Frame(p)[..k]) == None
  {
    var bytes := Frame(p)[..k];
    if 4 <= k {
      assert bytes[..4] == WriteInt(|p|);
      ReadWriteInt(|p|);
    }
  }

  /** The server rejects a connection whose last frame was cut short, whatever came before it. */
  lemma CutStreamRejected(payloads: seq<JavaBytes>, p: JavaBytes, k: nat)
    requires 0 < k < |Frame(p)|
    ensures DecodeStream(Handshake + Frames(payloads) + Frame(p)[..k]) == None
  {
    var bytes := Handshake + Frames(payloads) + Frame(p)[..k];
    assert bytes[..4] == Handshake;
    assert bytes[4..] == Frames(payloads) + Frame(p)[..k];
    PartialFrameRejected(p, k);
    RejectedAfterFrames(payloads, Frame(p)[..k]);
  }
}
