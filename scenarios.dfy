/** Concrete byte streams through the frame detector: the end-to-end example
    of a frame delivered in three chunks, and the streams that show how the
    negative slice index lets a packet shorter than 80 bytes through. */
module Scenarios {
  import opened Wrappers
  import opened TypedArrays
  import opened Telemetry
  import opened Framing

  function Zeros(n: nat): (s: seq<byte>)
    ensures |s| == n && forall i :: 0 <= i < n ==> s[i] == 0
  {
    seq(n, _ => 0 as byte)
  }

  /** 1000 as a little-endian 32-bit word. */
  const Thousand: seq<byte> := [0xE8, 0x03, 0x00, 0x00]

  /** The example payload: globalTime 1000, everything else zero. */
  const ExampleBody: seq<byte> := Thousand + Zeros(60)

  lemma ExampleBodyHasNoEndMarker()
    ensures forall i: nat :: i + 8 <= |ExampleBody| ==> !EndSignatureAt(ExampleBody, i)
  {
    MarkerBytes();
    forall i: nat | i + 8 <= |ExampleBody| ensures !EndSignatureAt(ExampleBody, i) {
      assert ExampleBody[i..i + 8][0] == ExampleBody[i] != 0x95;
    }
  }

  /** The start marker, the payload and the end marker, delivered as three
      separate chunks, give exactly one frame: globalTime 1000, every other
      numeric field 0, every button released. */
  lemma ThreeChunkExample()
    ensures RunChunks(Initial, [Signature, ExampleBody, EndSignature]) ==
      Trace(Initial, [Frame(Defined(1000), Defined(0), Defined(0), Defined(0), Defined(0),
                            Defined(0), Defined(0), Defined(0), Defined(0), Defined(0),
                            Defined(0), Defined(0), Defined(0), Defined(0),
                            [false, false, false, false])])
  {
    var chunks := [Signature, ExampleBody, EndSignature];
    var packet := Signature + ExampleBody + EndSignature;
    assert Flatten(chunks) == packet by {
      assert chunks[..2][..1] == [Signature];
      assert Flatten([Signature]) == Signature;
    }
    ChunkingIrrelevant(Initial, chunks);
    ExampleBodyHasNoEndMarker();
    CompleteFrame(Initial, ExampleBody);
    ExampleFrame(packet);
  }

  lemma ExampleFrame(packet: seq<byte>)
    requires packet == Signature + ExampleBody + EndSignature
    ensures Decode(packet) ==
      Success(Frame(Defined(1000), Defined(0), Defined(0), Defined(0), Defined(0),
                    Defined(0), Defined(0), Defined(0), Defined(0), Defined(0),
                    Defined(0), Defined(0), Defined(0), Defined(0),
                    [false, false, false, false]))
  {
    assert packet[8..12] == Thousand;
    assert forall i :: 12 <= i < 72 ==> packet[i] == ExampleBody[i - 8];
    ThousandThenZeros(packet);
  }

  /** Decoding an 80-byte packet whose payload is 1000 followed by zeros. */
  lemma ThousandThenZeros(packet: seq<byte>)
    requires |packet| == PacketLength && packet[8..12] == Thousand
    requires forall i :: 12 <= i < 72 ==> packet[i] == 0
    ensures Decode(packet) ==
      Success(Frame(Defined(1000), Defined(0), Defined(0), Defined(0), Defined(0),
                    Defined(0), Defined(0), Defined(0), Defined(0), Defined(0),
                    Defined(0), Defined(0), Defined(0), Defined(0),
                    [false, false, false, false]))
  {
    DecodeCompletePacket(packet);
    assert LittleEndian(Thousand) == 1000;
    ZeroWord(packet, 12, 14);
    ZeroWord(packet, 14, 16);
    ZeroWord(packet, 16, 18);
    ZeroWord(packet, 18, 20);
    ZeroWord(packet, 20, 24);
    ZeroWord(packet, 24, 28);
    ZeroWord(packet, 28, 32);
    ZeroWord(packet, 32, 36);
    ZeroWord(packet, 36, 38);
    ZeroWord(packet, 38, 40);
    ZeroWord(packet, 40, 42);
    ZeroWord(packet, 48, 52);
    ZeroWord(packet, 52, 56);
  }

  lemma ZeroWord(packet: seq<byte>, lo: nat, hi: nat)
    requires 12 <= lo <= hi <= 72 <= |packet|
    requires forall i :: 12 <= i < 72 ==> packet[i] == 0
    ensures LittleEndian(packet[lo..hi]) == 0
  {
    LittleEndianOfZeros(packet[lo..hi]);
  }

  /** The two markers back to back, with no payload. The end marker arrives
      while only 16 bytes are held, so the packet cut with the negative start
      index is the whole buffer; its start passes the check, the end marker
      bytes are read as globalTime, count and globalVersion, every later field
      is `undefined`, and a frame is emitted. */
  lemma SignaturePairShortFrame()
    ensures Run(Initial, Signature + EndSignature) ==
      Trace(Initial, [Frame(Defined(0x5045_4295), Defined(0x0A0D), Defined(0x0A1A),
                            Undefined, Undefined, Undefined, Undefined, Undefined, Undefined,
                            Undefined, Undefined, Undefined, Undefined, Undefined,
                            [false, false, false, false])])
  {
    var stream := Signature + [] + EndSignature;
    assert Signature + EndSignature == stream;
    CutsFieldExactly(16);
    EmittedWhole([]);
    FrameShape([]);
    MarkersAsPacket(stream);
  }

  /** A frame whose payload is shorter than 24 bytes, fed from the initial
      state, is emitted when its last byte arrives: fewer than 40 bytes are
      held, so the packet is the whole stream. */
  lemma EmittedWhole(body: seq<byte>)
    requires |body| < 24 && !CutsField(16 + |body|)
    requires forall i: nat :: i + 8 <= |body| ==> !EndSignatureAt(body, i)
    ensures Decode(Signature + body + EndSignature).Success?
    ensures Run(Initial, Signature + body + EndSignature) ==
      Trace(Initial, [Decode(Signature + body + EndSignature).value])
  {
    var stream := Signature + body + EndSignature;
    ShortFrameShape(body);
    EmitsWhole(stream[..|stream| - 1], stream[|stream| - 1]);
  }

  lemma ShortFrameShape(body: seq<byte>)
    requires |body| < 24 && !CutsField(16 + |body|)
    requires forall i: nat :: i + 8 <= |body| ==> !EndSignatureAt(body, i)
    ensures var stream := Signature + body + EndSignature;
      var init, b := stream[..|stream| - 1], stream[|stream| - 1];
      && 15 <= |init| < 39 && !CutsField(|init| + 1) && init + [b] == stream
      && (init + [b])[..8] == Signature && (init + [b])[|init| + 1 - 8..] == EndSignature
      && forall i: nat :: i + 8 <= |init| ==> !EndSignatureAt([] + init, i)
  {
    NoEarlyEndMarker([], body);
    FrameShape(body);
  }

  lemma EmitsWhole(init: seq<byte>, b: byte)
    requires 15 <= |init| < 39 && !CutsField(|init| + 1)
    requires (init + [b])[..8] == Signature && (init + [b])[|init| + 1 - 8..] == EndSignature
    requires forall i: nat :: i + 8 <= |init| ==> !EndSignatureAt([] + init, i)
    ensures Decode(init + [b]).Success?
    ensures Run(Initial, init + [b]) == Trace(Initial, [Decode(init + [b]).value])
  {
    QuietFromEmpty(init);
    FinalStep(init, b);
    ShortFrameStep(init, b);
  }

  /** The byte that completes a short frame emits the whole stream, decoded. */
  lemma ShortFrameStep(init: seq<byte>, b: byte)
    requires 15 <= |init| < 39 && !CutsField(|init| + 1)
    requires (init + [b])[..8] == Signature && (init + [b])[|init| + 1 - 8..] == EndSignature
    ensures Decode(init + [b]).Success?
    ensures Next(State(init, false), b) == Transition(Initial, Some(Decode(init + [b]).value))
  {
    var stream := init + [b];
    assert Last(stream, Capacity) == stream;
    assert Framed(stream) && Packet(stream) == stream by {
      ShortFrameChecks(stream);
    }
    NextEmits(State(init, false), b);
  }

  /** A stream with no end marker anywhere, fed from the initial state, is
      only accumulated. */
  lemma QuietFromEmpty(init: seq<byte>)
    requires |init| <= Capacity
    requires forall i: nat :: i + 8 <= |init| ==> !EndSignatureAt([] + init, i)
    ensures Run(Initial, init) == Trace(State(init, false), [])
  {
    QuietRun([], init);
    assert [] + init == init;
  }

  /** The last byte of a stream that was only accumulated so far. */
  lemma FinalStep(init: seq<byte>, b: byte)
    requires Run(Initial, init) == Trace(State(init, false), [])
    ensures Run(Initial, init + [b]) ==
      Trace(Next(State(init, false), b).state, Emitted(Next(State(init, false), b).frame))
  {
    var stream := init + [b];
    assert stream[..|stream| - 1] == init;
    assert stream[|stream| - 1] == b;
  }

  lemma ShortFrameChecks(stream: seq<byte>)
    requires 16 <= |stream| < 40
    requires stream[..8] == Signature && stream[|stream| - 8..] == EndSignature
    ensures EndCheck(stream) && Packet(stream) == stream && StartCheck(stream)
  {
    EndCheckExact(stream);
    StartCheckExact(stream);
  }

  /** Decoding a 16-byte packet: only the three fields inside bytes 8 to 16
      are defined. */
  lemma MarkersAsPacket(packet: seq<byte>)
    requires |packet| == 16 && packet[|packet| - 8..] == EndSignature
    ensures Decode(packet) ==
      Success(Frame(Defined(0x5045_4295), Defined(0x0A0D), Defined(0x0A1A),
                    Undefined, Undefined, Undefined, Undefined, Undefined, Undefined,
                    Undefined, Undefined, Undefined, Undefined, Undefined,
                    [false, false, false, false]))
  {
    CutsFieldExactly(16);
    DecodedFields(packet);
    DecodedButtons(packet);
    var f := Decode(packet).value;
    var n := Numbers(f);
    assert n[0] == Defined(FieldValue(packet, Layout[0])) == Defined(0x5045_4295) by {
      assert packet[8..12] == EndSignature[..4];
      EndSignatureWords();
    }
    assert n[1] == Defined(FieldValue(packet, Layout[1])) == Defined(0x0A0D) by {
      assert packet[12..14] == EndSignature[4..6];
      EndSignatureWords();
    }
    assert n[2] == Defined(FieldValue(packet, Layout[2])) == Defined(0x0A1A) by {
      assert packet[14..16] == EndSignature[6..8];
      EndSignatureWords();
    }
    assert f.number == n[3] == Undefined && f.version == n[4] == Undefined;
    assert f.time == n[5] == Undefined && f.yaw == n[6] == Undefined;
    assert f.pitch == n[7] == Undefined && f.roll == n[8] == Undefined;
    assert f.xAccel == n[9] == Undefined && f.yAccel == n[10] == Undefined;
    assert f.zAccel == n[11] == Undefined && f.joyX == n[12] == Undefined;
    assert f.joyY == n[13] == Undefined;
  }

  /** A payload byte that splits the `number` field: the 17-byte packet passes
      both marker checks, the `Uint16Array` view over its single remaining
      byte throws, and the detector stops for good, holding the bytes it had. */
  lemma SplitFieldStopsDetector(x: byte, later: seq<byte>)
    ensures Run(Initial, Signature + [x] + EndSignature) ==
      Trace(State(Signature + [x] + EndSignature, true), [])
    ensures Run(Initial, Signature + [x] + EndSignature + later) ==
      Trace(State(Signature + [x] + EndSignature, true), [])
  {
    var stream := Signature + [x] + EndSignature;
    var init, b := stream[..16], stream[16];
    assert stream == init + [b];
    NoEarlyEndMarker([], [x]);
    QuietFromEmpty(init);
    FinalStep(init, b);
    ShortFrameChecks(stream);
    assert Framed(Last(init + [b], Capacity));
    CutsFieldExactly(17);
    NextThrows(State(init, false), b);
    var stopped := State(stream, true);
    RunAppend(Initial, stream, later);
    ErroredIsFinal(stopped, later);
  }

  /** A payload longer than 64 bytes: when the end marker arrives, the last
      80 bytes held start inside the payload, not at the start marker, so the
      whole buffer is dropped and no frame is emitted. With 72 zero bytes
      between the markers, the stream of 88 bytes yields nothing. */
  lemma OverlongFrameDropped(body: seq<byte>)
    requires 72 <= |body| <= 144
    requires forall i: nat :: i + 8 <= |body| ==> !EndSignatureAt(body, i)
    requires body[|body| - 72..|body| - 64] != Signature
    ensures Run(Initial, Signature + body + EndSignature) == Trace(Initial, [])
  {
    var stream := Signature + body + EndSignature;
    NoEarlyEndMarker([], body);
    FrameShape(body);
    OverlongPacketHead(body);
    Resyncs(stream[..|stream| - 1], stream[|stream| - 1]);
  }

  /** The first eight bytes of the last 80 of a frame with a long payload
      lie inside the payload. */
  lemma OverlongPacketHead(body: seq<byte>)
    requires 72 <= |body|
    ensures var stream := Signature + body + EndSignature;
      stream[|stream| - 80..][..8] == body[|body| - 72..|body| - 64]
  {
    var stream := Signature + body + EndSignature;
    assert stream == Signature + (body + EndSignature);
    assert stream[8..] == body + EndSignature;
    assert stream[|stream| - 80..] == (body + EndSignature)[|body| - 72..];
    assert (body + EndSignature)[|body| - 72..][..8] == body[|body| - 72..|body| - 64];
  }

  lemma Resyncs(init: seq<byte>, b: byte)
    requires 79 <= |init| < Capacity
    requires (init + [b])[|init| + 1 - 8..] == EndSignature
    requires (init + [b])[|init| + 1 - 80..][..8] != Signature
    requires forall i: nat :: i + 8 <= |init| ==> !EndSignatureAt([] + init, i)
    ensures Run(Initial, init + [b]) == Trace(Initial, [])
  {
    QuietFromEmpty(init);
    FinalStep(init, b);
    ResyncStep(init, b);
  }

  /** The last byte of a long frame held whole resynchronises. */
  lemma ResyncStep(init: seq<byte>, b: byte)
    requires 79 <= |init| < Capacity
    requires (init + [b])[|init| + 1 - 8..] == EndSignature
    requires (init + [b])[|init| + 1 - 80..][..8] != Signature
    ensures Next(State(init, false), b) == Transition(Initial, None)
  {
    var stream := init + [b];
    assert Last(stream, Capacity) == stream;
    assert Packet(stream) == stream[|stream| - 80..];
    NextResync(State(init, false), b);
  }

  /** The three-chunk example with a 72-byte payload (1000 in its first four
      bytes, zeros after): 88 bytes in all, so the last 80 begin with the
      payload, the start check fails and nothing is emitted. */
  lemma SeventyTwoBytePayloadDropped()
    ensures RunChunks(Initial, [Signature, Thousand + Zeros(68), EndSignature]) == Trace(Initial, [])
  {
    var body := Thousand + Zeros(68);
    var chunks := [Signature, body, EndSignature];
    assert Flatten(chunks) == Signature + body + EndSignature by {
      assert chunks[..2][..1] == [Signature];
      assert Flatten([Signature]) == Signature;
    }
    ChunkingIrrelevant(Initial, chunks);
    MarkerBytes();
    forall i: nat | i + 8 <= |body| ensures !EndSignatureAt(body, i) {
      assert body[i..i + 8][0] == body[i] != 0x95;
    }
    assert body[..8][0] == 0xE8 != Signature[0];
    OverlongFrameDropped(body);
  }

  /** The little-endian value of a string of two or four bytes. */
  lemma LittleEndianWord(s: seq<byte>)
    requires |s| == 2 || |s| == 4
    ensures |s| == 2 ==> LittleEndian(s) == s[0] as int + 0x100 * s[1] as int
    ensures |s| == 4 ==>
      LittleEndian(s) == s[0] as int + 0x100 * s[1] as int + 0x1_0000 * s[2] as int + 0x100_0000 * s[3] as int
  {
    assert s[1..][1..] == s[2..];
    if |s| == 4 {
      assert s[2..][1..] == s[3..];
      assert s[3..][1..] == [];
    } else {
      assert s[2..] == [];
    }
  }

  /** The end marker read as a 32-bit and two 16-bit little-endian words. */
  lemma EndSignatureWords()
    ensures LittleEndian(EndSignature[..4]) == 0x5045_4295
    ensures LittleEndian(EndSignature[4..6]) == 0x0A0D
    ensures LittleEndian(EndSignature[6..8]) == 0x0A1A
  {
    var e := EndSignature;
    assert e[0] as int == 0x95 && e[1] as int == 0x42 && e[2] as int == 0x45 && e[3] as int == 0x50;
    assert e[4] as int == 0x0D && e[5] as int == 0x0A && e[6] as int == 0x1A && e[7] as int == 0x0A;
    LittleEndianWord(e[..4]);
    LittleEndianWord(e[4..6]);
    LittleEndianWord(e[6..8]);
  }
}
