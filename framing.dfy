/** The frame detector of the serial port provider: every byte of every
    received chunk goes through one step that appends it to a bounded buffer,
    looks for the end marker at the tail, checks the start marker at the head
    of the candidate packet and decodes it. */
module Framing {
  import opened Wrappers
  import opened TypedArrays
  import opened Telemetry

  /** The buffer keeps at most this many of the latest bytes. */
  const Capacity: nat := 160

  /** What the detector carries from one byte to the next: the buffer, and
      whether a decode threw, which ends the subscription that feeds it. */
  datatype State = State(buffer: seq<byte>, errored: bool)

  /** The detector as it is created: empty buffer, subscription live. */
  const Initial: State := State([], false)

  /** What one byte does: the state after it and the frame it emits, if any. */
  datatype Transition = Transition(state: State, frame: Option<Frame>)

  /** What a stream of bytes does: the state after it and the frames it emits. */
  datatype Trace = Trace(state: State, frames: seq<Frame>)

  /** The last min(n, |s|) elements of s. */
  function Last(s: seq<byte>, n: nat): (r: seq<byte>)
    ensures |r| == (if |s| < n then |s| else n)
    ensures r == s[|s| - |r|..]
  {
    if |s| < n then s else s[|s| - n..]
  }

  /** The buffer after the byte is appended and the oldest bytes beyond the
      capacity are dropped: `slice(Math.max(0, length - 160), length)`. */
  function Held(buffer: seq<byte>, b: byte): (held: seq<byte>)
    ensures held == Last(buffer + [b], Capacity)
  {
    var appended := buffer + [b];
    JsSlice(appended, if |appended| > Capacity then |appended| - Capacity else 0, |appended|)
  }

  /** The candidate packet `held.slice(held.length - 80, held.length)`. While
      fewer than 80 bytes are held the start index is negative, so it counts
      from the end: the packet is the whole buffer up to 40 bytes, and the
      last 80 - length bytes between 40 and 80. */
  function Packet(held: seq<byte>): (packet: seq<byte>)
    ensures |packet| == (if |held| >= PacketLength then PacketLength
                         else if 2 * |held| >= PacketLength then PacketLength - |held|
                         else |held|)
    ensures packet == held[|held| - |packet|..]
  {
    JsSlice(held, |held| - PacketLength, |held|)
  }

  /** `held.slice(length - 8, length).every((v, i) => v === endSignature[i])`. */
  predicate EndCheck(held: seq<byte>)
    requires |held| >= |EndSignature|
  {
    JsSlice(held, |held| - |EndSignature|, |held|) <= EndSignature
  }

  /** `packet.slice(0, 8).every((v, i) => v === signature[i])`: every byte the
      slice has agrees with the start marker, so a slice shorter than 8 bytes
      is only compared as far as it goes. */
  predicate StartCheck(packet: seq<byte>) {
    JsSlice(packet, 0, |Signature|) <= Signature
  }

  /** The per-byte step of the receive pipeline. */
  function Next(s: State, b: byte): (t: Transition)
  {
    if s.errored then Transition(s, None)
    else
      var held := Held(s.buffer, b);
      if |held| < |Signature| then Transition(State(held, false), None)
      else if !EndCheck(held) then Transition(State(held, false), None)
      else
        var packet := Packet(held);
        if !StartCheck(packet) then Transition(Initial, None)
        else
          match Decode(packet)
          case Success(frame) => Transition(Initial, Some(frame))
          case Failure(_) => Transition(State(held, true), None)
  }

  function Emitted(frame: Option<Frame>): seq<Frame> {
    if frame.Some? then [frame.value] else []
  }

  /** The bytes of a stream fed one at a time through Next. */
  function Run(s: State, bytes: seq<byte>): Trace
    decreases |bytes|
  {
    if bytes == [] then Trace(s, [])
    else
      var before := Run(s, bytes[..|bytes| - 1]);
      var t := Next(before.state, bytes[|bytes| - 1]);
      Trace(t.state, before.frames + Emitted(t.frame))
  }

  /** The chunks delivered by the port, each fed whole, in order. */
  function RunChunks(s: State, chunks: seq<seq<byte>>): Trace
    decreases |chunks|
  {
    if chunks == [] then Trace(s, [])
    else
      var before := RunChunks(s, chunks[..|chunks| - 1]);
      var after := Run(before.state, chunks[|chunks| - 1]);
      Trace(after.state, before.frames + after.frames)
  }

  /** The byte stream the chunks make up. */
  function Flatten(chunks: seq<seq<byte>>): seq<byte>
    decreases |chunks|
  {
    if chunks == [] then [] else Flatten(chunks[..|chunks| - 1]) + chunks[|chunks| - 1]
  }

  /** The end marker starts at index i of s. */
  predicate EndSignatureAt(s: seq<byte>, i: nat)
    requires i + |EndSignature| <= |s|
  {
    s[i..i + |EndSignature|] == EndSignature
  }

  /** The end check is an exact comparison of the last eight held bytes. */
  lemma EndCheckExact(held: seq<byte>)
    requires |held| >= |EndSignature|
    ensures EndCheck(held) <==> held[|held| - 8..] == EndSignature
  {
    MarkerBytes();
    assert JsSlice(held, |held| - 8, |held|) == held[|held| - 8..];
  }

  /** Once the held bytes end in the end marker, the start check passes
      exactly when the packet holds at least 16 bytes and opens with the
      start marker: a shorter packet is all or part of the end marker, whose
      bytes never line up with the start marker. */
  lemma StartCheckExact(held: seq<byte>)
    requires |held| >= |EndSignature| && held[|held| - 8..] == EndSignature
    ensures StartCheck(Packet(held)) <==> |Packet(held)| >= 16 && Packet(held)[..8] == Signature
  {
    MarkerBytes();
    var packet := Packet(held);
    var n := |packet|;
    assert n >= 1;
    assert forall j :: 0 <= j < n && n - j <= 8 ==> packet[j] == EndSignature[8 - (n - j)] by {
      forall j | 0 <= j < n && n - j <= 8 ensures packet[j] == EndSignature[8 - (n - j)] {
        assert packet[j] == held[|held| - n + j];
        assert held[|held| - n + j] == held[|held| - 8..][8 - (n - j)];
      }
    }
    if n < 8 {
      assert JsSlice(packet, 0, 8) == packet;
      assert packet[0] == EndSignature[8 - n];
    } else if n < 16 {
      assert JsSlice(packet, 0, 8) == packet[..8];
      assert packet[n - 8] == EndSignature[0];
      assert packet[..8][n - 8] != Signature[n - 8];
    } else {
      assert JsSlice(packet, 0, 8) == packet[..8];
    }
  }

  /** After any byte the buffer is either the latest
      min(160, n) bytes of the old buffer followed by the byte, or empty, and
      never longer than the capacity. A stopped detector ignores the byte. */
  lemma NextBuffer(s: State, b: byte)
    ensures s.errored ==> Next(s, b) == Transition(s, None)
    ensures !s.errored ==>
      Next(s, b).state.buffer == Last(s.buffer + [b], Capacity) || Next(s, b).state.buffer == []
    ensures !s.errored ==> |Next(s, b).state.buffer| <= Capacity
  {
  }

  /** With fewer than eight bytes held the step only appends. */
  lemma NextBelowSignatureLength(s: State, b: byte)
    requires !s.errored && |s.buffer| + 1 < |Signature|
    ensures Next(s, b) == Transition(State(s.buffer + [b], false), None)
  {
  }

  /** Without the end marker at the tail, the step emits nothing and keeps
      the appended, truncated buffer. */
  lemma NextWithoutEndMarker(s: State, b: byte)
    requires !s.errored
    requires |Last(s.buffer + [b], Capacity)| >= 8
    requires Last(s.buffer + [b], Capacity)[|Last(s.buffer + [b], Capacity)| - 8..] != EndSignature
    ensures Next(s, b) == Transition(State(Last(s.buffer + [b], Capacity), false), None)
  {
    EndCheckExact(Held(s.buffer, b));
  }

  /** End marker at the tail but no start marker at the head of the packet:
      the whole buffer is dropped and nothing is emitted. */
  lemma NextResync(s: State, b: byte)
    requires !s.errored
    requires |Last(s.buffer + [b], Capacity)| >= 8
    requires Last(s.buffer + [b], Capacity)[|Last(s.buffer + [b], Capacity)| - 8..] == EndSignature
    requires !(|Packet(Last(s.buffer + [b], Capacity))| >= 16 &&
               Packet(Last(s.buffer + [b], Capacity))[..8] == Signature)
    ensures Next(s, b) == Transition(Initial, None)
  {
    var held := Held(s.buffer, b);
    EndCheckExact(held);
    StartCheckExact(held);
  }

  /** Both markers present and the packet not cut inside a field. */
  predicate Framed(held: seq<byte>) {
    |held| >= 8 && held[|held| - 8..] == EndSignature &&
    |Packet(held)| >= 16 && Packet(held)[..8] == Signature
  }

  /** A frame is emitted exactly when both markers match and the packet
      decodes; the emitted frame is the decoded packet, and the buffer is
      empty afterwards. */
  lemma NextEmits(s: State, b: byte)
    ensures Next(s, b).frame.Some? <==>
      !s.errored && Framed(Last(s.buffer + [b], Capacity)) &&
      !CutsField(|Packet(Last(s.buffer + [b], Capacity))|)
    ensures Next(s, b).frame.Some? ==>
      Next(s, b).state == Initial &&
      Decode(Packet(Last(s.buffer + [b], Capacity))) == Success(Next(s, b).frame.value)
  {
    var held := Held(s.buffer, b);
    if !s.errored && |held| >= 8 {
      EndCheckExact(held);
      if held[|held| - 8..] == EndSignature {
        StartCheckExact(held);
      }
    }
  }

  /** When both markers match but the packet ends inside a field, decoding
      throws: nothing is emitted, the buffer keeps the held bytes, and the
      detector stops for good. */
  lemma NextThrows(s: State, b: byte)
    ensures !s.errored && Next(s, b).state.errored <==>
      !s.errored && Framed(Last(s.buffer + [b], Capacity)) &&
      CutsField(|Packet(Last(s.buffer + [b], Capacity))|)
    ensures !s.errored && Next(s, b).state.errored ==>
      Next(s, b) == Transition(State(Last(s.buffer + [b], Capacity), true), None)
  {
    var held := Held(s.buffer, b);
    if !s.errored && |held| >= 8 {
      EndCheckExact(held);
      if held[|held| - 8..] == EndSignature {
        StartCheckExact(held);
      }
    }
  }

  /** A stopped detector stays stopped and emits nothing. */
  lemma {:induction false} ErroredIsFinal(s: State, bytes: seq<byte>)
    requires s.errored
    ensures Run(s, bytes) == Trace(s, [])
    decreases |bytes|
  {
    if bytes != [] {
      ErroredIsFinal(s, bytes[..|bytes| - 1]);
    }
  }

  /** The buffer never exceeds the capacity, whatever bytes arrive. */
  lemma {:induction false} RunBounded(s: State, bytes: seq<byte>)
    requires |s.buffer| <= Capacity
    ensures |Run(s, bytes).state.buffer| <= Capacity
    decreases |bytes|
  {
    if bytes != [] {
      RunBounded(s, bytes[..|bytes| - 1]);
      NextBuffer(Run(s, bytes[..|bytes| - 1]).state, bytes[|bytes| - 1]);
    }
  }

  /** Feeding a + b is feeding a, then b from where a left off. */
  lemma {:induction false} RunAppend(s: State, a: seq<byte>, b: seq<byte>)
    ensures Run(s, a + b) ==
      Trace(Run(Run(s, a).state, b).state, Run(s, a).frames + Run(Run(s, a).state, b).frames)
    decreases |b|
  {
    if b == [] {
      assert a + b == a;
    } else {
      var init := b[..|b| - 1];
      assert (a + b)[..|a + b| - 1] == a + init;
      assert (a + b)[|a + b| - 1] == b[|b| - 1];
      RunAppend(s, a, init);
    }
  }

  /** Chunk boundaries do not matter. The frames emitted
      and the final state depend only on the concatenated byte stream. */
  lemma {:induction false} ChunkingIrrelevant(s: State, chunks: seq<seq<byte>>)
    ensures RunChunks(s, chunks) == Run(s, Flatten(chunks))
    decreases |chunks|
  {
    if chunks != [] {
      var init := chunks[..|chunks| - 1];
      ChunkingIrrelevant(s, init);
      RunAppend(s, Flatten(init), chunks[|chunks| - 1]);
    }
  }

  lemma TailOfLast(s: seq<byte>, n: nat, k: nat)
    requires k <= |s| && k <= n
    ensures |Last(s, n)| >= k && Last(s, n)[|Last(s, n)| - k..] == s[|s| - k..]
  {
  }

  lemma TailOfConcat(a: seq<byte>, b: seq<byte>, k: nat)
    requires k <= |b|
    ensures (a + b)[|a + b| - k..] == b[|b| - k..]
  {
  }

  lemma LastOfLast(s: seq<byte>, b: byte)
    ensures Last(Last(s, Capacity) + [b], Capacity) == Last(s + [b], Capacity)
  {
  }

  /** A byte that does not complete an end marker is only appended. */
  lemma QuietStep(prior: seq<byte>, b: byte)
    requires |prior| + 1 >= 8 ==> !EndSignatureAt(prior + [b], |prior| + 1 - 8)
    ensures Next(State(Last(prior, Capacity), false), b) ==
      Transition(State(Last(prior + [b], Capacity), false), None)
  {
    var all := prior + [b];
    LastOfLast(prior, b);
    var held := Held(Last(prior, Capacity), b);
    if |held| >= 8 {
      assert held[|held| - 8..] == all[|all| - 8..];
      EndCheckExact(held);
    }
  }

  /** Bytes that never complete an end marker only accumulate: nothing is
      emitted and the buffer holds the latest bytes of everything seen. */
  lemma {:induction false} QuietRun(buffer: seq<byte>, stream: seq<byte>)
    requires |buffer| <= Capacity
    requires forall i: nat :: |buffer| < i + 8 <= |buffer| + |stream| ==> !EndSignatureAt(buffer + stream, i)
    ensures Run(State(buffer, false), stream) == Trace(State(Last(buffer + stream, Capacity), false), [])
    decreases |stream|
  {
    if stream == [] {
      assert buffer + stream == buffer;
    } else {
      var init, b := stream[..|stream| - 1], stream[|stream| - 1];
      var all := buffer + stream;
      assert all == (buffer + init) + [b];
      forall i: nat | |buffer| < i + 8 <= |buffer| + |init|
        ensures !EndSignatureAt(buffer + init, i)
      {
        assert (buffer + init)[i..i + 8] == all[i..i + 8];
        assert !EndSignatureAt(all, i);
      }
      QuietRun(buffer, init);
      if |all| >= 8 {
        assert !EndSignatureAt(all, |all| - 8);
      }
      QuietStep(buffer + init, b);
    }
  }

  /** No end marker inside the 79 bytes before the last one of a frame,
      whatever came before it: a window reaching back into the old buffer or
      into the start marker has a 0x94 or a start-marker byte where the end
      marker has neither, and one reaching into the final end marker has a
      0x95 where the end marker has none. */
  lemma NoEarlyEndMarker(buffer: seq<byte>, body: seq<byte>)
    requires forall i: nat :: i + 8 <= |body| ==> !EndSignatureAt(body, i)
    ensures var frame := Signature + body + EndSignature;
      var stream := frame[..|frame| - 1];
      forall i: nat :: |buffer| < i + 8 <= |buffer| + |stream| ==> !EndSignatureAt(buffer + stream, i)
  {
    MarkerBytes();
    var frame := Signature + body + EndSignature;
    var n := |frame|;
    var stream := frame[..n - 1];
    var all := buffer + stream;
    var k := |buffer|;
    assert forall j :: 0 <= j < n - 1 ==> all[k + j] == frame[j];
    forall i: nat | k < i + 8 <= k + |stream|
      ensures !EndSignatureAt(all, i)
    {
      var window := all[i..i + 8];
      if i <= k {
        var d := k - i;
        if d == 0 {
          assert window[0] == frame[0] == 0x94;
        } else {
          assert window[d] == frame[0] == 0x94;
          assert EndSignature[d] != 0x94;
        }
      } else if i < k + 8 {
        assert window[0] == frame[i - k] == Signature[i - k];
        assert Signature[i - k] != 0x95;
      } else if i <= k + |body| {
        var j := i - k - 8;
        WindowInBody(buffer, body, j);
        assert !EndSignatureAt(body, j);
      } else {
        var d := k + n - 8 - i;
        assert window[d] == frame[n - 8] == 0x95;
        assert EndSignature[d] != 0x95;
      }
    }
  }

  /** A frame opens with the start marker, closes with the end marker, and
      is its bytes before the last followed by the last. */
  lemma FrameShape(body: seq<byte>)
    ensures var frame := Signature + body + EndSignature;
      |frame| == 16 + |body| && frame[..8] == Signature && frame[|frame| - 8..] == EndSignature &&
      frame == frame[..|frame| - 1] + [frame[|frame| - 1]]
  {
    var frame := Signature + body + EndSignature;
    assert frame[..8] == Signature;
    assert frame[|frame| - 8..] == EndSignature;
    assert frame == frame[..|frame| - 1] + [frame[|frame| - 1]];
  }

  /** A window of eight bytes inside the payload of a frame that follows
      the buffer. */
  lemma WindowInBody(buffer: seq<byte>, body: seq<byte>, j: nat)
    requires j + 8 <= |body|
    ensures var frame := Signature + body + EndSignature;
      var all := buffer + frame[..|frame| - 1];
      |buffer| + 8 + j + 8 <= |all| &&
      all[|buffer| + 8 + j..|buffer| + 8 + j + 8] == body[j..j + 8]
  {
    var frame := Signature + body + EndSignature;
    var all := buffer + frame[..|frame| - 1];
    var pre, rest := buffer + Signature, body + EndSignature[..7];
    assert frame[..|frame| - 1] == Signature + rest;
    assert all == pre + rest;
    assert all[|pre|..] == rest;
    assert rest[j..j + 8] == body[j..j + 8];
  }

  /** A well-formed frame (start marker, 64 bytes that do
      not contain the end marker, end marker) arriving in any live state is
      emitted as exactly one frame decoded from those 80 bytes, and leaves the
      buffer empty. Garbage held before it does not matter. */
  lemma CompleteFrame(s: State, body: seq<byte>)
    requires !s.errored && |s.buffer| <= Capacity
    requires |body| == PacketLength - 16
    requires forall i: nat :: i + 8 <= |body| ==> !EndSignatureAt(body, i)
    ensures Decode(Signature + body + EndSignature).Success?
    ensures Run(s, Signature + body + EndSignature) ==
      Trace(Initial, [Decode(Signature + body + EndSignature).value])
  {
    var frame := Signature + body + EndSignature;
    var stream, b := frame[..PacketLength - 1], frame[PacketLength - 1];
    FrameShape(body);
    NoEarlyEndMarker(s.buffer, body);
    QuietRun(s.buffer, stream);
    FrameLastByte(s.buffer, frame);
  }

  /** The last byte of an 80-byte frame completes both markers. */
  lemma FrameLastByte(buffer: seq<byte>, frame: seq<byte>)
    requires |frame| == PacketLength
    requires frame[..8] == Signature && frame[PacketLength - 8..] == EndSignature
    ensures var t := Next(State(Last(buffer + frame[..PacketLength - 1], Capacity), false), frame[PacketLength - 1]);
      Decode(frame).Success? && t == Transition(Initial, Some(Decode(frame).value))
  {
    var held := Held(Last(buffer + frame[..PacketLength - 1], Capacity), frame[PacketLength - 1]);
    FrameHeld(buffer, frame);
    assert JsSlice(frame, 0, 8) == Signature;
    assert StartCheck(Packet(held));
    CutsFieldExactly(PacketLength);
    assert Decode(Packet(held)).Success?;
  }

  /** Once the last byte of an 80-byte frame is held, the end marker is at
      the tail and the packet is exactly the frame. */
  lemma FrameHeld(buffer: seq<byte>, frame: seq<byte>)
    requires |frame| == PacketLength && frame[PacketLength - 8..] == EndSignature
    ensures var held := Held(Last(buffer + frame[..PacketLength - 1], Capacity), frame[PacketLength - 1]);
      |held| >= 8 && EndCheck(held) && Packet(held) == frame
  {
    var stream, b := frame[..PacketLength - 1], frame[PacketLength - 1];
    HeldOfFrame(buffer, frame);
    var held := Held(Last(buffer + stream, Capacity), b);
    LastEndsWithFrame(buffer, frame);
    EndCheckExact(held);
  }

  lemma HeldOfFrame(buffer: seq<byte>, frame: seq<byte>)
    requires |frame| == PacketLength
    ensures Held(Last(buffer + frame[..PacketLength - 1], Capacity), frame[PacketLength - 1]) ==
      Last(buffer + frame, Capacity)
  {
    var stream, b := frame[..PacketLength - 1], frame[PacketLength - 1];
    var kept := Last(buffer + stream, Capacity);
    assert Held(kept, b) == Last(kept + [b], Capacity);
    LastOfLast(buffer + stream, b);
    assert frame == stream + [b];
    assert buffer + frame == (buffer + stream) + [b];
  }

  lemma LastEndsWithFrame(buffer: seq<byte>, frame: seq<byte>)
    requires |frame| == PacketLength && frame[PacketLength - 8..] == EndSignature
    ensures var held := Last(buffer + frame, Capacity);
      |held| >= PacketLength && held[|held| - 8..] == EndSignature && held[|held| - PacketLength..] == frame
  {
    var all := buffer + frame;
    TailOfLast(all, Capacity, 8);
    TailOfConcat(buffer, frame, 8);
    TailOfLast(all, Capacity, PacketLength);
    TailOfConcat(buffer, frame, PacketLength);
    assert frame[|frame| - PacketLength..] == frame;
  }

  /** The detector of the receive pipeline: the buffer the pipeline captures,
      and whether the subscription has ended because a decode threw. */
  class Detector {
    var buffer: seq<byte>
    var errored: bool

    function Current(): State
      reads this
    {
      State(buffer, errored)
    }

    /** The buffer never holds more than the capacity. */
    predicate Valid()
      reads this
    {
      |buffer| <= Capacity
    }

    constructor ()
      ensures Current() == Initial && Valid()
    {
      buffer := [];
      errored := false;
    }

    /** One byte through the pipeline step. */
    method Step(b: byte) returns (frame: Option<Frame>)
      requires Valid()
      modifies this
      ensures Transition(Current(), frame) == Next(old(Current()), b)
      ensures Valid()
    {
      if errored {
        return None;
      }
      ghost var before := buffer;
      var held := buffer + [b];
      held := JsSlice(held, if |held| > Capacity then |held| - Capacity else 0, |held|);
      assert held == Held(before, b);
      buffer := held;
      if |held| < |Signature| {
        assert Next(State(before, false), b) == Transition(State(held, false), None);
        return None;
      }
      if JsSlice(held, |held| - |EndSignature|, |held|) <= EndSignature {
        assert EndCheck(held);
        var packet := JsSlice(held, |held| - PacketLength, |held|);
        assert packet == Packet(held);
        if !(JsSlice(packet, 0, |Signature|) <= Signature) {
          assert Next(State(before, false), b) == Transition(Initial, None);
          buffer := [];
          return None;
        }
        assert StartCheck(Packet(held));
        var decoded := Decode(packet);
        if decoded.Failure? {
          // The exception reaches the subscriber, which ends the subscription.
          assert Next(State(before, false), b) == Transition(State(held, true), None);
          errored := true;
          return None;
        }
        assert Next(State(before, false), b) == Transition(Initial, Some(decoded.value));
        buffer := [];
        return Some(decoded.value);
      }
      assert Next(State(before, false), b) == Transition(State(held, false), None);
      return None;
    }

    /** One chunk from the port, flattened into single bytes. */
    method Feed(chunk: seq<byte>) returns (frames: seq<Frame>)
      requires Valid()
      modifies this
      ensures Trace(Current(), frames) == Run(old(Current()), chunk)
      ensures Valid()
    {
      frames := [];
      for i := 0 to |chunk|
        invariant Trace(Current(), frames) == Run(old(Current()), chunk[..i])
        invariant Valid()
      {
        var frame := Step(chunk[i]);
        frames := frames + Emitted(frame);
        assert chunk[..i + 1][..i] == chunk[..i];
      }
      assert chunk[..|chunk|] == chunk;
    }
  }
}
