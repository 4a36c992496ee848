/** The telemetry frame of the motion-sensing controller: the two 8-byte
    signatures that bound it, its field layout, and the decoding of a packet
    cut from the receive buffer into a frame. */
module Telemetry {
  import opened Wrappers
  import opened TypedArrays

  /** Start-of-frame marker: 0x94 'B' 'E' 'P' CR LF SUB LF. */
  const Signature: seq<byte> :=
    [0x94, ('B' as int) as byte, ('E' as int) as byte, ('P' as int) as byte, 0x0D, 0x0A, 0x1A, 0x0A]

  /** End-of-frame marker: the start marker with 0x95 in place of 0x94. */
  const EndSignature: seq<byte> :=
    [0x95, ('B' as int) as byte, ('E' as int) as byte, ('P' as int) as byte, 0x0D, 0x0A, 0x1A, 0x0A]

  /** The two markers differ only in their first byte, and neither 0x94 nor
      0x95 occurs anywhere after it: no shifted copy of one marker can line up
      with the other. */
  lemma MarkerBytes()
    ensures |Signature| == 8 && |EndSignature| == 8
    ensures Signature[0] == 0x94 && EndSignature[0] == 0x95
    ensures forall d :: 1 <= d < 8 ==>
      Signature[d] == EndSignature[d] && EndSignature[d] != 0x94 && EndSignature[d] != 0x95
  {
  }

  /** Length of a complete packet: start marker, 64 bytes of payload, end marker. */
  const PacketLength: nat := 80

  /** One decoded frame. The numeric fields are `undefined` when the packet
      ends before them. yaw, pitch, roll, joyX and joyY are IEEE-754 single
      precision numbers in the device; here they keep their raw 32-bit word. */
  datatype Frame = Frame(
    globalTime: Field,
    count: Field,
    globalVersion: Field,
    number: Field,
    version: Field,
    time: Field,
    yaw: Field,
    pitch: Field,
    roll: Field,
    xAccel: Field,
    yAccel: Field,
    zAccel: Field,
    joyX: Field,
    joyY: Field,
    buttons: seq<bool>)

  /** Where a numeric field sits in the packet, and whether it is read
      through an `Int16Array` rather than an unsigned view. */
  datatype Span = Span(offset: nat, width: nat, signed: bool) {
    predicate WellFormed() {
      (width == 2 || width == 4) && (signed ==> width == 2)
    }
  }

  /** The numeric fields in the order they are read: globalTime, count,
      globalVersion, number, version, time, yaw, pitch, roll, xAccel,
      yAccel, zAccel, joyX, joyY. */
  /** A span a typed array can be laid over. */
  type FieldSpan = s: Span | s.WellFormed() witness Span(8, 4, false)

  const Layout: seq<FieldSpan> := [
    Span(8, 4, false), Span(12, 2, false), Span(14, 2, false), Span(16, 2, false),
    Span(18, 2, false), Span(20, 4, false), Span(24, 4, false), Span(28, 4, false),
    Span(32, 4, false), Span(36, 2, true), Span(38, 2, true), Span(40, 2, true),
    Span(48, 4, false), Span(52, 4, false)]

  /** Offset of the button bitmask byte. */
  const ButtonOffset: nat := 56

  /** A packet of length n ends in the middle of some numeric field. */
  predicate CutsField(n: nat) {
    exists i :: 0 <= i < |Layout| && Inside(n, Layout[i])
  }

  /** n lies strictly inside the span. */
  predicate Inside(n: nat, span: Span) {
    span.offset < n < span.offset + span.width
  }

  lemma CutsFieldExactly(n: nat)
    ensures CutsField(n) <==>
      8 < n < 12 || 12 < n < 14 || 14 < n < 16 || 16 < n < 18 || 18 < n < 20 || 20 < n < 24 ||
      24 < n < 28 || 28 < n < 32 || 32 < n < 36 || 36 < n < 38 || 38 < n < 40 || 40 < n < 42 ||
      48 < n < 52 || 52 < n < 56
  {
    if CutsField(n) {
      var i :| 0 <= i < |Layout| && Inside(n, Layout[i]);
      assert i in {0, 1, 2, 3, 4, 5, 6, 7, 8, 9, 10, 11, 12, 13};
    } else {
      assert !Inside(n, Layout[0]) && !Inside(n, Layout[1]) && !Inside(n, Layout[2]);
      assert !Inside(n, Layout[3]) && !Inside(n, Layout[4]) && !Inside(n, Layout[5]);
      assert !Inside(n, Layout[6]) && !Inside(n, Layout[7]) && !Inside(n, Layout[8]);
      assert !Inside(n, Layout[9]) && !Inside(n, Layout[10]) && !Inside(n, Layout[11]);
      assert !Inside(n, Layout[12]) && !Inside(n, Layout[13]);
    }
  }

  /** JavaScript's `&` on two non-negative integers, bit by bit from the
      least significant end. */
  function BitAnd(x: nat, y: nat): (r: nat)
    ensures r <= x && r <= y
    decreases x
  {
    if x == 0 || y == 0 then 0 else (x % 2) * (y % 2) + 2 * BitAnd(x / 2, y / 2)
  }

  function Pow2(i: nat): (r: nat)
    ensures r >= 1
  {
    if i == 0 then 1 else 2 * Pow2(i - 1)
  }

  /** Bit i of x, counting from the least significant bit. */
  predicate BitSet(x: nat, i: nat) {
    if i == 0 then x % 2 == 1 else BitSet(x / 2, i - 1)
  }

  /** Masking with a single bit tests that bit. */
  lemma {:induction false} MaskTestsBit(x: nat, i: nat)
    ensures BitAnd(x, Pow2(i)) != 0 <==> BitSet(x, i)
  {
    if i > 0 {
      var p := Pow2(i - 1);
      assert Pow2(i) == 2 * p;
      MaskTestsBit(x / 2, i - 1);
      DoubleMask(x, p);
      assert BitSet(x, i) == BitSet(x / 2, i - 1);
    }
  }

  /** Anding with an even mask drops bit 0 and shifts the rest. */
  lemma DoubleMask(x: nat, p: nat)
    requires p >= 1
    ensures BitAnd(x, 2 * p) == 2 * BitAnd(x / 2, p)
  {
    HalfOfDouble(p);
    if x == 0 {
      assert x / 2 == 0;
    }
  }

  lemma HalfOfDouble(p: nat)
    ensures (2 * p) % 2 == 0 && (2 * p) / 2 == p
  {
  }

  /** The four buttons from `packet.slice(56, 60)`: bits 0 to 3 of its first
      byte. When the slice is empty, its element 0 is `undefined`, which a
      bitwise and turns into 0, so every button reads as released. */
  function Buttons(buttonMap: seq<byte>): (r: seq<bool>)
    ensures |r| == 4
    ensures forall i :: 0 <= i < 4 ==> (r[i] <==> buttonMap != [] && BitSet(buttonMap[0] as nat, i))
  {
    var b: nat := if buttonMap == [] then 0 else buttonMap[0] as nat;
    MaskTestsBit(b, 0);
    MaskTestsBit(b, 1);
    MaskTestsBit(b, 2);
    MaskTestsBit(b, 3);
    [BitAnd(b, 0x01) != 0, BitAnd(b, 0x02) != 0, BitAnd(b, 0x04) != 0, BitAnd(b, 0x08) != 0]
  }

  /** `new UintNArray(packet.slice(offset, offset + width).buffer)[0]`, or
      `new Int16Array(...)` for a signed span. */
  function ReadField(packet: seq<byte>, span: Span): (r: Result<Field, ViewError>)
    requires span.WellFormed()
    ensures r.Failure? <==> Inside(|packet|, span)
    ensures r == Success(Undefined) <==> |packet| <= span.offset
    ensures r.Success? && r.value.Defined? ==> span.offset + span.width <= |packet|
  {
    var view := JsSlice(packet, span.offset, span.offset + span.width);
    if span.signed then FirstInt16(view) else FirstUint(view, span.width)
  }

  /** A field read through a typed-array view holds the direct little-endian
      decoding of the field's bytes, two's complement for a signed span. */
  lemma ReadFieldValue(packet: seq<byte>, span: Span)
    requires span.WellFormed()
    requires ReadField(packet, span).Success? && ReadField(packet, span).value.Defined?
    ensures ReadField(packet, span).value.value == FieldValue(packet, span)
  {
    var view := JsSlice(packet, span.offset, span.offset + span.width);
    assert view == packet[span.offset..span.offset + span.width] == view[..span.width];
    var v := ReadField(packet, span).value.value;
    if span.signed {
      assert FirstInt16(view) == ReadField(packet, span);
      FirstInt16Bytes(view);
      LittleEndianOfLeBytes(v % 0x1_0000, 2);
      assert LittleEndian(view) == v % 0x1_0000;
      assert ToInt16(v % 0x1_0000) == v;
    } else {
      assert FirstUint(view, span.width) == ReadField(packet, span);
      FirstUintBytes(view, span.width);
      LittleEndianOfLeBytes(v, span.width);
    }
  }

  /** Every numeric field of the packet, read in the order of the object
      literal that builds the frame. */
  function ReadAll(packet: seq<byte>): (fields: seq<Result<Field, ViewError>>)
    ensures |fields| == |Layout|
    ensures forall i :: 0 <= i < |Layout| ==> (fields[i].Failure? <==> Inside(|packet|, Layout[i]))
  {
    seq(|Layout|, i requires 0 <= i < |Layout| => ReadField(packet, Layout[i]))
  }

  /** Decode a packet that passed the signature check. A read that throws
      ends the decode; every read throws the same RangeError, so which one
      throws first does not show in the result. */
  function Decode(packet: seq<byte>): (r: Result<Frame, ViewError>)
    ensures r.Failure? <==> CutsField(|packet|)
  {
    Assemble(ReadAll(packet), Buttons(JsSlice(packet, ButtonOffset, ButtonOffset + 4)))
  }

  /** The frame object built from the numeric reads and the buttons, or the
      exception of the first read that threw. */
  function Assemble(fields: seq<Result<Field, ViewError>>, buttons: seq<bool>): (r: Result<Frame, ViewError>)
    requires |fields| == |Layout|
  {
    if exists i :: 0 <= i < |fields| && fields[i].Failure? then Failure(RangeError)
    else
      Success(Frame(
        fields[0].value, fields[1].value, fields[2].value, fields[3].value, fields[4].value,
        fields[5].value, fields[6].value, fields[7].value, fields[8].value, fields[9].value,
        fields[10].value, fields[11].value, fields[12].value, fields[13].value,
        buttons))
  }

  /** The assembled frame holds the value of every read in Layout order. */
  lemma AssembledNumbers(fields: seq<Result<Field, ViewError>>, buttons: seq<bool>, i: nat)
    requires |fields| == |Layout| && i < |Layout|
    requires Assemble(fields, buttons).Success?
    ensures Numbers(Assemble(fields, buttons).value)[i] == fields[i].value
  {
  }

  /** The numeric fields of a frame, in Layout order. */
  function Numbers(f: Frame): (r: seq<Field>)
    ensures |r| == |Layout|
  {
    [f.globalTime, f.count, f.globalVersion, f.number, f.version, f.time, f.yaw,
     f.pitch, f.roll, f.xAccel, f.yAccel, f.zAccel, f.joyX, f.joyY]
  }

  /** Direct offset decoding of a field that lies inside the packet:
      little-endian, two's complement for a signed span. */
  function FieldValue(packet: seq<byte>, span: FieldSpan): int
    requires span.offset + span.width <= |packet|
  {
    var word := LittleEndian(packet[span.offset..span.offset + span.width]);
    if span.signed then ToInt16(word) else word
  }

  /** What a successful decode yields: a numeric field is `undefined` exactly
      when the packet ends at or before its offset, and otherwise holds the
      direct offset decoding of its bytes. */
  lemma {:induction false} DecodedFields(packet: seq<byte>)
    requires Decode(packet).Success?
    ensures forall i :: 0 <= i < |Layout| ==>
      (Numbers(Decode(packet).value)[i] == Undefined <==> |packet| <= Layout[i].offset)
    ensures forall i :: 0 <= i < |Layout| && Layout[i].offset < |packet| ==>
      Layout[i].offset + Layout[i].width <= |packet| &&
      Numbers(Decode(packet).value)[i] == Defined(FieldValue(packet, Layout[i]))
  {
    forall i | 0 <= i < |Layout|
      ensures Numbers(Decode(packet).value)[i] == Undefined <==> |packet| <= Layout[i].offset
      ensures Layout[i].offset < |packet| ==>
        Layout[i].offset + Layout[i].width <= |packet| &&
        Numbers(Decode(packet).value)[i] == Defined(FieldValue(packet, Layout[i]))
    {
      DecodedField(packet, i);
    }
  }

  /** The buttons of a decoded frame are the low four bits of byte 56, or all
      released when the packet is too short to hold it. */
  lemma DecodedButtons(packet: seq<byte>)
    requires Decode(packet).Success?
    ensures ButtonOffset < |packet| ==>
      Decode(packet).value.buttons ==
        [BitSet(packet[56] as nat, 0), BitSet(packet[56] as nat, 1), BitSet(packet[56] as nat, 2), BitSet(packet[56] as nat, 3)]
    ensures |packet| <= ButtonOffset ==> Decode(packet).value.buttons == [false, false, false, false]
  {
    DecodeTakesButtons(packet);
    ButtonsOfPacket(packet);
  }

  lemma ButtonsOfPacket(packet: seq<byte>)
    ensures ButtonOffset < |packet| ==>
      Buttons(JsSlice(packet, ButtonOffset, ButtonOffset + 4)) ==
        [BitSet(packet[56] as nat, 0), BitSet(packet[56] as nat, 1), BitSet(packet[56] as nat, 2), BitSet(packet[56] as nat, 3)]
    ensures |packet| <= ButtonOffset ==> Buttons(JsSlice(packet, ButtonOffset, ButtonOffset + 4)) == [false, false, false, false]
  {
    var slice := JsSlice(packet, ButtonOffset, ButtonOffset + 4);
    ButtonsAsList(slice);
    if ButtonOffset < |packet| {
      assert slice != [] && slice[0] == packet[56];
    } else {
      assert slice == [];
    }
  }

  lemma DecodeTakesButtons(packet: seq<byte>)
    requires Decode(packet).Success?
    ensures Decode(packet).value.buttons == Buttons(JsSlice(packet, ButtonOffset, ButtonOffset + 4))
  {
    var buttons := Buttons(JsSlice(packet, ButtonOffset, ButtonOffset + 4));
    assert Decode(packet) == Assemble(ReadAll(packet), buttons);
  }

  lemma ButtonsAsList(buttonMap: seq<byte>)
    ensures buttonMap != [] ==>
      Buttons(buttonMap) ==
        [BitSet(buttonMap[0] as nat, 0), BitSet(buttonMap[0] as nat, 1), BitSet(buttonMap[0] as nat, 2), BitSet(buttonMap[0] as nat, 3)]
    ensures buttonMap == [] ==> Buttons(buttonMap) == [false, false, false, false]
  {
  }

  lemma DecodedField(packet: seq<byte>, i: nat)
    requires Decode(packet).Success? && i < |Layout|
    ensures Numbers(Decode(packet).value)[i] == Undefined <==> |packet| <= Layout[i].offset
    ensures Layout[i].offset < |packet| ==>
      Layout[i].offset + Layout[i].width <= |packet| &&
      Numbers(Decode(packet).value)[i] == Defined(FieldValue(packet, Layout[i]))
  {
    var fields := ReadAll(packet);
    var buttons := Buttons(JsSlice(packet, ButtonOffset, ButtonOffset + 4));
    assert Decode(packet) == Assemble(fields, buttons);
    assert fields[i] == ReadField(packet, Layout[i]);
    AssembledNumbers(fields, buttons, i);
    if Layout[i].offset < |packet| {
      ReadFieldValue(packet, Layout[i]);
    }
  }

  /** A complete 80-byte packet decodes without error, every numeric field
      at the offset and width of the frame layout. */
  lemma DecodeCompletePacket(packet: seq<byte>)
    requires |packet| == PacketLength
    ensures Decode(packet).Success?
    ensures var f := Decode(packet).value;
      && f.globalTime == Defined(LittleEndian(packet[8..12]))
      && f.count == Defined(LittleEndian(packet[12..14]))
      && f.globalVersion == Defined(LittleEndian(packet[14..16]))
      && f.number == Defined(LittleEndian(packet[16..18]))
      && f.version == Defined(LittleEndian(packet[18..20]))
      && f.time == Defined(LittleEndian(packet[20..24]))
      && f.yaw == Defined(LittleEndian(packet[24..28]))
      && f.pitch == Defined(LittleEndian(packet[28..32]))
      && f.roll == Defined(LittleEndian(packet[32..36]))
      && f.xAccel == Defined(ToInt16(LittleEndian(packet[36..38])))
      && f.yAccel == Defined(ToInt16(LittleEndian(packet[38..40])))
      && f.zAccel == Defined(ToInt16(LittleEndian(packet[40..42])))
      && f.joyX == Defined(LittleEndian(packet[48..52]))
      && f.joyY == Defined(LittleEndian(packet[52..56]))
      && f.buttons == [BitSet(packet[56] as nat, 0), BitSet(packet[56] as nat, 1), BitSet(packet[56] as nat, 2), BitSet(packet[56] as nat, 3)]
  {
    CutsFieldExactly(|packet|);
    DecodedFields(packet);
    DecodedButtons(packet);
    HeaderFieldsAtLayout(packet, Decode(packet).value);
    MotionFieldsAtLayout(packet, Decode(packet).value);
  }

  /** The Layout spans of globalTime to yaw, as byte ranges of an 80-byte packet. */
  lemma HeaderFieldsAtLayout(packet: seq<byte>, f: Frame)
    requires |packet| == PacketLength
    requires forall i :: 0 <= i < |Layout| ==> Numbers(f)[i] == Defined(FieldValue(packet, Layout[i]))
    ensures f.globalTime == Defined(LittleEndian(packet[8..12]))
    ensures f.count == Defined(LittleEndian(packet[12..14]))
    ensures f.globalVersion == Defined(LittleEndian(packet[14..16]))
    ensures f.number == Defined(LittleEndian(packet[16..18]))
    ensures f.version == Defined(LittleEndian(packet[18..20]))
    ensures f.time == Defined(LittleEndian(packet[20..24]))
    ensures f.yaw == Defined(LittleEndian(packet[24..28]))
  {
    var n := Numbers(f);
    assert n[0] == Defined(FieldValue(packet, Layout[0]));
    assert n[1] == Defined(FieldValue(packet, Layout[1]));
    assert n[2] == Defined(FieldValue(packet, Layout[2]));
    assert n[3] == Defined(FieldValue(packet, Layout[3]));
    assert n[4] == Defined(FieldValue(packet, Layout[4]));
    assert n[5] == Defined(FieldValue(packet, Layout[5]));
    assert n[6] == Defined(FieldValue(packet, Layout[6]));
  }

  /** The Layout spans of pitch to joyY, as byte ranges of an 80-byte packet. */
  lemma MotionFieldsAtLayout(packet: seq<byte>, f: Frame)
    requires |packet| == PacketLength
    requires forall i :: 0 <= i < |Layout| ==> Numbers(f)[i] == Defined(FieldValue(packet, Layout[i]))
    ensures f.pitch == Defined(LittleEndian(packet[28..32]))
    ensures f.roll == Defined(LittleEndian(packet[32..36]))
    ensures f.xAccel == Defined(ToInt16(LittleEndian(packet[36..38])))
    ensures f.yAccel == Defined(ToInt16(LittleEndian(packet[38..40])))
    ensures f.zAccel == Defined(ToInt16(LittleEndian(packet[40..42])))
    ensures f.joyX == Defined(LittleEndian(packet[48..52]))
    ensures f.joyY == Defined(LittleEndian(packet[52..56]))
  {
    var n := Numbers(f);
    assert n[7] == Defined(FieldValue(packet, Layout[7]));
    assert n[8] == Defined(FieldValue(packet, Layout[8]));
    assert n[9] == Defined(FieldValue(packet, Layout[9]));
    assert n[10] == Defined(FieldValue(packet, Layout[10]));
    assert n[11] == Defined(FieldValue(packet, Layout[11]));
    assert n[12] == Defined(FieldValue(packet, Layout[12]));
    assert n[13] == Defined(FieldValue(packet, Layout[13]));
  }

  /** The button byte 0b00001011 reads as buttons 0, 1 and 3 pressed. */
  lemma ButtonsExample()
    ensures Buttons([0x0B]) == [true, true, false, true]
  {
  }
}
