/** The few JavaScript byte-array operations the telemetry decoder relies on:
    `Uint8Array.prototype.slice` with its negative-index rule, and reading
    element 0 of a `Uint16Array`, `Uint32Array` or `Int16Array` laid over the
    bytes of a slice, on a little-endian platform. */
module TypedArrays {
  import opened Wrappers

  /** An element of a `Uint8Array`. */
  newtype byte = b: int | 0 <= b < 256

  /** The value of a typed-array element read: a number, or `undefined`
      when the index is past the end of the view. */
  datatype Field = Defined(value: int) | Undefined

  /** The exception a typed-array constructor throws when the buffer's byte
      length is not a multiple of the element size. */
  datatype ViewError = RangeError

  function Pow256(n: nat): (r: nat)
    ensures r >= 1
  {
    if n == 0 then 1 else 256 * Pow256(n - 1)
  }

  /** ECMAScript's rule for a relative index of `slice`: a negative index
      counts from the end and is clamped at 0, a large one is clamped at len. */
  function RelativeIndex(len: nat, index: int): (k: nat)
    ensures k <= len
  {
    if index < 0 then (if len + index < 0 then 0 else len + index)
    else if index < len then index
    else len
  }

  /** `s.slice(start, end)`. */
  function JsSlice(s: seq<byte>, start: int, end: int): (r: seq<byte>)
    ensures RelativeIndex(|s|, start) + |r| <= |s|
    ensures r == s[RelativeIndex(|s|, start)..RelativeIndex(|s|, start) + |r|]
    ensures 0 <= start <= end ==>
      r == s[(if start < |s| then start else |s|)..(if end < |s| then end else |s|)]
    ensures start < 0 && |s| <= end ==>
      r == (if |s| + start < 0 then s else s[|s| + start..])
  {
    var k := RelativeIndex(|s|, start);
    var e := RelativeIndex(|s|, end);
    if k < e then s[k..e] else []
  }

  /** The unsigned number whose little-endian byte string is `s`. */
  function LittleEndian(s: seq<byte>): (n: nat)
    ensures n < Pow256(|s|)
  {
    if s == [] then 0 else s[0] as nat + 256 * LittleEndian(s[1..])
  }

  lemma {:induction false} LittleEndianOfZeros(s: seq<byte>)
    requires forall i :: 0 <= i < |s| ==> s[i] == 0
    ensures LittleEndian(s) == 0
  {
    if s != [] {
      LittleEndianOfZeros(s[1..]);
    }
  }

  /** The `width` little-endian bytes of `n`: the inverse of LittleEndian. */
  function LeBytes(n: nat, width: nat): (s: seq<byte>)
    ensures |s| == width
  {
    if width == 0 then [] else [(n % 256) as byte] + LeBytes(n / 256, width - 1)
  }

  lemma {:induction false} LittleEndianOfLeBytes(n: nat, width: nat)
    requires n < Pow256(width)
    ensures LittleEndian(LeBytes(n, width)) == n
  {
    if width > 0 {
      var q, low := n / 256, n % 256;
      assert q < Pow256(width - 1);
      LittleEndianOfLeBytes(q, width - 1);
      var s := LeBytes(n, width);
      assert s[1..] == LeBytes(q, width - 1);
      assert s[0] as nat == low;
      assert n == low + 256 * q;
    }
  }

  lemma {:induction false} LeBytesOfLittleEndian(s: seq<byte>)
    ensures LeBytes(LittleEndian(s), |s|) == s
  {
    if s != [] {
      LeBytesOfLittleEndian(s[1..]);
      var low, rest := s[0] as nat, LittleEndian(s[1..]);
      DivMod256(low, rest);
      assert (low as byte) == s[0];
      assert LeBytes(LittleEndian(s), |s|) == [low as byte] + LeBytes(rest, |s| - 1);
    }
  }

  lemma DivMod256(low: nat, rest: nat)
    requires low < 256
    ensures (low + 256 * rest) % 256 == low && (low + 256 * rest) / 256 == rest
  {
  }

  /** Two's complement reinterpretation of a 16-bit word. */
  function ToInt16(u: nat): (v: int)
    requires u < 0x1_0000
    ensures -0x8000 <= v < 0x8000
    ensures v % 0x1_0000 == u
  {
    if u < 0x8000 then u else u - 0x1_0000
  }

  /** `new UintNArray(bytes.buffer)[0]` with N = 8 * width: the constructor
      throws unless the byte length is a multiple of the element size, and
      element 0 of an empty view is `undefined`. */
  function FirstUint(bytes: seq<byte>, width: nat): (r: Result<Field, ViewError>)
    requires width == 2 || width == 4
    ensures r.Failure? <==> |bytes| % width != 0
    ensures r.Success? ==> (r.value.Undefined? <==> bytes == [])
    ensures r.Success? && r.value.Defined? ==> |bytes| >= width && 0 <= r.value.value < Pow256(width)
  {
    if |bytes| % width != 0 then Failure(RangeError)
    else if bytes == [] then Success(Undefined)
    else Success(Defined(LittleEndian(bytes[..width])))
  }

  /** The element read is the number whose little-endian encoding is the
      first width bytes. */
  lemma FirstUintBytes(bytes: seq<byte>, width: nat)
    requires width == 2 || width == 4
    requires FirstUint(bytes, width).Success? && FirstUint(bytes, width).value.Defined?
    ensures LeBytes(FirstUint(bytes, width).value.value, width) == bytes[..width]
  {
    LeBytesOfLittleEndian(bytes[..width]);
  }

  /** `new Int16Array(bytes.buffer)[0]` on a little-endian platform. */
  function FirstInt16(bytes: seq<byte>): (r: Result<Field, ViewError>)
    ensures r.Failure? <==> |bytes| % 2 != 0
    ensures r.Success? ==> (r.value.Undefined? <==> bytes == [])
    ensures r.Success? && r.value.Defined? ==> |bytes| >= 2 && -0x8000 <= r.value.value < 0x8000
  {
    var word :- FirstUint(bytes, 2);
    match word
    case Defined(u) => Success(Defined(ToInt16(u)))
    case Undefined => Success(Undefined)
  }

  /** The element read is the number whose two's complement little-endian
      encoding is the first two bytes. */
  lemma FirstInt16Bytes(bytes: seq<byte>)
    requires FirstInt16(bytes).Success? && FirstInt16(bytes).value.Defined?
    ensures LeBytes(FirstInt16(bytes).value.value % 0x1_0000, 2) == bytes[..2]
  {
    FirstUintBytes(bytes, 2);
  }
}
