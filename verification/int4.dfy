/**
  The INT4 element decode of `dumpInt4Buffer`: two signed 4-bit values per byte,
  the even element in the low nibble and the odd element in the high nibble.
*/
module Int4 {
  import opened Arith
  import opened TensorDims

  /** A byte of the buffer (`uint8_t`). */
  newtype uint8 = x: int | 0 <= x < 256

  /** `static_cast<int8_t>` of an `int`: the low 8 bits read as two's complement. */
  function ToInt8(x: int): (r: int)
    ensures -128 <= r < 128 && (x - r) % 256 == 0
  {
    var low := x % 256;
    if low >= 128 then low - 256 else low
  }

  /**
    `>> 4` on a promoted `int8_t`: an arithmetic shift, which rounds toward negative
    infinity; Dafny's division by a positive constant rounds the same way.
  */
  function ShiftRight4(x: int): int
  {
    x / 16
  }

  /** A 4-bit field read as two's complement. */
  function SignExtend4(n: int): (r: int)
    requires 0 <= n < 16
    ensures -8 <= r <= 7 && (n - r) % 16 == 0
  {
    if n >= 8 then n - 16 else n
  }

  /**
    The value printed for the element at `dataOffset`: byte `dataOffset / 2`, low
    nibble for an even offset (shifted up to the sign bit, then back down), high
    nibble for an odd one.
  */
  function Int4At(buffer: seq<uint8>, dataOffset: nat): (r: int)
    requires dataOffset / 2 < |buffer|
    ensures -8 <= r <= 7
    ensures var b := buffer[dataOffset / 2] as int;
      r == SignExtend4(if dataOffset % 2 == 0 then b % 16 else b / 16)
  {
    var value := buffer[dataOffset / 2] as int;
    NibbleDecode(value);
    if dataOffset % 2 == 0 then ShiftRight4(ToInt8(value * 16))
    else ShiftRight4(ToInt8(value))
  }

  lemma NibbleDecode(value: int)
    requires 0 <= value < 256
    ensures ShiftRight4(ToInt8(value * 16)) == SignExtend4(value % 16)
    ensures ShiftRight4(ToInt8(value)) == SignExtend4(value / 16)
  {
    LowNibbleDecode(value);
    HighNibbleDecode(value);
  }

  lemma LowNibbleDecode(value: int)
    requires 0 <= value < 256
    ensures ShiftRight4(ToInt8(value * 16)) == SignExtend4(value % 16)
  {
    var h, l := value / 16, value % 16;
    DivModUnique(value * 16, 256, h, 16 * l);
    if l >= 8 {
      DivModUnique(16 * l - 256, 16, l - 16, 0);
    } else {
      DivModUnique(16 * l, 16, l, 0);
    }
  }

  lemma HighNibbleDecode(value: int)
    requires 0 <= value < 256
    ensures ShiftRight4(ToInt8(value)) == SignExtend4(value / 16)
  {
    var h, l := value / 16, value % 16;
    DivModUnique(value, 256, 0, value);
    if value >= 128 {
      DivModUnique(value - 256, 16, h - 16, l);
    }
  }

  predicate AllInt4(values: seq<int>)
  {
    forall j :: 0 <= j < |values| ==> -8 <= values[j] <= 7
  }

  /** The 4-bit two's complement field of a value in [-8, 7]. */
  function Nibble(x: int): (n: int)
    requires -8 <= x <= 7
    ensures 0 <= n < 16 && SignExtend4(n) == x
  {
    x % 16
  }

  /** The packing `dumpInt4Buffer` expects: element `2k` in the low nibble of byte `k`, element `2k + 1` in its high nibble. */
  function PackInt4(values: seq<int>): (buffer: seq<uint8>)
    requires AllInt4(values)
    ensures |buffer| == (|values| + 1) / 2
  {
    seq((|values| + 1) / 2, k requires 0 <= k < (|values| + 1) / 2 =>
      var lo := Nibble(values[2 * k]);
      var hi := if 2 * k + 1 < |values| then Nibble(values[2 * k + 1]) else 0;
      (lo + 16 * hi) as uint8)
  }

  /** Decoding a packed buffer returns every packed value. */
  lemma Int4RoundTrip(values: seq<int>, j: nat)
    requires AllInt4(values) && j < |values|
    ensures j / 2 < |PackInt4(values)| && Int4At(PackInt4(values), j) == values[j]
  {
    var k := j / 2;
    var b := PackInt4(values)[k] as int;
    var lo := Nibble(values[2 * k]);
    var hi := if 2 * k + 1 < |values| then Nibble(values[2 * k + 1]) else 0;
    assert b == lo + 16 * hi;
    assert b % 16 == lo && b / 16 == hi;
  }

  predicate OffsetsInBuffer(buffer: seq<uint8>, dims: Dims, strides: Dims, vectorDim: int, spv: int)
    requires OffsetArgs(dims, strides, vectorDim, spv)
  {
    forall v: nat :: v < Product(dims.d) ==>
      0 <= DataOffset(v, dims, strides, vectorDim, spv) && DataOffset(v, dims, strides, vectorDim, spv) / 2 < |buffer|
  }

  /** The values `dumpInt4Buffer` prints, in order: element `v` is read at its layout offset. */
  function DumpInt4Values(buffer: seq<uint8>, dims: Dims, strides: Dims, vectorDim: int, spv: int): (values: seq<int>)
    requires OffsetArgs(dims, strides, vectorDim, spv)
    requires OffsetsInBuffer(buffer, dims, strides, vectorDim, spv)
    ensures |values| == if Product(dims.d) < 0 then 0 else Product(dims.d)
    ensures AllInt4(values)
  {
    var vol := if Product(dims.d) < 0 then 0 else Product(dims.d);
    seq(vol, v requires 0 <= v < vol => Int4At(buffer, DataOffset(v, dims, strides, vectorDim, spv)))
  }

  /** Dumping a packed dense tensor prints exactly the values that were packed. */
  lemma DumpPackedRoundTrip(values: seq<int>, dims: seq<int>, spv: int)
    requires AllPositive(dims) && |values| == Product(dims) && AllInt4(values)
    ensures OffsetArgs(Dims(dims), Dims(PackedStrides(dims)), -1, spv)
    ensures OffsetsInBuffer(PackInt4(values), Dims(dims), Dims(PackedStrides(dims)), -1, spv)
    ensures DumpInt4Values(PackInt4(values), Dims(dims), Dims(PackedStrides(dims)), -1, spv) == values
  {
    var buffer := PackInt4(values);
    forall v: nat | v < Product(dims)
      ensures DataOffset(v, Dims(dims), Dims(PackedStrides(dims)), -1, spv) == v
      ensures v / 2 < |buffer| && Int4At(buffer, v) == values[v]
    {
      PackedOffsetIsIndex(v, dims, spv);
      Int4RoundTrip(values, v);
    }
  }
}
