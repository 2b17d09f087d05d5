/**
  The weight preparation of the char-RNN sample: TensorFlow keeps the LSTM weights
  of a layer as a `(dataSize + hiddenSize)` x `4 * hiddenSize` matrix (input rows,
  then recurrent rows) and one bias per gate; TensorRT wants each of the two blocks
  transposed, gate-major, and a second, recurrent bias. Elements are of any type `T`.
*/
module CharRnn {
  import opened Arith
  import opened TensorDims
  import opened WeightTransforms

  /** The number of LSTM gates (input, cell, forget, output). */
  const Gates: nat := 4

  /**
    `transposeSubBuffers(data, height, width)`: the leading `height` x `width`
    matrix of `data` is replaced by its transpose; the rest of `data` is kept.
  */
  function TransposeSubBuffers<T>(data: seq<T>, height: nat, width: nat): (r: seq<T>)
    requires height > 0 && width > 0 && height * width <= |data|
    ensures |r| == |data|
    ensures IsTranspose(r[..height * width], data[..height * width], height, width)
    ensures r[height * width..] == data[height * width..]
  {
    var t := Transpose2D(data[..height * width], height, width);
    assert (t + data[height * width..])[..height * width] == t;
    t + data[height * width..]
  }

  lemma Distribute(d: nat, h: nat, w: nat)
    ensures (d + h) * w == d * w + h * w
  {}

  /** The element count of the converted weights of a layer with `dataSize` inputs and `hidden` units. */
  function WeightCount(dataSize: nat, hidden: nat): nat
  {
    (dataSize + hidden) * (Gates * hidden)
  }

  /**
    `convertRNNWeights(orig, dataSize)`: the first `WeightCount` elements, with the
    `dataSize` x `4 * hidden` input block and the `hidden` x `4 * hidden` recurrent
    block that follows it each transposed in place.
  */
  function ConvertRNNWeights<T>(orig: seq<T>, dataSize: nat, hidden: nat): (r: seq<T>)
    requires dataSize > 0 && hidden > 0 && WeightCount(dataSize, hidden) <= |orig|
    ensures |r| == WeightCount(dataSize, hidden)
    ensures dataSize * (Gates * hidden) <= |r|
    ensures IsTranspose(r[..dataSize * (Gates * hidden)], orig[..dataSize * (Gates * hidden)],
                        dataSize, Gates * hidden)
    ensures IsTranspose(r[dataSize * (Gates * hidden)..],
                        orig[dataSize * (Gates * hidden)..WeightCount(dataSize, hidden)],
                        hidden, Gates * hidden)
  {
    var w := Gates * hidden;
    Distribute(dataSize, hidden, w);
    var input := orig[..WeightCount(dataSize, hidden)];
    var a := TransposeSubBuffers(input, dataSize, w);
    var b := TransposeSubBuffers(a[dataSize * w..], hidden, w);
    assert b[..hidden * w] == b;
    assert a[dataSize * w..][..hidden * w] == input[dataSize * w..];
    var r := a[..dataSize * w] + b;
    assert r[..dataSize * w] == a[..dataSize * w];
    assert r[dataSize * w..] == b;
    r
  }

  /** The inverse of `ConvertRNNWeights`: each block transposed back. */
  function UnconvertRNNWeights<T>(conv: seq<T>, dataSize: nat, hidden: nat): (r: seq<T>)
    requires |conv| == WeightCount(dataSize, hidden)
    ensures |r| == |conv|
  {
    var w := Gates * hidden;
    Distribute(dataSize, hidden, w);
    Transpose2D(conv[..dataSize * w], w, dataSize) + Transpose2D(conv[dataSize * w..], w, hidden)
  }

  /** One entry of a transpose. */
  lemma TransposeAt<T>(dst: seq<T>, src: seq<T>, m: nat, n: nat, mi: nat, ni: nat)
    requires IsTranspose(dst, src, m, n) && mi < m && ni < n
    ensures RowMajor(ni, mi, m) < |dst| && RowMajor(mi, ni, n) < |src|
    ensures dst[RowMajor(ni, mi, m)] == src[RowMajor(mi, ni, n)]
  {}

  /** Two matrices that are both the transpose of `src` are equal. */
  lemma TransposeUnique<T>(a: seq<T>, b: seq<T>, src: seq<T>, m: nat, n: nat)
    requires |a| == m * n && |b| == m * n
    requires IsTranspose(a, src, m, n) && IsTranspose(b, src, m, n)
    ensures a == b
  {
    forall idx | 0 <= idx < m * n
      ensures a[idx] == b[idx]
    {
      RowMajorOf(idx, n, m);
      var ni, mi := idx / m, idx % m;
      assert idx == RowMajor(ni, mi, m);
    }
  }

  /** Transposing the blocks back recovers the TensorFlow weights. */
  lemma ConvertRoundTrip<T>(orig: seq<T>, dataSize: nat, hidden: nat)
    requires dataSize > 0 && hidden > 0 && WeightCount(dataSize, hidden) <= |orig|
    ensures UnconvertRNNWeights(ConvertRNNWeights(orig, dataSize, hidden), dataSize, hidden)
            == orig[..WeightCount(dataSize, hidden)]
  {
    var w := Gates * hidden;
    Distribute(dataSize, hidden, w);
    var conv := ConvertRNNWeights(orig, dataSize, hidden);
    var inW := orig[..dataSize * w];
    var inR := orig[dataSize * w..WeightCount(dataSize, hidden)];
    TransposeUnique(conv[..dataSize * w], Transpose2D(inW, dataSize, w), inW, dataSize, w);
    TransposeUnique(conv[dataSize * w..], Transpose2D(inR, hidden, w), inR, hidden, w);
    TransposeInvolution(inW, dataSize, w);
    TransposeInvolution(inR, hidden, w);
    assert orig[..WeightCount(dataSize, hidden)] == inW + inR;
  }

  /**
    The TensorRT layout of the input block: gate `g`, unit `u`, input `i` of the
    converted weights is input row `i`, column `g * hidden + u` of the original.
  */
  lemma ConvertedInputWeight<T>(orig: seq<T>, dataSize: nat, hidden: nat, g: nat, u: nat, i: nat)
    requires dataSize > 0 && hidden > 0 && WeightCount(dataSize, hidden) <= |orig|
    requires g < Gates && u < hidden && i < dataSize
    ensures var conv := ConvertRNNWeights(orig, dataSize, hidden);
      && 0 <= RowMajor(g * hidden + u, i, dataSize) < |conv|
      && 0 <= RowMajor(i, g * hidden + u, Gates * hidden) < |orig|
      && conv[RowMajor(g * hidden + u, i, dataSize)] == orig[RowMajor(i, g * hidden + u, Gates * hidden)]
  {
    var w := Gates * hidden;
    var conv := ConvertRNNWeights(orig, dataSize, hidden);
    RowMajorBound(g, u, Gates, hidden);
    RowMajorBound(g * hidden + u, i, w, dataSize);
    RowMajorBound(i, g * hidden + u, dataSize, w);
    Distribute(dataSize, hidden, w);
    assert conv[..dataSize * w][RowMajor(g * hidden + u, i, dataSize)]
        == orig[..dataSize * w][RowMajor(i, g * hidden + u, w)];
  }

  /**
    The TensorRT layout of the recurrent block: gate `g`, unit `u`, recurrent input
    `j` follows the input block and is recurrent row `j`, column `g * hidden + u`.
  */
  lemma ConvertedRecurrentWeight<T>(orig: seq<T>, dataSize: nat, hidden: nat, g: nat, u: nat, j: nat)
    requires dataSize > 0 && hidden > 0 && WeightCount(dataSize, hidden) <= |orig|
    requires g < Gates && u < hidden && j < hidden
    ensures var off := dataSize * (Gates * hidden);
      var conv := ConvertRNNWeights(orig, dataSize, hidden);
      && 0 <= off + RowMajor(g * hidden + u, j, hidden) < |conv|
      && 0 <= off + RowMajor(j, g * hidden + u, Gates * hidden) < |orig|
      && conv[off + RowMajor(g * hidden + u, j, hidden)] == orig[off + RowMajor(j, g * hidden + u, Gates * hidden)]
  {
    var w := Gates * hidden;
    var off := dataSize * w;
    var conv := ConvertRNNWeights(orig, dataSize, hidden);
    var x := RowMajor(g * hidden + u, j, hidden);
    var y := RowMajor(j, g * hidden + u, w);
    RowMajorBound(g, u, Gates, hidden);
    RowMajorBound(g * hidden + u, j, w, hidden);
    RowMajorBound(j, g * hidden + u, hidden, w);
    Distribute(dataSize, hidden, w);
    TransposeAt(conv[off..], orig[off..WeightCount(dataSize, hidden)], hidden, w, j, g * hidden + u);
    assert conv[off..][x] == conv[off + x];
    assert orig[off..WeightCount(dataSize, hidden)][y] == orig[off + y];
  }

  /**
    `convertRNNBias(input)`: the `4 * hidden` TensorFlow biases, which already
    combine the input and recurrent bias, followed by `4 * hidden` zero recurrent
    biases.
  */
  function ConvertRNNBias<T>(input: seq<T>, hidden: nat, zero: T): (r: seq<T>)
    requires |input| == Gates * hidden
    ensures |r| == 2 * |input|
    ensures r[..|input|] == input
    ensures forall i :: |input| <= i < |r| ==> r[i] == zero
  {
    input + seq(Gates * hidden, _ => zero)
  }

  /** The `extractWeights` lambda: `volume(size)` elements starting at element `volume(start)`. */
  function ExtractWeights<T>(weights: seq<T>, start: Dims, size: Dims): (r: seq<T>)
    requires 0 <= Product(start.d) && 0 <= Product(size.d)
    requires Product(start.d) + Product(size.d) <= |weights|
    ensures |r| == Product(size.d)
    ensures forall i :: 0 <= i < |r| ==> r[i] == weights[Product(start.d) + i]
  {
    weights[Product(start.d)..Product(start.d) + Product(size.d)]
  }

  lemma ProductPair(a: int, b: int)
    ensures Product([a, b]) == a * b
  {
    assert [a, b][..1] == [a];
    ProductSingle(a);
  }

  lemma ProductSingle(a: int)
    ensures Product([a]) == a
  {
    assert [a][..0] == [];
  }

  /**
    The per-layer split of the converted weights: `extractWeights(w, {0}, dimW)` is
    the transposed input block and `extractWeights(w, dimW, dimR)` the transposed
    recurrent block, with `dimW = (4 * hidden, dataSize)` and `dimR = (4 * hidden, hidden)`.
  */
  lemma ExtractLayerWeights<T>(orig: seq<T>, dataSize: nat, hidden: nat)
    requires dataSize > 0 && hidden > 0 && WeightCount(dataSize, hidden) <= |orig|
    ensures var conv := ConvertRNNWeights(orig, dataSize, hidden);
      var dimW := Dims([Gates * hidden, dataSize]);
      var dimR := Dims([Gates * hidden, hidden]);
      && Product(dimW.d) + Product(dimR.d) == |conv|
      && ExtractWeights(conv, Dims([0]), dimW) == Transpose2D(orig[..dataSize * (Gates * hidden)], dataSize, Gates * hidden)
      && ExtractWeights(conv, dimW, dimR)
         == Transpose2D(orig[dataSize * (Gates * hidden)..WeightCount(dataSize, hidden)], hidden, Gates * hidden)
  {
    var w := Gates * hidden;
    var conv := ConvertRNNWeights(orig, dataSize, hidden);
    ProductSingle(0);
    ProductPair(w, dataSize);
    ProductPair(w, hidden);
    Distribute(dataSize, hidden, w);
    var inW := orig[..dataSize * w];
    var inR := orig[dataSize * w..WeightCount(dataSize, hidden)];
    assert ExtractWeights(conv, Dims([0]), Dims([w, dataSize])) == conv[..dataSize * w];
    assert ExtractWeights(conv, Dims([w, dataSize]), Dims([w, hidden])) == conv[dataSize * w..];
    TransposeUnique(conv[..dataSize * w], Transpose2D(inW, dataSize, w), inW, dataSize, w);
    TransposeUnique(conv[dataSize * w..], Transpose2D(inR, hidden, w), inR, hidden, w);
  }

  /**
    The per-layer split of the converted bias: `extractWeights(b, {0}, dimB)` is the
    TensorFlow bias and `extractWeights(b, dimB, dimB)` is all zero, with `dimB = (4 * hidden)`.
  */
  lemma ExtractLayerBias<T>(input: seq<T>, hidden: nat, zero: T)
    requires |input| == Gates * hidden
    ensures var conv := ConvertRNNBias(input, hidden, zero);
      var dimB := Dims([Gates * hidden]);
      && 2 * Product(dimB.d) == |conv|
      && ExtractWeights(conv, Dims([0]), dimB) == input
      && forall i :: 0 <= i < Product(dimB.d) ==> ExtractWeights(conv, dimB, dimB)[i] == zero
  {
    ProductSingle(0);
    ProductSingle(Gates * hidden);
  }
}
