/**
  Tensor shapes and buffer index arithmetic of the sample utilities: truncating a
  vector to a shape, the format-count check, the strided and vectorised volume of a
  tensor, and the decomposition of a linear element index into a buffer offset.
*/
module TensorDims {
  import opened Wrappers
  import opened Arith

  /** The capacity of `nvinfer1::Dims`. */
  const MaxDims: nat := 8

  /** `nvinfer1::Dims`: `d` holds the `nbDims` used entries of the fixed-size array. */
  datatype Dims = Dims(d: seq<int>)
  {
    predicate Valid()
    {
      |d| <= MaxDims
    }
  }

  /** `toDims`: the longest prefix of `vec` that fits in a shape. */
  function ToDims(vec: seq<int>): (r: Dims)
    ensures r.Valid() && r.d <= vec
    ensures |vec| <= MaxDims ==> r.d == vec
    ensures |vec| > MaxDims ==> |r.d| == MaxDims
  {
    if |vec| <= MaxDims then Dims(vec) else Dims(vec[..MaxDims])
  }

  /** Every shape survives a round trip through its entries. */
  lemma ToDimsRoundTrip(dims: Dims)
    requires dims.Valid()
    ensures ToDims(dims.d) == dims
  {}

  /** The two errors `broadcastIOFormats` throws, one per direction. */
  datatype FormatCountError = InputFormatCountMismatch | OutputFormatCountMismatch

  /**
    `broadcastIOFormats`: no formats, one format for every binding, or exactly one
    format per binding; the result says whether the single format is broadcast.
  */
  function BroadcastIOFormats<F>(formats: seq<F>, nbBindings: nat, isInput: bool): (r: Result<bool, FormatCountError>)
    ensures r.Success? <==> |formats| == 0 || |formats| == 1 || |formats| == nbBindings
    ensures r.Success? ==> (r.value <==> |formats| == 1)
    ensures r.Failure? ==> r.error == (if isInput then InputFormatCountMismatch else OutputFormatCountMismatch)
  {
    var broadcast := |formats| == 1;
    var validFormatsCount := broadcast || |formats| == nbBindings;
    if |formats| != 0 && !validFormatsCount then
      Failure(if isInput then InputFormatCountMismatch else OutputFormatCountMismatch)
    else
      Success(broadcast)
  }

  predicate AllPositive(d: seq<int>)
  {
    forall i :: 0 <= i < |d| ==> d[i] > 0
  }

  /** The element count of a dense tensor: the product of its dimensions. */
  function Product(d: seq<int>): int
  {
    if |d| == 0 then 1 else Product(d[..|d| - 1]) * d[|d| - 1]
  }

  lemma {:induction false} ProductPositive(d: seq<int>)
    requires AllPositive(d)
    ensures Product(d) >= 1
  {
    if |d| > 0 {
      ProductPositive(d[..|d| - 1]);
      MulMonotone(1, Product(d[..|d| - 1]), d[|d| - 1]);
    }
  }

  lemma {:induction false} ProductAppend(a: seq<int>, b: seq<int>)
    ensures Product(a + b) == Product(a) * Product(b)
  {
    if |b| > 0 {
      var b' := b[..|b| - 1];
      assert (a + b)[..|a + b| - 1] == a + b';
      ProductAppend(a, b');
      assert Product(a + b) == Product(a) * Product(b') * b[|b| - 1];
    } else {
      assert a + b == a;
    }
  }

  /** `samplesCommon::divUp`: `(x + n - 1) / n` with C++ truncating division; the ceiling for positive `x`. */
  function DivUp(x: int, n: int): (r: int)
    requires n > 0
    ensures x > 0 ==> r >= 1 && (r - 1) * n < x <= r * n
  {
    var q := TruncDiv(x + n - 1, n);
    CeilingBounds(x, n, q);
    q
  }

  lemma CeilingBounds(x: int, n: int, q: int)
    requires n > 0
    requires x + n - 1 >= 0 ==> q * n <= x + n - 1 < (q + 1) * n
    ensures x > 0 ==> q >= 1 && (q - 1) * n < x <= q * n
  {
    if x > 0 {
      assert (q - 1) * n == q * n - n;
      assert (q + 1) * n == q * n + n;
      PositiveFactor(n, q);
    }
  }

  /** The length of axis `i` as `volume` counts it: whole vectors of `comps` components on the vectorised axis. */
  function AxisLength(dims: seq<int>, i: nat, vecDim: int, comps: int): int
    requires i < |dims| && (i == vecDim ==> comps > 0)
  {
    if i == vecDim then DivUp(dims[i], comps) else dims[i]
  }

  /** The buffer span axis `i` covers: its effective length times its stride. */
  function Extent(dims: seq<int>, strides: seq<int>, i: nat, vecDim: int, comps: int): int
    requires i < |dims| <= |strides| && (i == vecDim ==> comps > 0)
  {
    AxisLength(dims, i, vecDim, comps) * strides[i]
  }

  /** The largest span over the first `k` axes, and at least 1. */
  function MaxExtent(dims: seq<int>, strides: seq<int>, vecDim: int, comps: int, k: nat): (m: int)
    requires k <= |dims| <= |strides| && (0 <= vecDim < |dims| ==> comps > 0)
    ensures m >= 1
    ensures forall i :: 0 <= i < k ==> Extent(dims, strides, i, vecDim, comps) <= m
    ensures m == 1 || exists i :: 0 <= i < k && m == Extent(dims, strides, i, vecDim, comps)
  {
    if k == 0 then 1
    else Max(MaxExtent(dims, strides, vecDim, comps, k - 1), Extent(dims, strides, k - 1, vecDim, comps))
  }

  /**
    `volume(dims, strides, vecDim, comps, batch)`: zero for an empty tensor, otherwise
    the largest axis span (at least 1) times the batch, times the vector width when
    some axis is vectorised.
  */
  method Volume(dims: Dims, strides: Dims, vecDim: int, comps: int, batch: int) returns (vol: int)
    requires |dims.d| <= |strides.d|
    requires 0 <= vecDim < |dims.d| ==> comps > 0
    ensures 0 in dims.d ==> vol == 0
    ensures 0 !in dims.d ==>
      vol == MaxExtent(dims.d, strides.d, vecDim, comps, |dims.d|) * batch * (if vecDim < 0 then 1 else comps)
  {
    var maxNbElems := 1;
    var i := 0;
    while i < |dims.d|
      invariant 0 <= i <= |dims.d|
      invariant 0 !in dims.d[..i]
      invariant maxNbElems == MaxExtent(dims.d, strides.d, vecDim, comps, i)
    {
      var d := dims.d[i];
      if d == 0 {
        assert 0 in dims.d;
        return 0;
      }
      if i == vecDim {
        d := DivUp(d, comps);
      }
      assert d * strides.d[i] == Extent(dims.d, strides.d, i, vecDim, comps);
      maxNbElems := Max(maxNbElems, d * strides.d[i]);
      assert dims.d[..i + 1] == dims.d[..i] + [dims.d[i]];
      i := i + 1;
    }
    assert dims.d[..i] == dims.d;
    vol := maxNbElems * batch * (if vecDim < 0 then 1 else comps);
  }

  /** The row-major strides of a dense tensor: each axis steps over the product of the axes after it. */
  function PackedStrides(dims: seq<int>): (s: seq<int>)
    ensures |s| == |dims|
  {
    seq(|dims|, i requires 0 <= i < |dims| => Product(dims[i + 1..]))
  }

  /** With dense strides and no vectorisation, the volume is the element count of the tensor. */
  lemma PackedMaxExtent(dims: seq<int>, comps: int)
    requires AllPositive(dims)
    ensures MaxExtent(dims, PackedStrides(dims), -1, comps, |dims|) == Product(dims)
  {
    var strides := PackedStrides(dims);
    ProductPositive(dims);
    if |dims| > 0 {
      forall i | 0 <= i < |dims|
        ensures Extent(dims, strides, i, -1, comps) <= Product(dims)
      {
        SuffixProduct(dims, i, comps);
        SuffixBound(dims, i);
      }
      SuffixProduct(dims, 0, comps);
      assert dims[0..] == dims;
    }
  }

  /** The packed stride of axis `i` times its length is the product of the axes from `i` on. */
  lemma SuffixProduct(dims: seq<int>, i: nat, comps: int)
    requires i < |dims|
    ensures Extent(dims, PackedStrides(dims), i, -1, comps) == Product(dims[i..])
  {
    assert dims[i..] == [dims[i]] + dims[i + 1..];
    ProductAppend([dims[i]], dims[i + 1..]);
    assert Product([dims[i]]) == dims[i] by {
      assert [dims[i]][..0] == [];
    }
  }

  /** With positive dimensions, a suffix has at most as many elements as the whole. */
  lemma SuffixBound(dims: seq<int>, i: nat)
    requires AllPositive(dims) && i < |dims|
    ensures Product(dims[i..]) <= Product(dims)
  {
    assert dims == dims[..i] + dims[i..];
    ProductAppend(dims[..i], dims[i..]);
    assert AllPositive(dims[..i]) && AllPositive(dims[i..]) by {
      assert forall j :: 0 <= j < i ==> dims[..i][j] == dims[j];
      assert forall j :: 0 <= j < |dims| - i ==> dims[i..][j] == dims[i + j];
    }
    ProductPositive(dims[..i]);
    ProductPositive(dims[i..]);
    MulMonotone(1, Product(dims[..i]), Product(dims[i..]));
  }

  /** The mixed-radix digits of `v` in the radices `dims`, least significant last (the loop's `v % d`, `v /= d`). */
  function Coords(v: nat, dims: seq<int>): (c: seq<nat>)
    requires AllPositive(dims)
    ensures |c| == |dims|
    ensures forall i :: 0 <= i < |dims| ==> c[i] < dims[i]
    decreases |dims|
  {
    if |dims| == 0 then []
    else
      var last := dims[|dims| - 1];
      DivBounds(v, last);
      var init := Coords(v / last, dims[..|dims| - 1]);
      init + [v % last]
  }

  /** The linear index with the given digits: the inverse of `Coords`. */
  function Compose(c: seq<nat>, dims: seq<int>): int
    requires |c| == |dims|
  {
    if |c| == 0 then 0
    else Compose(c[..|c| - 1], dims[..|dims| - 1]) * dims[|dims| - 1] + c[|c| - 1]
  }

  /** Decomposing an index into digits and composing them back gives the index. */
  lemma {:induction false} ComposeCoords(v: nat, dims: seq<int>)
    requires AllPositive(dims) && v < Product(dims)
    ensures Compose(Coords(v, dims), dims) == v
    decreases |dims|
  {
    if |dims| > 0 {
      var last := dims[|dims| - 1];
      var init := dims[..|dims| - 1];
      DivBounds(v, last);
      var q: nat := v / last;
      MulStrictInverse(q, Product(init), last);
      ComposeCoords(q, init);
      var c := Coords(v, dims);
      assert c == Coords(q, init) + [v % last];
      assert c[..|c| - 1] == Coords(q, init);
      assert Compose(c, dims) == q * last + v % last;
    }
  }

  /** Every digit tuple below the radices is the decomposition of exactly one index below the product. */
  lemma {:induction false} CoordsCompose(c: seq<nat>, dims: seq<int>)
    requires AllPositive(dims) && |c| == |dims|
    requires forall i :: 0 <= i < |c| ==> c[i] < dims[i]
    ensures 0 <= Compose(c, dims) < Product(dims)
    ensures Coords(Compose(c, dims), dims) == c
  {
    if |c| > 0 {
      var n := |c|;
      var c', init, last := c[..n - 1], dims[..n - 1], dims[n - 1];
      CoordsCompose(c', init);
      var x := Compose(c', init);
      var v := Compose(c, dims);
      assert v == x * last + c[n - 1];
      DigitAppend(x, c[n - 1], Product(init), last);
      assert Coords(v, dims) == Coords(x, init) + [c[n - 1]];
      assert c == c' + [c[n - 1]];
    }
  }

  /** Appending a digit below `last` to an index below `p` gives an index below `p * last` that division recovers. */
  lemma DigitAppend(x: int, d: int, p: int, last: int)
    requires 0 <= x < p && 0 <= d < last
    ensures 0 <= x * last + d < p * last
    ensures (x * last + d) / last == x && (x * last + d) % last == d
  {
    RowMajorBound(x, d, p, last);
    RowMajorSplit(x, d, last);
  }

  /** The offset contribution of digit `c` on axis `i`, vectorised when `i` is the vector axis. */
  function OffsetTerm(c: nat, i: nat, stride: int, vectorDim: int, spv: int): int
    requires i == vectorDim ==> spv > 0
  {
    if i == vectorDim then (c / spv) * stride * spv + c % spv
    else c * stride * (if vectorDim == -1 then 1 else spv)
  }

  /** The sum of the offset contributions of the digits `c`, axis by axis. */
  function WeightedSum(c: seq<nat>, strides: seq<int>, vectorDim: int, spv: int): int
    requires |c| <= |strides| && (0 <= vectorDim < |c| ==> spv > 0)
  {
    if |c| == 0 then 0
    else
      WeightedSum(c[..|c| - 1], strides, vectorDim, spv)
      + OffsetTerm(c[|c| - 1], |c| - 1, strides[|c| - 1], vectorDim, spv)
  }

  predicate OffsetArgs(dims: Dims, strides: Dims, vectorDim: int, spv: int)
  {
    AllPositive(dims.d) && |dims.d| <= |strides.d| && (0 <= vectorDim < |dims.d| ==> spv > 0)
  }

  /** The buffer offset of the `v`-th element: the weighted sum of its digits in the shape. */
  function DataOffset(v: nat, dims: Dims, strides: Dims, vectorDim: int, spv: int): int
    requires OffsetArgs(dims, strides, vectorDim, spv)
  {
    WeightedSum(Coords(v, dims.d), strides.d, vectorDim, spv)
  }

  /** `dataOffsetFromDims`: peel digits off `v` from the innermost axis outwards, accumulating their offsets. */
  method DataOffsetFromDims(v: nat, dims: Dims, strides: Dims, vectorDim: int, spv: int) returns (dataOffset: int)
    requires OffsetArgs(dims, strides, vectorDim, spv)
    ensures dataOffset == DataOffset(v, dims, strides, vectorDim, spv)
  {
    dataOffset := 0;
    var rest: nat := v;
    var dimIndex := |dims.d| - 1;
    assert dims.d[..dimIndex + 1] == dims.d;
    while dimIndex >= 0
      invariant -1 <= dimIndex < |dims.d|
      invariant dataOffset + WeightedSum(Coords(rest, dims.d[..dimIndex + 1]), strides.d, vectorDim, spv)
                == DataOffset(v, dims, strides, vectorDim, spv)
    {
      var d := dims.d[dimIndex];
      var dimVal := rest % d;
      DigitStep(rest, dims.d, dimIndex, strides.d, vectorDim, spv);
      if dimIndex == vectorDim {
        dataOffset := dataOffset + (dimVal / spv) * strides.d[dimIndex] * spv + dimVal % spv;
      } else {
        dataOffset := dataOffset + dimVal * strides.d[dimIndex] * (if vectorDim == -1 then 1 else spv);
      }
      rest := rest / d;
      dimIndex := dimIndex - 1;
    }
  }

  /** One iteration of the loop: the innermost remaining digit contributes its term, the quotient the rest. */
  lemma DigitStep(rest: nat, dims: seq<int>, k: nat, strides: seq<int>, vectorDim: int, spv: int)
    requires AllPositive(dims) && k < |dims| <= |strides| && (0 <= vectorDim < |dims| ==> spv > 0)
    ensures rest / dims[k] >= 0
    ensures WeightedSum(Coords(rest, dims[..k + 1]), strides, vectorDim, spv)
            == WeightedSum(Coords(rest / dims[k], dims[..k]), strides, vectorDim, spv)
               + OffsetTerm(rest % dims[k], k, strides[k], vectorDim, spv)
  {
    DivBounds(rest, dims[k]);
    assert dims[..k + 1][..k] == dims[..k];
    var c := Coords(rest, dims[..k + 1]);
    assert c == Coords(rest / dims[k], dims[..k]) + [rest % dims[k]];
    assert c[..k] == Coords(rest / dims[k], dims[..k]);
  }

  lemma {:induction false} CoordsOfZero(dims: seq<int>)
    requires AllPositive(dims)
    ensures forall i :: 0 <= i < |dims| ==> Coords(0, dims)[i] == 0
  {
    if |dims| > 0 {
      CoordsOfZero(dims[..|dims| - 1]);
    }
  }

  lemma {:induction false} WeightedSumOfZeros(c: seq<nat>, strides: seq<int>, vectorDim: int, spv: int)
    requires |c| <= |strides| && (0 <= vectorDim < |c| ==> spv > 0)
    requires forall i :: 0 <= i < |c| ==> c[i] == 0
    ensures WeightedSum(c, strides, vectorDim, spv) == 0
  {
    if |c| > 0 {
      WeightedSumOfZeros(c[..|c| - 1], strides, vectorDim, spv);
    }
  }

  /** The first element of every layout sits at offset 0. */
  lemma DataOffsetOfZero(dims: Dims, strides: Dims, vectorDim: int, spv: int)
    requires OffsetArgs(dims, strides, vectorDim, spv)
    ensures DataOffset(0, dims, strides, vectorDim, spv) == 0
  {
    CoordsOfZero(dims.d);
    WeightedSumOfZeros(Coords(0, dims.d), strides.d, vectorDim, spv);
  }

  lemma {:induction false} WeightedSumScaled(c: seq<nat>, s: seq<int>, t: seq<int>, k: int, spv: int)
    requires |c| <= |s| && |c| <= |t|
    requires forall i :: 0 <= i < |c| ==> s[i] == t[i] * k
    ensures WeightedSum(c, s, -1, spv) == WeightedSum(c, t, -1, spv) * k
  {
    if |c| > 0 {
      var n := |c|;
      WeightedSumScaled(c[..n - 1], s, t, k, spv);
      assert c[n - 1] * s[n - 1] == (c[n - 1] * t[n - 1]) * k;
    }
  }

  lemma {:induction false} WeightedSumPacked(c: seq<nat>, dims: seq<int>, spv: int)
    requires |c| == |dims|
    ensures WeightedSum(c, PackedStrides(dims), -1, spv) == Compose(c, dims)
  {
    if |c| > 0 {
      var n := |c|;
      var init, last := dims[..n - 1], dims[n - 1];
      WeightedSumPacked(c[..n - 1], init, spv);
      PackedStridesInit(dims);
      WeightedSumScaled(c[..n - 1], PackedStrides(dims), PackedStrides(init), last, spv);
    }
  }

  /** Dropping the last axis divides every remaining dense stride by that axis's size. */
  lemma PackedStridesInit(dims: seq<int>)
    requires |dims| > 0
    ensures forall i :: 0 <= i < |dims| - 1 ==>
      PackedStrides(dims)[i] == PackedStrides(dims[..|dims| - 1])[i] * dims[|dims| - 1]
    ensures PackedStrides(dims)[|dims| - 1] == 1
  {
    var n := |dims|;
    var init := dims[..n - 1];
    forall i | 0 <= i < n - 1
      ensures PackedStrides(dims)[i] == PackedStrides(init)[i] * dims[n - 1]
    {
      assert dims[i + 1..][..|dims[i + 1..]| - 1] == init[i + 1..];
    }
    assert dims[n..] == [];
  }

  /** With dense row-major strides and no vectorisation, the `v`-th element sits at offset `v`. */
  lemma PackedOffsetIsIndex(v: nat, dims: seq<int>, spv: int)
    requires AllPositive(dims) && v < Product(dims)
    ensures DataOffset(v, Dims(dims), Dims(PackedStrides(dims)), -1, spv) == v
  {
    WeightedSumPacked(Coords(v, dims), dims, spv);
    ComposeCoords(v, dims);
  }
}
