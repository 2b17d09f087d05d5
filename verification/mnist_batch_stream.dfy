/**
  The MNIST batch cursor: a counter of batches read, bounded by `maxBatches`, over
  an in-memory copy of the MNIST images and labels. The images and labels are not
  modelled; the cursor says where batch number `batchCount` starts in each.
*/
module MnistBatchStream {
  import opened Arith
  import opened TensorDims

  /** The shape of one MNIST image: one channel of 28 x 28 pixels. */
  const ImageDims: seq<int> := [1, 28, 28]
  const ImageVolume: nat := 784

  /** The cursor state: `batchCount` is the batch the next call to `Next` reads. */
  datatype Mnist = Mnist(batchSize: int, maxBatches: int, batchCount: int)

  lemma ImageVolumeIsProduct()
    ensures Product(ImageDims) == ImageVolume
  {
    assert ImageDims[..2] == [1, 28];
    assert ImageDims[..2][..1] == [1];
    assert [1][..0] == [];
  }

  /** `reset(firstBatch)` moves the cursor to an arbitrary batch. */
  function Reset(s: Mnist, firstBatch: int): (t: Mnist)
    ensures t.batchCount == firstBatch
    ensures t.batchSize == s.batchSize && t.maxBatches == s.maxBatches
  {
    s.(batchCount := firstBatch)
  }

  /** `next` fails, leaving the cursor alone, once `maxBatches` batches are read. */
  function Next(s: Mnist): (r: (Mnist, bool))
    ensures !r.1 <==> s.batchCount >= s.maxBatches
    ensures r.1 ==> r.0 == s.(batchCount := s.batchCount + 1)
    ensures !r.1 ==> r.0 == s
  {
    if s.batchCount >= s.maxBatches then (s, false)
    else (s.(batchCount := s.batchCount + 1), true)
  }

  /** `skip(skipCount)` moves the cursor by `skipCount` batches, with no bound check. */
  function Skip(s: Mnist, skipCount: int): (t: Mnist)
    ensures t.batchCount - s.batchCount == skipCount
    ensures t.batchSize == s.batchSize && t.maxBatches == s.maxBatches
  {
    s.(batchCount := s.batchCount + skipCount)
  }

  /** `n` calls of `Next`: the final cursor and how many of the calls succeeded. */
  function Run(s: Mnist, n: nat): (Mnist, nat)
    decreases n
  {
    if n == 0 then (s, 0)
    else
      var (t, ok) := Next(s);
      var (u, got) := Run(t, n - 1);
      (u, if ok then got + 1 else got)
  }

  /**
    From a cursor at or below its bound, `n` calls of `Next` read exactly
    `min(n, maxBatches - batchCount)` batches and never pass `maxBatches`.
  */
  lemma {:induction false} RunReadsUpToBound(s: Mnist, n: nat)
    requires s.batchCount <= s.maxBatches
    ensures Run(s, n).1 == Min(n, s.maxBatches - s.batchCount)
    ensures Run(s, n).0.batchCount == s.batchCount + Run(s, n).1 <= s.maxBatches
    ensures Run(s, n).0.maxBatches == s.maxBatches && Run(s, n).0.batchSize == s.batchSize
    decreases n
  {
    if n > 0 {
      RunReadsUpToBound(Next(s).0, n - 1);
    }
  }

  /** Past its bound, the cursor stays where it is and `Next` reads nothing. */
  lemma {:induction false} RunStalled(s: Mnist, n: nat)
    requires s.batchCount >= s.maxBatches
    ensures Run(s, n) == (s, 0)
    decreases n
  {
    if n > 0 {
      RunStalled(s, n - 1);
    }
  }

  /**
    `skip` ignores the bound, and `next` enforces it afterwards: after skipping `k`
    batches, `n` calls of `Next` read what is left below `maxBatches`, and none
    once the skip reached or passed it.
  */
  lemma SkipThenRun(s: Mnist, k: int, n: nat)
    ensures Run(Skip(s, k), n).1 ==
      if s.batchCount + k <= s.maxBatches then Min(n, s.maxBatches - s.batchCount - k) else 0
  {
    if s.batchCount + k <= s.maxBatches {
      RunReadsUpToBound(Skip(s, k), n);
    } else {
      RunStalled(Skip(s, k), n);
    }
  }

  /** After `reset(firstBatch)`, `n` calls of `Next` read the batches from `firstBatch` up to the bound. */
  lemma ResetThenRun(s: Mnist, firstBatch: int, n: nat)
    ensures Run(Reset(s, firstBatch), n).1 ==
      if firstBatch <= s.maxBatches then Min(n, s.maxBatches - firstBatch) else 0
  {
    if firstBatch <= s.maxBatches {
      RunReadsUpToBound(Reset(s, firstBatch), n);
    } else {
      RunStalled(Reset(s, firstBatch), n);
    }
  }

  /** `getBatch`: the element offset of the current batch in the image data. */
  function BatchOffset(s: Mnist): int
  {
    s.batchCount * s.batchSize * Product(ImageDims)
  }

  /** `getLabels`: the element offset of the current batch in the label data. */
  function LabelOffset(s: Mnist): int
  {
    s.batchCount * s.batchSize
  }

  /** `getDims`: the batch size followed by the image shape. */
  function GetDims(s: Mnist): (d: Dims)
    ensures |d.d| == 4 && d.d[0] == s.batchSize && d.d[1..] == ImageDims
    ensures Product(d.d) == s.batchSize * ImageVolume
  {
    var d := Dims([s.batchSize] + ImageDims);
    ProductAppend([s.batchSize], ImageDims);
    ImageVolumeIsProduct();
    assert [s.batchSize][..0] == [];
    d
  }

  /**
    Images and labels stay aligned: the batch's image data starts at the image of
    the label the batch's labels start at, and each successful `Next` moves both
    offsets by one whole batch, which is the element count `GetDims` reports.
  */
  lemma OffsetsAdvance(s: Mnist)
    ensures BatchOffset(s) == LabelOffset(s) * ImageVolume
    ensures Next(s).1 ==> LabelOffset(Next(s).0) == LabelOffset(s) + s.batchSize
    ensures Next(s).1 ==> BatchOffset(Next(s).0) == BatchOffset(s) + Product(GetDims(s).d)
  {
    ImageVolumeIsProduct();
    var c := s.batchCount;
    var b := s.batchSize;
    assert (c + 1) * b == c * b + b;
    assert (c * b + b) * ImageVolume == c * b * ImageVolume + b * ImageVolume;
  }
}
