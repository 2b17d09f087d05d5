/**
  The file-backed batch cursor. Calibration data comes in numbered batch files of
  `d0` samples each; `next` assembles batches of `batchSize` samples by copying
  chunks out of the current file buffer, refilling the buffer from the next file
  whenever it is exhausted.

  A sample `S` stands for one image together with its label: the source copies the
  two in lockstep, `csize` images and `csize` labels per chunk. Batch file number
  `i` is `files[i]`; reading a file that does not exist fails.
*/
module BatchStream {
  import opened Arith

  datatype Cursor<S> = Cursor(
    batchSize: int,
    maxBatches: int,
    d0: int,          // samples per batch file, the first dimension of the input
    batchCount: int,  // batches read so far
    fileCount: int,   // number of the next batch file to read
    filePos: int,     // next unread sample of the file buffer
    fileBatch: seq<S>,
    batch: seq<S>)

  predicate FilesShaped<S>(files: seq<seq<S>>, d0: int)
  {
    forall i :: 0 <= i < |files| ==> |files[i]| == d0
  }

  /**
    What the constructor and the dimension check on every file establish: positive
    file batches, buffers of the allocated sizes, and files of one shape.
  */
  predicate Shaped<S>(files: seq<seq<S>>, s: Cursor<S>)
  {
    && s.d0 > 0
    && s.batchSize >= 0
    && |s.batch| == s.batchSize
    && |s.fileBatch| == s.d0
    && FilesShaped(files, s.d0)
  }

  /** The position check `next` asserts at the top of every copy step. */
  predicate Ready<S>(s: Cursor<S>)
  {
    0 < s.filePos <= s.d0
  }

  /** A cursor in the middle of a file holds that file, the last one read. */
  ghost predicate Coherent<S>(files: seq<seq<S>>, s: Cursor<S>)
  {
    && Shaped(files, s)
    && Ready(s)
    && (s.filePos < s.d0 ==> 1 <= s.fileCount <= |files| && s.fileBatch == files[s.fileCount - 1])
  }

  /**
    `update`: the file number is advanced whether or not the file can be read;
    a read file replaces the buffer and rewinds the position.
  */
  function Update<S>(files: seq<seq<S>>, s: Cursor<S>): (r: (Cursor<S>, bool))
    requires Shaped(files, s)
    ensures Shaped(files, r.0) && r.0.fileCount == s.fileCount + 1
    ensures r.1 <==> 0 <= s.fileCount < |files|
    ensures r.1 ==> r.0 == s.(fileCount := s.fileCount + 1, fileBatch := files[s.fileCount], filePos := 0)
    ensures !r.1 ==> r.0 == s.(fileCount := s.fileCount + 1)
  {
    var fc := s.fileCount;
    var s' := s.(fileCount := fc + 1);
    if 0 <= fc < |files| then (s'.(fileBatch := files[fc], filePos := 0), true)
    else (s', false)
  }

  /** The refill at the top of a copy step: only an exhausted buffer is refilled. */
  function Refill<S>(files: seq<seq<S>>, s: Cursor<S>): (r: (Cursor<S>, bool))
    requires Shaped(files, s) && Ready(s)
    ensures Shaped(files, r.0) && 0 <= r.0.filePos <= r.0.d0
    ensures r.1 ==> r.0.filePos < r.0.d0
    ensures !r.1 ==> Ready(r.0)
    ensures r.0.batch == s.batch && r.0.batchCount == s.batchCount
    ensures r.0.batchSize == s.batchSize && r.0.maxBatches == s.maxBatches && r.0.d0 == s.d0
  {
    if s.filePos == s.d0 then Update(files, s) else (s, true)
  }

  /** How many samples a copy step moves: as many as both the batch and the buffer have left. */
  function ChunkSize<S>(s: Cursor<S>, bp: int): int
  {
    Min(s.batchSize - bp, s.d0 - s.filePos)
  }

  /** The copy of one chunk from the buffer into the batch at position `bp`. */
  function CopyChunk<S>(s: Cursor<S>, bp: int): (t: Cursor<S>)
    requires |s.batch| == s.batchSize && |s.fileBatch| == s.d0
    requires 0 <= s.filePos < s.d0 && 0 <= bp < s.batchSize
    ensures 0 < ChunkSize(s, bp) && t.filePos == s.filePos + ChunkSize(s, bp) <= s.d0
    ensures t == s.(filePos := t.filePos, batch := t.batch)
    ensures |t.batch| == |s.batch|
  {
    var c := ChunkSize(s, bp);
    s.(filePos := s.filePos + c, batch := s.batch[..bp] + s.fileBatch[s.filePos .. s.filePos + c] + s.batch[bp + c..])
  }

  /**
    The copy loop of `next` from batch position `bp`: refill an exhausted buffer,
    then copy as many samples as both the batch and the buffer have room for.
  */
  function Fill<S>(files: seq<seq<S>>, s: Cursor<S>, bp: int): (r: (Cursor<S>, bool))
    requires Shaped(files, s) && Ready(s) && 0 <= bp <= s.batchSize
    ensures Shaped(files, r.0) && Ready(r.0)
    ensures r.0.batchSize == s.batchSize && r.0.maxBatches == s.maxBatches
    ensures r.0.batchCount == s.batchCount && r.0.d0 == s.d0
    decreases s.batchSize - bp
  {
    if bp == s.batchSize then (s, true)
    else
      var (u, ok) := Refill(files, s);
      if !ok then (u, false)
      else Fill(files, CopyChunk(u, bp), bp + ChunkSize(u, bp))
  }

  /** `next`: no batch once `maxBatches` are read; a batch is counted only when complete. */
  function Next<S>(files: seq<seq<S>>, s: Cursor<S>): (r: (Cursor<S>, bool))
    requires Shaped(files, s) && Ready(s)
    ensures Shaped(files, r.0) && Ready(r.0)
    ensures r.0.batchSize == s.batchSize && r.0.maxBatches == s.maxBatches && r.0.d0 == s.d0
    ensures r.0.batchCount == if r.1 then s.batchCount + 1 else s.batchCount
    ensures s.batchCount == s.maxBatches ==> r == (s, false)
  {
    if s.batchCount == s.maxBatches then (s, false)
    else
      var (t, ok) := Fill(files, s, 0);
      if ok then (t.(batchCount := t.batchCount + 1), true) else (t, false)
  }

  /** The files concatenated: the sample stream the batches are cut from. */
  function Flat<S>(files: seq<seq<S>>): seq<S>
  {
    if |files| == 0 then [] else files[0] + Flat(files[1..])
  }

  /** How many samples of the stream precede the next one `next` copies. */
  function Consumed<S>(s: Cursor<S>): int
  {
    RowMajor(s.fileCount - 1, s.filePos, s.d0)
  }

  lemma FilesShapedRest<S>(files: seq<seq<S>>, d0: int)
    requires |files| > 0 && FilesShaped(files, d0)
    ensures FilesShaped(files[1..], d0)
  {
    forall j | 0 <= j < |files| - 1 ensures |files[1..][j]| == d0 {
      assert files[1..][j] == files[j + 1];
    }
  }

  /** The stream holds `d0` samples per file. */
  lemma {:induction false} FlatLength<S>(files: seq<seq<S>>, d0: int)
    requires d0 > 0 && FilesShaped(files, d0)
    ensures |Flat(files)| == |files| * d0
    decreases |files|
  {
    if |files| > 0 {
      FilesShapedRest(files, d0);
      FlatLength(files[1..], d0);
      MulAdd(|files| - 1, 1, d0);
    }
  }

  /** File `i` sits at samples `[i * d0, (i + 1) * d0)` of the stream. */
  lemma {:induction false} FlatSlice<S>(files: seq<seq<S>>, d0: int, i: nat)
    requires d0 > 0 && FilesShaped(files, d0) && i < |files|
    ensures 0 <= i * d0 && i * d0 + d0 <= |Flat(files)|
    ensures Flat(files)[i * d0 .. i * d0 + d0] == files[i]
    decreases |files|
  {
    var rest := files[1..];
    FilesShapedRest(files, d0);
    FlatLength(rest, d0);
    if i > 0 {
      FlatSlice(rest, d0, i - 1);
      var k := (i - 1) * d0;
      MulAdd(i - 1, 1, d0);
      assert rest[i - 1] == files[i];
      assert Flat(files)[d0 + k .. d0 + k + d0] == Flat(rest)[k .. k + d0];
    }
  }

  /** Samples `[pos, pos + n)` of file `i` are samples `i * d0 + pos` onward of the stream. */
  lemma ChunkOfStream<S>(files: seq<seq<S>>, d0: int, i: nat, pos: int, n: int)
    requires d0 > 0 && FilesShaped(files, d0) && i < |files|
    requires 0 <= pos && 0 <= n && pos + n <= d0
    ensures 0 <= i * d0 + pos && i * d0 + pos + n <= |Flat(files)|
    ensures Flat(files)[i * d0 + pos .. i * d0 + pos + n] == files[i][pos .. pos + n]
  {
    FlatSlice(files, d0, i);
    SubSlice(Flat(files), i * d0, d0, pos, n);
  }

  lemma SubSlice<S>(f: seq<S>, start: int, len: int, pos: int, n: int)
    requires 0 <= start && start + len <= |f| && 0 <= pos && 0 <= n && pos + n <= len
    ensures f[start .. start + len][pos .. pos + n] == f[start + pos .. start + pos + n]
  {
    var a := f[start .. start + len][pos .. pos + n];
    var b := f[start + pos .. start + pos + n];
    forall k | 0 <= k < n ensures a[k] == b[k] {
      assert a[k] == f[start + pos + k];
    }
  }

  /**
    A refill that succeeds keeps the stream position and leaves the buffer holding
    the file the position is in; it fails exactly when that file does not exist.
  */
  lemma RefillStep<S>(files: seq<seq<S>>, s: Cursor<S>)
    requires Coherent(files, s)
    ensures var (u, ok) := Refill(files, s);
      && (ok <==> s.filePos < s.d0 || 0 <= s.fileCount < |files|)
      && (ok ==> 1 <= u.fileCount <= |files| && u.fileBatch == files[u.fileCount - 1])
      && (ok ==> Consumed(u) == Consumed(s))
      && (!ok ==> Coherent(files, u))
  {
    if s.filePos == s.d0 {
      ConsumedAtEnd(s);
    }
  }

  /** At the end of a buffer, the stream position is a whole number of files. */
  lemma ConsumedAtEnd<S>(s: Cursor<S>)
    requires s.filePos == s.d0
    ensures Consumed(s) == s.fileCount * s.d0
  {
    MulAdd(s.fileCount - 1, 1, s.d0);
  }

  /** A cursor at a non-negative stream position has read no file with a negative number. */
  lemma FileCountOf<S>(s: Cursor<S>)
    requires Ready(s) && 0 <= Consumed(s)
    ensures 0 <= s.fileCount
  {
    if s.fileCount < 0 {
      MulMonotone(s.fileCount - 1, -2, s.d0);
    }
  }

  /** A copy step takes the next `ChunkSize` samples of the stream. */
  lemma CopyStep<S>(files: seq<seq<S>>, u: Cursor<S>, bp: int)
    requires Shaped(files, u) && 0 <= u.filePos < u.d0 && 0 <= bp < u.batchSize
    requires 1 <= u.fileCount <= |files| && u.fileBatch == files[u.fileCount - 1]
    ensures var t := CopyChunk(u, bp);
      && Coherent(files, t)
      && Consumed(t) == Consumed(u) + ChunkSize(u, bp)
      && 0 <= Consumed(u) && Consumed(t) <= |Flat(files)|
      && t.batch[..bp + ChunkSize(u, bp)] == u.batch[..bp] + Flat(files)[Consumed(u) .. Consumed(t)]
  {
    var c := ChunkSize(u, bp);
    ChunkOfStream(files, u.d0, u.fileCount - 1, u.filePos, c);
    SplicePrefix(u.batch, bp, u.fileBatch[u.filePos .. u.filePos + c]);
  }

  /** Writing `chunk` over a sequence at `bp` leaves the sequence's prefix followed by the chunk. */
  lemma SplicePrefix<S>(a: seq<S>, bp: int, chunk: seq<S>)
    requires 0 <= bp && bp + |chunk| <= |a|
    ensures (a[..bp] + chunk + a[bp + |chunk|..])[..bp + |chunk|] == a[..bp] + chunk
  {
  }

  /** The copy loop succeeds exactly when the stream still holds the samples the batch lacks. */
  lemma {:induction false} FillSucceeds<S>(files: seq<seq<S>>, s: Cursor<S>, bp: int)
    requires Coherent(files, s) && 0 <= bp <= s.batchSize
    ensures Fill(files, s, bp).1 <==>
      bp == s.batchSize || (0 <= s.fileCount && Consumed(s) + (s.batchSize - bp) <= |Flat(files)|)
    decreases s.batchSize - bp
  {
    if bp < s.batchSize {
      if !Refill(files, s).1 {
        RefillStep(files, s);
        if 0 <= s.fileCount {
          FlatLength(files, s.d0);
          ConsumedAtEnd(s);
          MulMonotone(|files|, s.fileCount, s.d0);
        }
      } else {
        var v, c := FillStep(files, s, bp);
        FillSucceeds(files, v, bp + c);
      }
    }
  }

  /**
    A successful copy loop fills the rest of the batch with the next samples of
    the stream and advances the stream position by as many.
  */
  lemma {:induction false} FillWindow<S>(files: seq<seq<S>>, s: Cursor<S>, bp: int)
    requires Coherent(files, s) && 0 <= bp <= s.batchSize
    requires Fill(files, s, bp).1
    ensures var t := Fill(files, s, bp).0;
      && Consumed(t) == Consumed(s) + (s.batchSize - bp)
      && (bp < s.batchSize ==>
            && 0 <= Consumed(s) <= Consumed(t) <= |Flat(files)|
            && t.batch == s.batch[..bp] + Flat(files)[Consumed(s) .. Consumed(t)])
    decreases s.batchSize - bp
  {
    if bp < s.batchSize {
      var v, c := FillStep(files, s, bp);
      if bp + c == s.batchSize {
        assert Fill(files, v, bp + c) == (v, true);
        assert v.batch[..bp + c] == v.batch;
      } else {
        FillWindow(files, v, bp + c);
        var t := Fill(files, v, bp + c).0;
        var F, i, j, k := Flat(files), Consumed(s), Consumed(v), Consumed(t);
        assert 0 <= i <= j;
        assert j <= k;
        assert k <= |F|;
        assert t.batch == v.batch[..bp + c] + F[j .. k];
        JoinWindows(s.batch[..bp], v.batch[..bp + c], t.batch, Flat(files), Consumed(s), Consumed(v), Consumed(t));
      }
    }
  }

  /**
    One successful step of the copy loop, a refill if needed and a chunk copy:
    it moves `c` samples, the next `c` of the stream, and leaves the cursor coherent.
  */
  lemma FillStep<S>(files: seq<seq<S>>, s: Cursor<S>, bp: int) returns (v: Cursor<S>, c: int)
    requires Coherent(files, s) && 0 <= bp < s.batchSize
    requires Refill(files, s).1
    ensures Coherent(files, v) && v.batchSize == s.batchSize && 0 < c && bp + c <= s.batchSize
    ensures 0 <= s.fileCount && 1 <= v.fileCount
    ensures Fill(files, s, bp) == Fill(files, v, bp + c)
    ensures Consumed(v) == Consumed(s) + c && 0 <= Consumed(s) && Consumed(v) <= |Flat(files)|
    ensures v.batch[..bp + c] == s.batch[..bp] + Flat(files)[Consumed(s) .. Consumed(v)]
  {
    var u := Refill(files, s).0;
    RefillStep(files, s);
    CopyStep(files, u, bp);
    v := CopyChunk(u, bp);
    c := ChunkSize(u, bp);
    assert Refill(files, s) == (u, true);
    assert Fill(files, s, bp) == Fill(files, v, bp + c);
  }

  /** Two adjacent windows of a sequence, appended to a prefix in turn, make one window. */
  lemma JoinWindows<S>(prefix: seq<S>, mid: seq<S>, whole: seq<S>, F: seq<S>, i: int, j: int, k: int)
    requires 0 <= i <= j <= k <= |F|
    requires mid == prefix + F[i .. j] && whole == mid + F[j .. k]
    ensures whole == prefix + F[i .. k]
  {
    assert F[i .. j] + F[j .. k] == F[i .. k];
  }

  /**
    Successive successful `next` calls cut consecutive `batchSize`-sample windows
    out of the concatenated files: each batch starts where the previous one ended.
  */
  lemma NextWindow<S>(files: seq<seq<S>>, s: Cursor<S>)
    requires Coherent(files, s)
    ensures Next(files, s).1 <==>
      s.batchCount != s.maxBatches
      && (s.batchSize == 0 || (0 <= s.fileCount && Consumed(s) + s.batchSize <= |Flat(files)|))
    ensures var t := Next(files, s).0;
      && Coherent(files, t)
      && (Next(files, s).1 ==> Consumed(t) == Consumed(s) + s.batchSize)
      && (Next(files, s).1 && s.batchSize > 0 ==>
            && 0 <= Consumed(s) && Consumed(s) + s.batchSize <= |Flat(files)|
            && t.batch == Flat(files)[Consumed(s) .. Consumed(s) + s.batchSize])
  {
    NextSucceeds(files, s);
    NextCoherent(files, s);
    if Next(files, s).1 {
      NextAdvance(files, s);
    }
  }

  lemma NextSucceeds<S>(files: seq<seq<S>>, s: Cursor<S>)
    requires Coherent(files, s)
    ensures Next(files, s).1 <==>
      s.batchCount != s.maxBatches
      && (s.batchSize == 0 || (0 <= s.fileCount && Consumed(s) + s.batchSize <= |Flat(files)|))
  {
    if s.batchCount != s.maxBatches {
      FillSucceeds(files, s, 0);
    }
  }

  lemma NextCoherent<S>(files: seq<seq<S>>, s: Cursor<S>)
    requires Coherent(files, s)
    ensures Coherent(files, Next(files, s).0)
  {
    if s.batchCount != s.maxBatches {
      FillCoherent(files, s, 0);
    }
  }

  lemma NextAdvance<S>(files: seq<seq<S>>, s: Cursor<S>)
    requires Coherent(files, s) && Next(files, s).1
    ensures var t := Next(files, s).0;
      && Consumed(t) == Consumed(s) + s.batchSize
      && (s.batchSize > 0 ==>
            && 0 <= Consumed(s) && Consumed(s) + s.batchSize <= |Flat(files)|
            && t.batch == Flat(files)[Consumed(s) .. Consumed(s) + s.batchSize])
  {
    FillWindow(files, s, 0);
    assert s.batch[..0] == [];
  }

  /** The copy loop leaves the cursor coherent, whether or not it succeeds. */
  lemma {:induction false} FillCoherent<S>(files: seq<seq<S>>, s: Cursor<S>, bp: int)
    requires Coherent(files, s) && 0 <= bp <= s.batchSize
    ensures Coherent(files, Fill(files, s, bp).0)
    decreases s.batchSize - bp
  {
    if bp < s.batchSize {
      RefillStep(files, s);
      var (u, ok) := Refill(files, s);
      if ok {
        CopyStep(files, u, bp);
        FillCoherent(files, CopyChunk(u, bp), bp + ChunkSize(u, bp));
      }
    }
  }

  /** The batch-by-batch path of `skip`: `k` calls of `next`, results ignored. */
  function SkipReads<S>(files: seq<seq<S>>, s: Cursor<S>, k: int): (t: Cursor<S>)
    requires Shaped(files, s) && Ready(s)
    ensures Shaped(files, t) && Ready(t)
    ensures t.batchSize == s.batchSize && t.maxBatches == s.maxBatches && t.d0 == s.d0
    decreases k
  {
    if k <= 0 then s else SkipReads(files, Next(files, s).0, k - 1)
  }

  /** Whether `skip` can jump over whole files instead of reading batches. */
  predicate FastSkip<S>(s: Cursor<S>)
    requires s.d0 > 0
  {
    s.batchSize >= s.d0 && s.batchSize % s.d0 == 0 && s.filePos == s.d0
  }

  /**
    `skip`: either jump `skipCount * batchSize / d0` files ahead, or read
    `skipCount` batches; the batch count is left as it was in both cases.
  */
  function Skip<S>(files: seq<seq<S>>, s: Cursor<S>, skipCount: int): (t: Cursor<S>)
    requires Shaped(files, s) && Ready(s)
    ensures Shaped(files, t) && Ready(t)
    ensures t.batchCount == s.batchCount
    ensures t.batchSize == s.batchSize && t.maxBatches == s.maxBatches && t.d0 == s.d0
    ensures FastSkip(s) ==> t == s.(fileCount := s.fileCount + skipCount * (s.batchSize / s.d0))
  {
    if FastSkip(s) then
      var jump := TruncDiv(skipCount * s.batchSize, s.d0);
      assert jump == skipCount * (s.batchSize / s.d0) by {
        var q := s.batchSize / s.d0;
        assert s.batchSize == q * s.d0;
        assert skipCount * s.batchSize == (skipCount * q) * s.d0;
        if skipCount * s.batchSize >= 0 {
          MulStrictInverse(jump, skipCount * q + 1, s.d0);
          MulStrictInverse(skipCount * q, jump + 1, s.d0);
        } else {
          MulStrictInverse(jump - 1, skipCount * q, s.d0);
          MulStrictInverse(skipCount * q - 1, jump, s.d0);
        }
      }
      s.(fileCount := s.fileCount + jump)
    else
      SkipReads(files, s, skipCount).(batchCount := s.batchCount)
  }

  /**
    How many of `k` successive `next` calls read a batch, when the stream holds
    enough samples: `next` refuses once the count reaches `maxBatches`, while a
    count already past `maxBatches` never meets the `==` test and reads on.
  */
  function BatchesRead(batchCount: int, maxBatches: int, k: int): nat
  {
    if k <= 0 then 0 else if batchCount <= maxBatches then Min(k, maxBatches - batchCount) else k
  }

  /**
    `k` calls of `next` move the stream position by one batch for each call that
    reads, stopping at `maxBatches`, and keep the cursor coherent.
  */
  lemma {:induction false} SkipReadsCapped<S>(files: seq<seq<S>>, s: Cursor<S>, k: int)
    requires Coherent(files, s) && s.batchSize > 0 && 0 <= s.fileCount
    requires Consumed(s) + BatchesRead(s.batchCount, s.maxBatches, k) * s.batchSize <= |Flat(files)|
    ensures Coherent(files, SkipReads(files, s, k))
    ensures Consumed(SkipReads(files, s, k)) == Consumed(s) + BatchesRead(s.batchCount, s.maxBatches, k) * s.batchSize
    decreases k
  {
    if k > 0 {
      if s.batchCount == s.maxBatches {
        SkipReadsStalled(files, s, k);
        assert BatchesRead(s.batchCount, s.maxBatches, k) == 0;
      } else {
        var t := ReadOne(files, s, k);
        SkipReadsCapped(files, t, k - 1);
      }
    }
  }

  /** At the bound, every `next` fails and leaves the cursor alone. */
  lemma {:induction false} SkipReadsStalled<S>(files: seq<seq<S>>, s: Cursor<S>, k: int)
    requires Shaped(files, s) && Ready(s) && s.batchCount == s.maxBatches
    ensures SkipReads(files, s, k) == s
    decreases k
  {
    if k > 0 {
      assert Next(files, s) == (s, false);
      SkipReadsStalled(files, s, k - 1);
    }
  }

  /** The first of `k` reads below the bound succeeds and leaves `k - 1` reads to go. */
  lemma ReadOne<S>(files: seq<seq<S>>, s: Cursor<S>, k: int) returns (t: Cursor<S>)
    requires Coherent(files, s) && s.batchSize > 0 && 0 <= s.fileCount
    requires k > 0 && s.batchCount != s.maxBatches
    requires Consumed(s) + BatchesRead(s.batchCount, s.maxBatches, k) * s.batchSize <= |Flat(files)|
    ensures Coherent(files, t) && t.batchSize == s.batchSize && 0 <= t.fileCount
    ensures SkipReads(files, s, k) == SkipReads(files, t, k - 1)
    ensures Consumed(t) + BatchesRead(t.batchCount, t.maxBatches, k - 1) * s.batchSize
         == Consumed(s) + BatchesRead(s.batchCount, s.maxBatches, k) * s.batchSize
  {
    var r := BatchesRead(s.batchCount, s.maxBatches, k);
    var b, c := s.batchSize, Consumed(s);
    BatchesAhead(r, b, c, |Flat(files)|);
    NextWindow(files, s);
    t := Next(files, s).0;
    assert Next(files, s).1 && Consumed(t) == c + b;
    assert BatchesRead(t.batchCount, t.maxBatches, k - 1) == r - 1;
    FileCountOf(t);
  }

  /** If `k > 0` batches fit after position `c`, so does the first, and the other `k - 1` fit after it. */
  lemma BatchesAhead(k: int, b: int, c: int, len: int)
    requires k > 0 && b > 0 && c + k * b <= len
    ensures c + b <= len && (c + b) + (k - 1) * b == c + k * b
  {
    MulAdd(k - 1, 1, b);
    MulMonotone(0, k - 1, b);
  }

  /**
    Reading `k` batches below the bound, all of which the stream holds, moves the
    stream position by `k * batchSize` samples and keeps the cursor coherent.
  */
  lemma SkipReadsAdvance<S>(files: seq<seq<S>>, s: Cursor<S>, k: nat)
    requires Coherent(files, s) && s.batchSize > 0 && 0 <= s.fileCount
    requires s.batchCount + k <= s.maxBatches
    requires Consumed(s) + k * s.batchSize <= |Flat(files)|
    ensures Coherent(files, SkipReads(files, s, k))
    ensures Consumed(SkipReads(files, s, k)) == Consumed(s) + k * s.batchSize
  {
    SkipReadsCapped(files, s, k);
  }

  /**
    The stream position after `skip`: the fast path jumps `skipCount` batches of
    whole files whatever `maxBatches` says, while the slow path reads batches
    through `next` and so stops at `maxBatches`.
  */
  lemma SkipAdvances<S>(files: seq<seq<S>>, s: Cursor<S>, skipCount: int)
    requires Coherent(files, s) && s.batchSize > 0 && 0 <= s.fileCount
    requires !FastSkip(s) ==>
      Consumed(s) + BatchesRead(s.batchCount, s.maxBatches, skipCount) * s.batchSize <= |Flat(files)|
    ensures Coherent(files, Skip(files, s, skipCount))
    ensures Consumed(Skip(files, s, skipCount)) == Consumed(s) +
      (if FastSkip(s) then skipCount else BatchesRead(s.batchCount, s.maxBatches, skipCount)) * s.batchSize
  {
    if FastSkip(s) {
      var q := s.batchSize / s.d0;
      var t := Skip(files, s, skipCount);
      assert s.batchSize == q * s.d0;
      ConsumedAtEnd(s);
      ConsumedAtEnd(t);
      MulAdd(s.fileCount, skipCount * q, s.d0);
      MulAssoc(skipCount, q, s.d0);
    } else {
      SkipReadsCapped(files, s, skipCount);
    }
  }

  /** `reset(firstBatch)`: rewind to before the first file, then skip `firstBatch` batches. */
  function Reset<S>(files: seq<seq<S>>, s: Cursor<S>, firstBatch: int): (t: Cursor<S>)
    requires Shaped(files, s)
    ensures Shaped(files, t) && Ready(t)
    ensures t.batchCount == 0
  {
    Skip(files, s.(batchCount := 0, fileCount := 0, filePos := s.d0), firstBatch)
  }

  /**
    After `reset(firstBatch)` the cursor is coherent and no batch is counted. When
    the batch size is a whole number of files the skip jumps `firstBatch` batches
    ahead; otherwise it reads at most `maxBatches` of them, provided the stream
    holds the batches read.
  */
  lemma ResetPosition<S>(files: seq<seq<S>>, s: Cursor<S>, firstBatch: int)
    requires Shaped(files, s) && s.batchSize > 0
    requires !(s.batchSize % s.d0 == 0 && s.batchSize >= s.d0) ==>
      BatchesRead(0, s.maxBatches, firstBatch) * s.batchSize <= |Flat(files)|
    ensures Coherent(files, Reset(files, s, firstBatch))
    ensures Consumed(Reset(files, s, firstBatch)) ==
      (if s.batchSize % s.d0 == 0 && s.batchSize >= s.d0 then firstBatch
       else BatchesRead(0, s.maxBatches, firstBatch)) * s.batchSize
  {
    var r := s.(batchCount := 0, fileCount := 0, filePos := s.d0);
    assert Consumed(r) == 0;
    SkipAdvances(files, r, firstBatch);
  }
}
