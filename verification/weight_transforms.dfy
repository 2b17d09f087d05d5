/**
  The weight rewrites of the sample utilities: the 2:4 structured-sparsity pruning
  along the channel axis (`sparsify`) and the 2-D transpose (`transpose2DWeights`).
  Weight elements are of any type `T`; `zero` is the value pruned elements get.
*/
module WeightTransforms {
  import opened Arith

  /** The window and the number of values kept per window of the sparsity pattern. */
  const Window: nat := 4
  const NonZeros: nat := 2

  /**
    Where element `idx` of the transpose of an `m` x `n` matrix comes from: the
    transpose holds column `idx / m`, row `idx % m` of the source at `idx`.
  */
  function TransposeSource(idx: nat, m: nat, n: nat): (s: nat)
    requires idx < m * n
    ensures s < m * n
  {
    RowMajorOf(idx, n, m);
    RowMajorBound(idx % m, idx / m, m, n);
    RowMajor(idx % m, idx / m, n)
  }

  /** Row `ni`, column `mi` of the transpose is row `mi`, column `ni` of the source. */
  lemma TransposeSourceAt(mi: nat, ni: nat, m: nat, n: nat)
    requires mi < m && ni < n
    ensures RowMajor(ni, mi, m) < m * n
    ensures TransposeSource(RowMajor(ni, mi, m), m, n) == RowMajor(mi, ni, n)
  {
    RowMajorBound(ni, mi, n, m);
    RowMajorSplit(ni, mi, m);
  }

  /**
    `dst` is the transpose of the `m` x `n` row-major matrix `src`: row `ni`, column
    `mi` of `dst` is row `mi`, column `ni` of `src`.
  */
  ghost predicate IsTranspose<T>(dst: seq<T>, src: seq<T>, m: nat, n: nat)
  {
    forall mi, ni :: 0 <= mi < m && 0 <= ni < n ==>
      && 0 <= RowMajor(ni, mi, m) < |dst| && 0 <= RowMajor(mi, ni, n) < |src|
      && dst[RowMajor(ni, mi, m)] == src[RowMajor(mi, ni, n)]
  }

  /** The transpose of an `m` x `n` row-major matrix, an `n` x `m` row-major matrix. */
  function Transpose2D<T>(src: seq<T>, m: nat, n: nat): (dst: seq<T>)
    requires |src| == m * n
    ensures |dst| == m * n
    ensures IsTranspose(dst, src, m, n)
  {
    var dst := seq(m * n, idx requires 0 <= idx < m * n => src[TransposeSource(idx, m, n)]);
    TransposeEntries(src, m, n, dst);
    dst
  }

  lemma TransposeEntries<T>(src: seq<T>, m: nat, n: nat, dst: seq<T>)
    requires |src| == m * n && |dst| == m * n
    requires forall idx :: 0 <= idx < m * n ==> dst[idx] == src[TransposeSource(idx, m, n)]
    ensures IsTranspose(dst, src, m, n)
  {
    forall mi, ni | 0 <= mi < m && 0 <= ni < n
      ensures && 0 <= RowMajor(ni, mi, m) < |dst| && 0 <= RowMajor(mi, ni, n) < |src|
              && dst[RowMajor(ni, mi, m)] == src[RowMajor(mi, ni, n)]
    {
      TransposeSourceAt(mi, ni, m, n);
      RowMajorBound(mi, ni, m, n);
    }
  }

  /** Transposing an `m` x `n` matrix and then the resulting `n` x `m` matrix gives the original back. */
  lemma TransposeInvolution<T>(src: seq<T>, m: nat, n: nat)
    requires |src| == m * n
    ensures Transpose2D(Transpose2D(src, m, n), n, m) == src
  {
    var once := Transpose2D(src, m, n);
    var twice := Transpose2D(once, n, m);
    forall idx | 0 <= idx < m * n
      ensures twice[idx] == src[idx]
    {
      RowMajorOf(idx, m, n);
      var mi, ni := idx / n, idx % n;
      assert idx == RowMajor(mi, ni, n);
      assert twice[RowMajor(mi, ni, n)] == once[RowMajor(ni, mi, m)];
    }
  }

  /**
    The loop state of `transpose2DWeights`: source rows before `rows`, and the first
    `cols` elements of source row `rows`, are in place in `out`.
  */
  ghost predicate Written<T>(out: seq<T>, src: seq<T>, m: nat, n: nat, rows: nat, cols: nat)
  {
    forall a, b :: 0 <= a < m && 0 <= b < n && (a < rows || (a == rows && b < cols)) ==>
      && 0 <= RowMajor(b, a, m) < |out| && 0 <= RowMajor(a, b, n) < |src|
      && out[RowMajor(b, a, m)] == src[RowMajor(a, b, n)]
  }

  /** One assignment of the inner loop extends the written region by one element. */
  lemma WrittenStep<T>(out: seq<T>, src: seq<T>, m: nat, n: nat, mi: nat, ni: nat)
    requires mi < m && ni < n && m * n <= |out| && m * n <= |src|
    requires Written(out, src, m, n, mi, ni)
    ensures RowMajor(ni, mi, m) < m * n && RowMajor(mi, ni, n) < m * n
    ensures Written(out[RowMajor(ni, mi, m) := src[RowMajor(mi, ni, n)]], src, m, n, mi, ni + 1)
  {
    TransposeSourceAt(mi, ni, m, n);
    RowMajorBound(mi, ni, m, n);
    var out' := out[RowMajor(ni, mi, m) := src[RowMajor(mi, ni, n)]];
    forall a, b | 0 <= a < m && 0 <= b < n && (a < mi || (a == mi && b < ni + 1))
      ensures && 0 <= RowMajor(b, a, m) < |out'| && 0 <= RowMajor(a, b, n) < |src|
              && out'[RowMajor(b, a, m)] == src[RowMajor(a, b, n)]
    {
      TransposeSourceAt(a, b, m, n);
      RowMajorBound(a, b, m, n);
      RowMajorSplit(b, a, m);
      RowMajorSplit(ni, mi, m);
    }
  }

  /**
    `transpose2DWeights<T>(dst, src, m, n)`: writes the transpose of the first
    `m * n` source elements into the first `m * n` destination elements, one element
    at a time in source order, and leaves the rest of the destination alone.
  */
  method Transpose2DWeights<T>(dst: seq<T>, src: seq<T>, m: nat, n: nat) returns (out: seq<T>)
    requires m * n <= |src| && m * n <= |dst|
    ensures |out| == |dst|
    ensures out[..m * n] == Transpose2D(src[..m * n], m, n)
    ensures out[m * n..] == dst[m * n..]
  {
    out := dst;
    var mi := 0;
    while mi < m
      invariant 0 <= mi <= m && |out| == |dst|
      invariant Written(out, src, m, n, mi, 0)
      invariant forall idx :: m * n <= idx < |out| ==> out[idx] == dst[idx]
    {
      var ni := 0;
      while ni < n
        invariant 0 <= ni <= n && |out| == |dst|
        invariant Written(out, src, m, n, mi, ni)
        invariant forall idx :: m * n <= idx < |out| ==> out[idx] == dst[idx]
      {
        WrittenStep(out, src, m, n, mi, ni);
        out := out[RowMajor(ni, mi, m) := src[RowMajor(mi, ni, n)]];
        ni := ni + 1;
      }
      mi := mi + 1;
    }
    var t := Transpose2D(src[..m * n], m, n);
    forall idx | 0 <= idx < m * n
      ensures out[idx] == t[idx]
    {
      RowMajorOf(idx, n, m);
      var ni, mi := idx / m, idx % m;
      assert idx == RowMajor(ni, mi, m);
      assert out[RowMajor(ni, mi, m)] == src[RowMajor(mi, ni, n)];
    }
  }

  /**
    The keep decisions the sparsify loop makes for the next `count` channels, from
    window position `w` with `nz` values kept so far in the current window: keep while
    fewer than `NonZeros` were kept, restart both counters after `Window` channels.
  */
  function MaskFrom(count: nat, w: nat, nz: nat): (mask: seq<bool>)
    ensures |mask| == count
  {
    if count == 0 then []
    else
      var keep := nz < NonZeros;
      var nz' := if keep then nz + 1 else nz;
      if w + 1 == Window then [keep] + MaskFrom(count - 1, 0, 0)
      else [keep] + MaskFrom(count - 1, w + 1, nz')
  }

  /** The counters keep exactly the first two channels of every aligned window of four. */
  lemma MaskFromPattern(count: nat, w: nat, nz: nat)
    requires w < Window && nz == (if w < NonZeros then w else NonZeros)
    ensures forall i :: 0 <= i < count ==> MaskFrom(count, w, nz)[i] == ((w + i) % Window < NonZeros)
  {
    forall i | 0 <= i < count
      ensures MaskFrom(count, w, nz)[i] == ((w + i) % Window < NonZeros)
    {
      MaskAt(count, w, nz, i);
    }
  }

  /** Decision `i` of the counters, from window position `w`, is that of window position `(w + i) % 4`. */
  lemma {:induction false} MaskAt(count: nat, w: nat, nz: nat, i: nat)
    requires w < Window && nz == (if w < NonZeros then w else NonZeros) && i < count
    ensures MaskFrom(count, w, nz)[i] == ((w + i) % Window < NonZeros)
    decreases i
  {
    if i == 0 {
      assert (w + i) % Window == w;
    } else if w + 1 == Window {
      MaskAt(count - 1, 0, 0, i - 1);
      MaskWrap(count, w, nz, i);
    } else {
      var nz' := if nz < NonZeros then nz + 1 else nz;
      MaskAt(count - 1, w + 1, nz', i - 1);
      MaskShift(count, w, nz, i);
    }
  }

  /** After the last position of a window the counters restart. */
  lemma MaskWrap(count: nat, w: nat, nz: nat, i: nat)
    requires w + 1 == Window && 0 < i < count
    requires MaskFrom(count - 1, 0, 0)[i - 1] == ((i - 1) % Window < NonZeros)
    ensures MaskFrom(count, w, nz)[i] == ((w + i) % Window < NonZeros)
  {
    assert MaskFrom(count, w, nz)[i] == MaskFrom(count - 1, 0, 0)[i - 1];
    assert w + i == (i - 1) + Window;
  }

  /** Inside a window the counters move on by one position. */
  lemma MaskShift(count: nat, w: nat, nz: nat, i: nat)
    requires w + 1 < Window && 0 < i < count
    requires var nz' := if nz < NonZeros then nz + 1 else nz;
      MaskFrom(count - 1, w + 1, nz')[i - 1] == ((w + 1 + (i - 1)) % Window < NonZeros)
    ensures MaskFrom(count, w, nz)[i] == ((w + i) % Window < NonZeros)
  {
    var nz' := if nz < NonZeros then nz + 1 else nz;
    assert MaskFrom(count, w, nz)[i] == MaskFrom(count - 1, w + 1, nz')[i - 1];
  }

  /** The channel of element `idx` in a `k` x `c` x `trs` layout. */
  function ChannelOf(idx: nat, c: nat, trs: nat): (ci: nat)
    requires c > 0 && trs > 0
    ensures ci < c
  {
    DivBounds(idx, c * trs);
    RowMajorOf(idx % (c * trs), c, trs);
    (idx % (c * trs)) / trs
  }

  /** The number of channels `sparsify` works on: `count / (k * trs)`. */
  function Channels(count: nat, k: nat, trs: nat): (c: nat)
    requires k > 0 && trs > 0
    ensures k * c * trs <= count
  {
    DivBounds(count, k * trs);
    assert k * (count / (k * trs)) * trs == (count / (k * trs)) * (k * trs);
    count / (k * trs)
  }

  /**
    `sparsify<T>(values, count, k, trs)`: the weights as `k` output maps of `c`
    channels of `trs` kernel positions; along the channel axis the loop keeps the
    values the window counters select and writes `zero` elsewhere. Elements past
    `k * c * trs` are never written and keep the zero fill of the resized buffer.
  */
  function Sparsify<T>(values: seq<T>, k: nat, trs: nat, zero: T): (sparse: seq<T>)
    requires k > 0 && trs > 0
    ensures |sparse| == |values|
    ensures forall idx :: 0 <= idx < |values| ==> sparse[idx] == values[idx] || sparse[idx] == zero
  {
    var c := Channels(|values|, k, trs);
    var mask := MaskFrom(c, 0, 0);
    seq(|values|, idx requires 0 <= idx < |values| =>
      if idx < k * c * trs && mask[ChannelOf(idx, c, trs)] then values[idx] else zero)
  }

  /** `getIndex(ki, ci, rsi)` of the loop. */
  function WeightIndex(ki: nat, ci: nat, rsi: nat, c: nat, trs: nat): nat
  {
    ki * (c * trs) + ci * trs + rsi
  }

  /**
    For output map `ki`, channel `ci` and kernel position `rsi`, the pruned weight
    is the original exactly on channels `ci % 4 < 2` and zero elsewhere.
  */
  lemma SparsifyAt<T>(values: seq<T>, k: nat, trs: nat, zero: T, ki: nat, ci: nat, rsi: nat)
    requires k > 0 && trs > 0
    requires ki < k && ci < Channels(|values|, k, trs) && rsi < trs
    ensures var c := Channels(|values|, k, trs);
      var idx := WeightIndex(ki, ci, rsi, c, trs);
      && idx < |values|
      && Sparsify(values, k, trs, zero)[idx] == if ci % Window < NonZeros then values[idx] else zero
  {
    var c := Channels(|values|, k, trs);
    var idx := WeightIndex(ki, ci, rsi, c, trs);
    RowMajorBound(ci, rsi, c, trs);
    RowMajorBound(ki, ci * trs + rsi, k, c * trs);
    assert k * (c * trs) == k * c * trs;
    RowMajorSplit(ki, ci * trs + rsi, c * trs);
    RowMajorSplit(ci, rsi, trs);
    assert ChannelOf(idx, c, trs) == ci;
    MaskFromPattern(c, 0, 0);
  }

  /** Elements past the last whole output map are zero. */
  lemma SparsifyTail<T>(values: seq<T>, k: nat, trs: nat, zero: T, idx: nat)
    requires k > 0 && trs > 0
    requires k * Channels(|values|, k, trs) * trs <= idx < |values|
    ensures Sparsify(values, k, trs, zero)[idx] == zero
  {}

  /** The channels of window `w` that the pattern keeps are its first two. */
  lemma WindowHead(ci: int, w: nat)
    requires Window * w <= ci < Window * w + Window && ci % Window < NonZeros
    ensures ci == Window * w || ci == Window * w + 1
  {
    DivModUnique(ci, Window, w, ci - Window * w);
  }

  /** A set of naturals drawn from `{a, a + 1}` has at most two elements. */
  lemma AtMostPair(s: set<nat>, a: nat)
    requires forall x :: x in s ==> x == a || x == a + 1
    ensures |s| <= 2
  {
    var pair: set<nat> := {a, a + 1};
    var rest := pair - s;
    assert pair == s + rest && s * rest == {};
    assert |pair| == 2;
  }

  /**
    The 2:4 pattern: in every aligned window of four channels of one output map and
    kernel position, at most two pruned weights differ from `zero`.
  */
  lemma SparsifyWindow<T>(values: seq<T>, k: nat, trs: nat, zero: T, ki: nat, rsi: nat, w: nat)
    requires k > 0 && trs > 0 && ki < k && rsi < trs
    ensures var c := Channels(|values|, k, trs);
      var sparse := Sparsify(values, k, trs, zero);
      |set ci: nat | Window * w <= ci < Window * w + Window && ci < c
                      && WeightIndex(ki, ci, rsi, c, trs) < |sparse|
                      && sparse[WeightIndex(ki, ci, rsi, c, trs)] != zero| <= NonZeros
  {
    var c := Channels(|values|, k, trs);
    var sparse := Sparsify(values, k, trs, zero);
    var kept := set ci: nat | Window * w <= ci < Window * w + Window && ci < c
                      && WeightIndex(ki, ci, rsi, c, trs) < |sparse|
                      && sparse[WeightIndex(ki, ci, rsi, c, trs)] != zero;
    forall ci | ci in kept
      ensures ci == Window * w || ci == Window * w + 1
    {
      SparsifyAt(values, k, trs, zero, ki, ci, rsi);
      WindowHead(ci, w);
    }
    AtMostPair(kept, Window * w);
  }
}
