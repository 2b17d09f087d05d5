/**
  The string helpers of the sample utilities: splitting on a separator with an
  optional split limit, the `find`/`rfind` searches the wildcard matcher uses, and
  matching against a pattern with one `*`.
*/
module StringUtils {
  import opened Wrappers

  /** The wildcard character of `matchStringWithOneWildcard`. */
  const Wildcard: char := '*'

  /** Position of the first `c` in `t`, or `|t|` when `t` has none (`find` with `npos` read as the length). */
  function IndexOf(t: string, c: char): (i: nat)
    ensures i <= |t|
    ensures i < |t| ==> t[i] == c
    ensures c !in t[..i]
  {
    if |t| == 0 then 0
    else if t[0] == c then 0
    else
      var k := IndexOf(t[1..], c);
      assert t[1..][..k] == t[1..k + 1];
      1 + k
  }

  /** The separator-joined concatenation of `pieces`; the inverse of splitting. */
  function Join(pieces: seq<string>, sep: char): string
  {
    if |pieces| == 0 then ""
    else if |pieces| == 1 then pieces[0]
    else pieces[0] + [sep] + Join(pieces[1..], sep)
  }

  /**
    One run of the splitting loop over the rest `t` of the input, when `n` pieces have
    been emitted so far: stop at the split limit, emit the rest when there is no
    further separator, otherwise emit the text before the separator and go on after
    it. The loop's explicit empty final piece for a separator that ends the input is
    the case where `t` is empty here: nothing follows, and that nothing is the piece.
  */
  function SplitRest(t: string, sep: char, maxSplit: int, n: nat): (pieces: seq<string>)
    ensures |pieces| > 0
    decreases |t|
  {
    if maxSplit >= 0 && n == maxSplit then [t]
    else
      var i := IndexOf(t, sep);
      if i == |t| then [t]
      else [t[..i]] + SplitRest(t[i + 1..], sep, maxSplit, n + 1)
  }

  /** `splitToStringVec`: a negative `maxSplit` means no limit; the empty string has no pieces. */
  function Split(s: string, sep: char, maxSplit: int): (pieces: seq<string>)
    ensures |pieces| == 0 <==> |s| == 0
  {
    if |s| == 0 then [] else SplitRest(s, sep, maxSplit, 0)
  }

  /** The pieces of a limited split, from the unlimited ones: the first `k` pieces, then the rest joined back. */
  function Cap(full: seq<string>, k: nat, sep: char): (capped: seq<string>)
    ensures |capped| <= k + 1
    ensures |full| <= k + 1 ==> capped == full
  {
    if |full| <= k + 1 then full else full[..k] + [Join(full[k..], sep)]
  }

  /** The recursive case of `SplitRest`: a separator in `t`, below the split limit. */
  lemma SplitRestStep(t: string, sep: char, maxSplit: int, n: nat)
    requires !(maxSplit >= 0 && n == maxSplit) && IndexOf(t, sep) < |t|
    ensures var i := IndexOf(t, sep);
      && t == t[..i] + [sep] + t[i + 1..]
      && SplitRest(t, sep, maxSplit, n) == [t[..i]] + SplitRest(t[i + 1..], sep, maxSplit, n + 1)
  {
    var i := IndexOf(t, sep);
    assert t == t[..i] + [sep] + t[i + 1..];
  }

  lemma {:induction false} SplitRestJoin(t: string, sep: char, maxSplit: int, n: nat)
    ensures Join(SplitRest(t, sep, maxSplit, n), sep) == t
    decreases |t|
  {
    if !(maxSplit >= 0 && n == maxSplit) && IndexOf(t, sep) < |t| {
      var i := IndexOf(t, sep);
      var rest := SplitRest(t[i + 1..], sep, maxSplit, n + 1);
      SplitRestStep(t, sep, maxSplit, n);
      SplitRestJoin(t[i + 1..], sep, maxSplit, n + 1);
      assert ([t[..i]] + rest)[1..] == rest;
    }
  }

  /** Joining the pieces with the separator gives back the input, with or without a split limit. */
  lemma SplitJoin(s: string, sep: char, maxSplit: int)
    ensures Join(Split(s, sep, maxSplit), sep) == s
  {
    if |s| > 0 {
      SplitRestJoin(s, sep, maxSplit, 0);
    }
  }

  lemma {:induction false} SplitRestCount(t: string, sep: char, maxSplit: int, n: nat)
    requires maxSplit < 0
    ensures |SplitRest(t, sep, maxSplit, n)| == multiset(t)[sep] + 1
    decreases |t|
  {
    var i := IndexOf(t, sep);
    if i == |t| {
      assert t[..i] == t;
    } else {
      SplitRestStep(t, sep, maxSplit, n);
      assert multiset(t)[sep] == multiset(t[..i])[sep] + 1 + multiset(t[i + 1..])[sep];
      SplitRestCount(t[i + 1..], sep, maxSplit, n + 1);
    }
  }

  /** No piece of `[head] + rest` holds the separator when neither `head` nor any piece of `rest` does. */
  lemma NoSeparatorCons(head: string, rest: seq<string>, sep: char)
    requires sep !in head
    requires forall k :: 0 <= k < |rest| ==> sep !in rest[k]
    ensures forall k :: 0 <= k < |[head] + rest| ==> sep !in ([head] + rest)[k]
  {
    forall k | 0 <= k < |[head] + rest|
      ensures sep !in ([head] + rest)[k]
    {
      if k > 0 {
        assert ([head] + rest)[k] == rest[k - 1];
      }
    }
  }

  lemma {:induction false} SplitRestNoSeparator(t: string, sep: char, maxSplit: int, n: nat)
    requires maxSplit < 0
    ensures var pieces := SplitRest(t, sep, maxSplit, n);
      forall k :: 0 <= k < |pieces| ==> sep !in pieces[k]
    decreases |t|
  {
    var i := IndexOf(t, sep);
    if i == |t| {
      assert t[..i] == t;
    } else {
      SplitRestStep(t, sep, maxSplit, n);
      SplitRestNoSeparator(t[i + 1..], sep, maxSplit, n + 1);
      NoSeparatorCons(t[..i], SplitRest(t[i + 1..], sep, maxSplit, n + 1), sep);
    }
  }

  /** The last piece of an unlimited split of a non-empty `t` is empty exactly when `t` ends with the separator. */
  ghost predicate TrailingAgrees(t: string, sep: char, maxSplit: int, n: nat)
    requires |t| > 0
  {
    var pieces := SplitRest(t, sep, maxSplit, n);
    pieces[|pieces| - 1] == "" <==> t[|t| - 1] == sep
  }

  lemma {:induction false} SplitRestTrailing(t: string, sep: char, maxSplit: int, n: nat)
    requires |t| > 0 && maxSplit < 0
    ensures TrailingAgrees(t, sep, maxSplit, n)
    decreases |t|
  {
    var i := IndexOf(t, sep);
    if i == |t| {
      assert t[..i][|t| - 1] == t[|t| - 1];
    } else if i == |t| - 1 {
      SplitRestStep(t, sep, maxSplit, n);
      assert t[i + 1..] == "";
    } else {
      SplitRestStep(t, sep, maxSplit, n);
      SplitRestTrailing(t[i + 1..], sep, maxSplit, n + 1);
      TrailingStep(t[..i], SplitRest(t[i + 1..], sep, maxSplit, n + 1), t, t[i + 1..], sep);
    }
  }

  /** The last piece is that of the rest, and the last character that of the rest of the text. */
  lemma TrailingStep(head: string, rest: seq<string>, t: string, t': string, sep: char)
    requires |rest| > 0 && 0 < |t'| < |t| && t' == t[|t| - |t'|..]
    requires rest[|rest| - 1] == "" <==> t'[|t'| - 1] == sep
    ensures var pieces := [head] + rest;
      pieces[|pieces| - 1] == "" <==> t[|t| - 1] == sep
  {
    assert ([head] + rest)[|rest|] == rest[|rest| - 1];
    assert t'[|t'| - 1] == t[|t| - 1];
  }

  /**
    Without a limit, a non-empty string splits into one more piece than it has
    separators, no piece holds a separator, and the last piece is empty exactly
    when the string ends with the separator.
  */
  lemma SplitUnlimited(s: string, sep: char, maxSplit: int)
    requires |s| > 0 && maxSplit < 0
    ensures var pieces := Split(s, sep, maxSplit);
      && |pieces| == multiset(s)[sep] + 1
      && (forall k :: 0 <= k < |pieces| ==> sep !in pieces[k])
      && (pieces[|pieces| - 1] == "" <==> s[|s| - 1] == sep)
  {
    SplitRestCount(s, sep, maxSplit, 0);
    SplitRestNoSeparator(s, sep, maxSplit, 0);
    SplitRestTrailing(s, sep, maxSplit, 0);
  }

  /** The first separator of `p + [sep] + rest` is the one after `p` when `p` has none. */
  lemma IndexOfAfter(p: string, sep: char, rest: string)
    requires sep !in p
    ensures var t := p + [sep] + rest;
      IndexOf(t, sep) == |p| && t[..|p|] == p && t[|p| + 1..] == rest
  {
    var t := p + [sep] + rest;
    assert t[|p|] == sep;
    assert forall j :: 0 <= j < |p| ==> t[j] == p[j];
    assert t[..|p|] == p;
    assert t[|p| + 1..] == rest;
  }

  lemma {:induction false} JoinSplitRest(pieces: seq<string>, sep: char, maxSplit: int, n: nat)
    requires maxSplit < 0 && |pieces| > 0
    requires forall k :: 0 <= k < |pieces| ==> sep !in pieces[k]
    ensures SplitRest(Join(pieces, sep), sep, maxSplit, n) == pieces
    decreases |pieces|
  {
    var t := Join(pieces, sep);
    if |pieces| == 1 {
      assert IndexOf(t, sep) == |t|;
    } else {
      var p, rest := pieces[0], Join(pieces[1..], sep);
      IndexOfAfter(p, sep, rest);
      SplitRestStep(t, sep, maxSplit, n);
      JoinSplitRest(pieces[1..], sep, maxSplit, n + 1);
      assert pieces == [p] + pieces[1..];
    }
  }

  /**
    Splitting without a limit undoes joining: pieces free of the separator come back
    unchanged, except the single empty piece, whose join is the empty string, which
    has no pieces.
  */
  lemma JoinSplit(pieces: seq<string>, sep: char)
    requires forall k :: 0 <= k < |pieces| ==> sep !in pieces[k]
    requires pieces != [""]
    ensures Split(Join(pieces, sep), sep, -1) == pieces
  {
    if |pieces| > 0 {
      JoinSplitRest(pieces, sep, -1, 0);
      assert |pieces| >= 2 ==> Join(pieces, sep)[|pieces[0]|] == sep;
      assert |pieces| == 1 ==> pieces[0] != "";
    }
  }

  lemma CapCons(a: string, rest: seq<string>, k: nat, sep: char)
    requires k >= 1
    ensures Cap([a] + rest, k, sep) == [a] + Cap(rest, k - 1, sep)
  {
    if |rest| + 1 > k + 1 {
      assert ([a] + rest)[..k] == [a] + rest[..k - 1];
      assert ([a] + rest)[k..] == rest[k - 1..];
    }
  }

  lemma {:induction false} SplitRestCapped(t: string, sep: char, maxSplit: int, n: nat)
    requires 0 <= n <= maxSplit
    ensures SplitRest(t, sep, maxSplit, n) == Cap(SplitRest(t, sep, -1, n), maxSplit - n, sep)
    decreases |t|
  {
    var full := SplitRest(t, sep, -1, n);
    if n == maxSplit {
      SplitRestJoin(t, sep, -1, n);
      if |full| <= 1 {
        assert full == [full[0]];
      } else {
        assert full[0..] == full;
      }
    } else {
      var i := IndexOf(t, sep);
      if i < |t| {
        SplitRestStep(t, sep, maxSplit, n);
        SplitRestStep(t, sep, -1, n);
        SplitRestCapped(t[i + 1..], sep, maxSplit, n + 1);
        CapCons(t[..i], SplitRest(t[i + 1..], sep, -1, n + 1), maxSplit - n, sep);
      }
    }
  }

  /**
    With a limit `maxSplit >= 0`, the result is the unlimited split cut after
    `maxSplit` pieces, with the unsplit remainder (separators included) as the last piece.
  */
  lemma SplitLimited(s: string, sep: char, maxSplit: int)
    requires maxSplit >= 0
    ensures Split(s, sep, maxSplit) == Cap(Split(s, sep, -1), maxSplit, sep)
    ensures |Split(s, sep, maxSplit)| <= maxSplit + 1
  {
    if |s| > 0 {
      SplitRestCapped(s, sep, maxSplit, 0);
    }
  }

  /** `t` holds `p` starting at position `j`. */
  predicate OccursAt(t: string, p: string, j: nat)
  {
    j + |p| <= |t| && t[j..j + |p|] == p
  }

  /** The search of `find`: the first occurrence of `p` in `t` at or after `from`. */
  function FindFrom(t: string, p: string, from: nat): (r: Option<nat>)
    ensures r.Some? ==> from <= r.value && OccursAt(t, p, r.value)
    ensures r.Some? ==> forall j :: from <= j < r.value ==> !OccursAt(t, p, j)
    ensures r.None? ==> forall j :: from <= j ==> !OccursAt(t, p, j)
    decreases |t| - from
  {
    if from + |p| > |t| then None
    else if t[from..from + |p|] == p then Some(from)
    else FindFrom(t, p, from + 1)
  }

  /** `target.find(p)`, with `npos` as `None`. */
  function Find(t: string, p: string): Option<nat>
  {
    FindFrom(t, p, 0)
  }

  /** The search of `rfind`: the last occurrence of `p` in `t` at or before `from`. */
  function RFindFrom(t: string, p: string, from: nat): (r: Option<nat>)
    ensures r.Some? ==> r.value <= from && OccursAt(t, p, r.value)
    ensures r.Some? ==> forall j :: r.value < j <= from ==> !OccursAt(t, p, j)
    ensures r.None? ==> forall j :: 0 <= j <= from ==> !OccursAt(t, p, j)
  {
    if OccursAt(t, p, from) then Some(from)
    else if from == 0 then None
    else RFindFrom(t, p, from - 1)
  }

  /** `target.rfind(p)`, with `npos` as `None`. */
  function RFind(t: string, p: string): Option<nat>
  {
    if |p| > |t| then None else RFindFrom(t, p, |t| - |p|)
  }

  /** `find` returns 0 exactly when the string starts with the searched text. */
  lemma FindAtStart(t: string, p: string)
    ensures Find(t, p) == Some(0) <==> (|p| <= |t| && t[..|p|] == p)
  {
    if |p| <= |t| && t[..|p|] == p {
      assert OccursAt(t, p, 0);
    }
  }

  /** `rfind` returns `|t| - |p|` exactly when the string ends with the searched text. */
  lemma RFindAtEnd(t: string, p: string)
    requires |p| <= |t|
    ensures RFind(t, p) == Some(|t| - |p|) <==> t[|t| - |p|..] == p
  {
    assert t[|t| - |p|..] == t[|t| - |p|..|t| - |p| + |p|];
  }

  /**
    `matchStringWithOneWildcard` as written: `None` stands for the out-of-bounds
    read of `splitPattern[0]` when the pattern is empty and splits into no pieces.
  */
  function MatchAsWritten(pattern: string, target: string): (r: Option<bool>)
    ensures r.None? <==> |pattern| == 0
  {
    var sp := Split(pattern, Wildcard, 1);
    SplitLimited(pattern, Wildcard, 1);
    if |sp| == 1 then Some(pattern == target)
    else if |sp| == 0 then None
    else Some(|target| >= |sp[0]| + |sp[1]|
              && Find(target, sp[0]) == Some(0)
              && RFind(target, sp[1]) == Some(|target| - |sp[1]|))
  }

  /** The wildcard match with the empty pattern treated as a pattern without a wildcard. */
  function Match(pattern: string, target: string): (r: bool)
    ensures |pattern| == 0 ==> (r <==> |target| == 0)
  {
    var sp := Split(pattern, Wildcard, 1);
    SplitLimited(pattern, Wildcard, 1);
    if |sp| <= 1 then pattern == target
    else |target| >= |sp[0]| + |sp[1]|
         && Find(target, sp[0]) == Some(0)
         && RFind(target, sp[1]) == Some(|target| - |sp[1]|)
  }

  /** Where the written matcher is defined, the corrected one agrees with it. */
  lemma MatchAgreesWhereDefined(pattern: string, target: string)
    requires |pattern| > 0
    ensures MatchAsWritten(pattern, target) == Some(Match(pattern, target))
  {}

  /** The split of a pattern at its first wildcard. */
  lemma SplitAtWildcard(pattern: string)
    requires |pattern| > 0
    ensures var i := IndexOf(pattern, Wildcard);
      Split(pattern, Wildcard, 1)
        == if i == |pattern| then [pattern] else [pattern[..i], pattern[i + 1..]]
  {
    if IndexOf(pattern, Wildcard) < |pattern| {
      SplitRestStep(pattern, Wildcard, 1, 0);
    }
  }

  /**
    A pattern without `*` matches only itself; otherwise, with `pre` and `post` the
    text before and after the first `*`, a target matches exactly when it starts with
    `pre`, ends with `post`, and is long enough for the two not to overlap.
  */
  lemma MatchCharacterized(pattern: string, target: string)
    ensures Wildcard !in pattern ==> (Match(pattern, target) <==> pattern == target)
    ensures Wildcard in pattern ==>
      var i := IndexOf(pattern, Wildcard);
      var pre, post := pattern[..i], pattern[i + 1..];
      Match(pattern, target) <==>
        && |target| >= |pre| + |post|
        && target[..|pre|] == pre
        && target[|target| - |post|..] == post
  {
    if Wildcard in pattern {
      MatchWithWildcard(pattern, target);
    } else if |pattern| > 0 {
      SplitAtWildcard(pattern);
      assert pattern[..IndexOf(pattern, Wildcard)] == pattern;
    }
  }

  lemma MatchWithWildcard(pattern: string, target: string)
    requires Wildcard in pattern
    ensures var i := IndexOf(pattern, Wildcard);
      var pre, post := pattern[..i], pattern[i + 1..];
      Match(pattern, target) <==>
        && |target| >= |pre| + |post|
        && target[..|pre|] == pre
        && target[|target| - |post|..] == post
  {
    var i := IndexOf(pattern, Wildcard);
    assert pattern[..|pattern|] == pattern;
    SplitAtWildcard(pattern);
    var pre, post := pattern[..i], pattern[i + 1..];
    assert Split(pattern, Wildcard, 1) == [pre, post];
    FindAtStart(target, pre);
    if |post| <= |target| {
      RFindAtEnd(target, post);
    }
  }

  /** The pattern `"*"` matches every string. */
  lemma StarMatchesAll(target: string)
    ensures Match("*", target)
  {
    MatchCharacterized("*", target);
    assert IndexOf("*", Wildcard) == 0;
  }
}
