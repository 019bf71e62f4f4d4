/** The segmentation policy `with_segments<N>::policy` of
    include/esapp/internal/with_segments.hpp. While the suffix index inserts a sequence term by
    term, `update` keeps per-length totals (`sum_f_`, `sum_av_`, `num_str_`) and a trie of the
    substrings of at most N terms with their frequency and accessor-variety counters; the EM
    passes of `optimize` re-segment every stored sequence with `segment_sequence`, a dynamic
    programme over those counts that puts the words of the old segmentation back into the
    trie and takes out those of the new one. The suffix index itself is not part of this
    model: the facts it reports on each insertion and the sequences `recover_sequence` reads
    back from it are parameters. */
module WithSegments {
  import opened Options
  import opened TriePaths
  import opened Preserve
  import opened Segmenters
  import FreqTries
  import Lex

  function Min(a: nat, b: nat): nat
  {
    if a < b then a else b
  }

  function Max(a: nat, b: nat): nat
  {
    if a < b then b else a
  }

  /** `x`, or `x` plus one as a `size_t` when `b`. */
  function Inc(x: nat, b: bool): nat
  {
    if b then Wrap(x + 1) else x
  }

  /** What the policy counts: the trie counters and the three per-length totals. */
  datatype Tables = Tables(f: map<seq<nat>, nat>, avl: map<seq<nat>, nat>, avr: map<seq<nat>, nat>,
                           sumF: seq<nat>, sumAv: seq<nat>, numStr: seq<nat>)

  // -----------------------------------------------------------------------------------------
  // What `update_counts` adds

  /** The terms `update_counts(s, n, ·)` walks down the trie: `min(lcp_, N)` terms starting
      at the n-th last term of s (the reverse iterator starts at `rbegin(s) + n - 1` and
      steps back towards the end of s). */
  function Path(s: seq<nat>, n: nat, lcp: nat, maxLen: nat): (path: seq<nat>)
    requires lcp <= n <= |s|
    ensures |path| == Min(lcp, maxLen)
  {
    s[|s| - n..|s| - n + Min(lcp, maxLen)]
  }

  /** The nodes of a path: the root and every prefix of it. */
  function Prefixes(path: seq<nat>): set<seq<nat>>
  {
    set k | 0 <= k <= |path| :: path[..k]
  }

  /** The nodes of a path are its prefixes. */
  lemma PrefixesAre(path: seq<nat>)
    ensures forall q :: q in Prefixes(path) <==> Lex.IsPrefix(q, path)
  {
    forall q | Lex.IsPrefix(q, path)
      ensures q in Prefixes(path)
    {
      assert q == path[..|q|];
    }
  }

  /** A counter before the walk: its value, or 1 for a node the walk creates. */
  function Base(m: map<seq<nat>, nat>, q: seq<nat>): nat
  {
    if q in m then m[q] else 1
  }

  /** A counter map after a walk down `path` that creates the missing nodes (at 1) and adds
      one on the nodes of depth `lo .. hi`; depth 0, the root, is never counted. */
  function Bumped(m: map<seq<nat>, nat>, path: seq<nat>, lo: nat, hi: nat): (r: map<seq<nat>, nat>)
    ensures r.Keys == m.Keys + Prefixes(path)
  {
    map q | q in m.Keys + Prefixes(path) :: Inc(Base(m, q), Lex.IsPrefix(q, path) && 1 <= lo <= |q| <= hi)
  }

  /** One node of a walk: `get(c, true)` finds the node or creates it at 1, then its
      counter rises by one when `b`. */
  function Grow(m: map<seq<nat>, nat>, q: seq<nat>, b: bool): (r: map<seq<nat>, nat>)
    ensures r.Keys == m.Keys + {q}
  {
    m[q := Inc(Base(m, q), b)]
  }

  /** `get(c, true)` then one more when b is `Grow`. */
  lemma GrowAfterGet(m: map<seq<nat>, nat>, m': map<seq<nat>, nat>, q: seq<nat>, b: bool)
    requires Bounded(m') && q in m' && m' == (if q in m then m else m[q := 1])
    ensures m'[q := Wrap(m'[q] + (if b then 1 else 0))] == Grow(m, q, b)
  {
  }

  /** The same walk, one node at a time as `update_counts` takes it: the node of depth
      `|path|` grows, counted when its depth is at least `lo` (`lo = 0` counts none). */
  function Counted(m: map<seq<nat>, nat>, path: seq<nat>, lo: nat): map<seq<nat>, nat>
    decreases |path|
  {
    if |path| == 0 then m
    else Grow(Counted(m, path[..|path| - 1], lo), path, 1 <= lo <= |path|)
  }

  /** `sum_f_[k]` is counted by the trie walk (`k < min(lcp_, N)`) or by the final loop
      (`lcp_ <= k < min(n, N)`). */
  predicate RisesF(k: nat, n: nat, lcp: nat, maxLen: nat)
  {
    k < Min(lcp, maxLen) || lcp <= k < Min(n, maxLen)
  }

  /** `sum_av_[k]` is counted at the walk's last node when `0 < lcp_ <= N`, or by the final
      loop. */
  predicate RisesAv(k: nat, n: nat, lcp: nat, maxLen: nat)
  {
    (0 < lcp <= maxLen && k == lcp - 1) || lcp <= k < Min(n, maxLen)
  }

  /** `num_str_[k]` is counted by the final loop only. */
  predicate RisesStr(k: nat, n: nat, lcp: nat, maxLen: nat)
  {
    lcp <= k < Min(n, maxLen)
  }

  /** The tables after `update_counts(s, n, lcp_lf)` with `lcp_` = lcp: the walk of
      `Path(s, n, lcp, N)` adds one to `f` on every node it passes, to `avl` on the nodes of
      depth at least `lcp_lf`, and to `avr` on its last node when `0 < lcp_ <= N`; each
      total rises by one at the lengths its loop visits. */
  function Counts(t: Tables, s: seq<nat>, n: nat, lcp: nat, lcpLf: nat, maxLen: nat): Tables
    requires lcp <= n <= |s| && |t.sumF| == maxLen && |t.sumAv| == maxLen && |t.numStr| == maxLen
  {
    var path := Path(s, n, lcp, maxLen);
    var last := if 0 < lcp <= maxLen then |path| else 0;
    Tables(
      Counted(t.f, path, 1),
      Counted(t.avl, path, Max(1, lcpLf)),
      Counted(t.avr, path, last),
      seq(maxLen, k requires 0 <= k < maxLen => Inc(t.sumF[k], RisesF(k, n, lcp, maxLen))),
      seq(maxLen, k requires 0 <= k < maxLen => Inc(t.sumAv[k], RisesAv(k, n, lcp, maxLen))),
      seq(maxLen, k requires 0 <= k < maxLen => Inc(t.numStr[k], RisesStr(k, n, lcp, maxLen))))
  }

  /** The totals with one more string at each length `lo .. hi`. */
  function Raised(a: seq<nat>, lo: nat, hi: nat): (r: seq<nat>)
    ensures |r| == |a|
  {
    seq(|a|, k requires 0 <= k < |a| => Inc(a[k], lo <= k < hi))
  }

  /** Tables whose trie counters are the walk's and whose totals are the two loops' are
      `Counts`. */
  lemma CountsAre(t: Tables, s: seq<nat>, n: nat, lcp: nat, lcpLf: nat, maxLen: nat, t': Tables)
    requires lcp <= n <= |s| && |t.sumF| == maxLen && |t.sumAv| == maxLen && |t.numStr| == maxLen
    requires var path := Path(s, n, lcp, maxLen);
      && t'.f == Counted(t.f, path, 1) && t'.avl == Counted(t.avl, path, Max(1, lcpLf))
      && t'.avr == Counted(t.avr, path, if 0 < lcp <= maxLen then |path| else 0)
    requires t'.sumF == Counts(t, s, n, lcp, lcpLf, maxLen).sumF
    requires t'.sumAv == Counts(t, s, n, lcp, lcpLf, maxLen).sumAv
    requires t'.numStr == Counts(t, s, n, lcp, lcpLf, maxLen).numStr
    ensures t' == Counts(t, s, n, lcp, lcpLf, maxLen)
  {
  }

  /** The totals of `Counts` are those its two loops raise: lengths below `min(lcp_, N)`
      in `sum_f_` and `lcp_ - 1` in `sum_av_` during the walk, then `lcp_ .. min(n, N)` in
      all three. */
  lemma CountsTotals(t: Tables, s: seq<nat>, n: nat, lcp: nat, lcpLf: nat, maxLen: nat)
    requires lcp <= n <= |s| && |t.sumF| == maxLen && |t.sumAv| == maxLen && |t.numStr| == maxLen
    ensures Counts(t, s, n, lcp, lcpLf, maxLen).sumF
         == Raised(if lcp > 0 then Raised(t.sumF, 0, Min(lcp, maxLen)) else t.sumF, lcp, Min(n, maxLen))
    ensures Counts(t, s, n, lcp, lcpLf, maxLen).sumAv
         == Raised(if 0 < lcp <= maxLen then Raised(t.sumAv, lcp - 1, lcp) else t.sumAv, lcp, Min(n, maxLen))
    ensures Counts(t, s, n, lcp, lcpLf, maxLen).numStr == Raised(t.numStr, lcp, Min(n, maxLen))
  {
  }

  /** Given `lcp_ <= n`, `update_counts` counts `sum_f_[k]` exactly for the lengths
      `k < min(n, N)`, `num_str_[k]` only for `lcp_ <= k < min(n, N)`, and every length it
      counts in `num_str_` it also counts in `sum_av_`, and every one in `sum_av_` also in
      `sum_f_`. */
  lemma RisesInRange(k: nat, n: nat, lcp: nat, maxLen: nat)
    requires lcp <= n
    ensures RisesF(k, n, lcp, maxLen) <==> k < Min(n, maxLen)
    ensures RisesStr(k, n, lcp, maxLen) <==> lcp <= k < Min(n, maxLen)
    ensures RisesStr(k, n, lcp, maxLen) ==> RisesAv(k, n, lcp, maxLen)
    ensures RisesAv(k, n, lcp, maxLen) ==> RisesF(k, n, lcp, maxLen)
  {
  }

  /** The totals never count fewer strings than accessor varieties, nor accessor varieties
      than occurrences: `num_str_[k] <= sum_av_[k] <= sum_f_[k]`. */
  predicate Ordered(t: Tables)
  {
    |t.sumAv| == |t.sumF| && |t.numStr| == |t.sumF|
    && forall k :: 0 <= k < |t.sumF| ==> t.numStr[k] <= t.sumAv[k] <= t.sumF[k]
  }

  /** `update_counts` keeps the totals ordered, as long as no total reaches 2^64 - 1. */
  lemma CountsKeepOrder(t: Tables, s: seq<nat>, n: nat, lcp: nat, lcpLf: nat, maxLen: nat)
    requires lcp <= n <= |s| && |t.sumF| == maxLen && |t.sumAv| == maxLen && |t.numStr| == maxLen
    requires Ordered(t) && forall k :: 0 <= k < maxLen ==> t.sumF[k] + 1 < Word
    ensures Ordered(Counts(t, s, n, lcp, lcpLf, maxLen))
  {
    var t' := Counts(t, s, n, lcp, lcpLf, maxLen);
    forall k | 0 <= k < maxLen
      ensures t'.numStr[k] <= t'.sumAv[k] <= t'.sumF[k]
    {
      RisesInRange(k, n, lcp, maxLen);
      assert t.numStr[k] <= t.sumAv[k] <= t.sumF[k];
    }
  }

  /** One more step of the walk: the node of depth i + 1 is created if missing and counted
      when its depth is at least lo. */
  lemma BumpedNext(m: map<seq<nat>, nat>, path: seq<nat>, i: nat, lo: nat)
    requires i < |path|
    ensures Bumped(m, path[..i + 1], lo, i + 1)
         == Bumped(m, path[..i], lo, i)[path[..i + 1] := Inc(Base(m, path[..i + 1]), 1 <= lo <= i + 1)]
  {
    var key := path[..i + 1];
    var a := Bumped(m, key, lo, i + 1);
    var b := Bumped(m, path[..i], lo, i)[key := Inc(Base(m, key), 1 <= lo <= i + 1)];
    BumpedNextKeys(m, path, i, lo);
    assert a.Keys == b.Keys;
    forall q | q in a
      ensures a[q] == b[q]
    {
      if q != key {
        BumpedNextAt(m, path, i, lo, q);
      }
    }
  }

  lemma BumpedNextAt(m: map<seq<nat>, nat>, path: seq<nat>, i: nat, lo: nat, q: seq<nat>)
    requires i < |path| && q != path[..i + 1] && q in Bumped(m, path[..i + 1], lo, i + 1)
    ensures q in Bumped(m, path[..i], lo, i)
    ensures Bumped(m, path[..i + 1], lo, i + 1)[q] == Bumped(m, path[..i], lo, i)[q]
  {
    BumpedNextKeys(m, path, i, lo);
    PrefixStep(path, i, q);
    if Lex.IsPrefix(q, path[..i]) {
      assert |q| <= i;
    }
  }

  lemma BumpedNextKeys(m: map<seq<nat>, nat>, path: seq<nat>, i: nat, lo: nat)
    requires i < |path|
    ensures Bumped(m, path[..i + 1], lo, i + 1).Keys == Bumped(m, path[..i], lo, i).Keys + {path[..i + 1]}
  {
    PrefixesAre(path[..i + 1]);
    PrefixesAre(path[..i]);
    forall q | q != path[..i + 1]
      ensures Lex.IsPrefix(q, path[..i + 1]) <==> Lex.IsPrefix(q, path[..i])
    {
      PrefixStep(path, i, q);
    }
  }

  /** The prefixes of a path of i + 1 terms are those of its first i terms and itself. */
  lemma PrefixStep(path: seq<nat>, i: nat, q: seq<nat>)
    requires i < |path| && q != path[..i + 1]
    ensures Lex.IsPrefix(q, path[..i + 1]) <==> Lex.IsPrefix(q, path[..i])
  {
    if Lex.IsPrefix(q, path[..i + 1]) {
      assert |q| <= i;
      assert path[..i][..|q|] == path[..i + 1][..|q|];
    }
    if Lex.IsPrefix(q, path[..i]) {
      assert path[..i][..|q|] == path[..i + 1][..|q|];
    }
  }

  /** The node-by-node walk is the closed form: along `path` every prefix is present and
      exactly those of depth `lo .. |path|` (from 1) are counted once; no other key changes. */
  lemma {:induction false} CountedIsBumped(m: map<seq<nat>, nat>, path: seq<nat>, lo: nat)
    requires [] in m
    ensures Counted(m, path, lo) == Bumped(m, path, lo, |path|)
    decreases |path|
  {
    if |path| == 0 {
      PrefixesAre([]);
      assert Bumped(m, [], lo, 0).Keys == m.Keys;
    } else {
      var i := |path| - 1;
      assert path[..i + 1] == path;
      CountedIsBumped(m, path[..i], lo);
      BumpedNext(m, path, i, lo);
      var prev := Counted(m, path[..i], lo);
      if path in prev && path !in m {
        PrefixesAre(path[..i]);
        assert false;
      }
      assert path in prev ==> prev[path] == Base(m, path) by {
        PrefixesAre(path[..i]);
      }
    }
  }

  /** A walk that counts no node deeper than the path leaves every counter as if it counted
      none. */
  lemma {:induction false} CountedNone(m: map<seq<nat>, nat>, path: seq<nat>, lo: nat)
    requires lo > |path|
    ensures Counted(m, path, lo) == Counted(m, path, 0)
    decreases |path|
  {
    if |path| > 0 {
      CountedNone(m, path[..|path| - 1], lo);
    }
  }

  /** One more term of path extends its prefix of length i. */
  lemma TakeSnoc(path: seq<nat>, i: nat)
    requires i < |path|
    ensures path[..i] + [path[i]] == path[..i + 1]
  {
  }

  /** The walk along the first `i + 1` terms is the walk along the first `i` grown by one
      node. */
  lemma CountedSnoc(m: map<seq<nat>, nat>, path: seq<nat>, i: nat, lo: nat)
    requires i < |path|
    ensures Counted(m, path[..i + 1], lo) == Grow(Counted(m, path[..i], lo), path[..i + 1], 1 <= lo <= i + 1)
  {
    assert path[..i + 1][..i] == path[..i];
  }

  /** Counting the last node afterwards (`avr`) is the walk counting depth `|path|` only. */
  lemma CountedLast(m: map<seq<nat>, nat>, path: seq<nat>)
    requires |path| >= 1
    ensures path in Counted(m, path, 0)
    ensures Counted(m, path, 0)[path := Inc(Counted(m, path, 0)[path], true)] == Counted(m, path, |path|)
  {
    CountedNone(m, path[..|path| - 1], |path|);
  }

  // -----------------------------------------------------------------------------------------
  // The previous segmentation of a sequence

  /** `seg_pos_vec` for a sequence of n terms: the end of every word, strictly increasing,
      all positive, the last one n. */
  predicate SegPositions(vec: seq<nat>, n: nat)
  {
    |vec| > 0 && vec[|vec| - 1] == n
    && (forall k :: 0 <= k < |vec| ==> 0 < vec[k])
    && (forall a, b :: 0 <= a < b < |vec| ==> vec[a] < vec[b])
  }

  /** Where word k of a segmentation begins. */
  function Start(vec: seq<nat>, k: nat): nat
    requires k < |vec|
  {
    if k == 0 then 0 else vec[k - 1]
  }

  /** The words `[Start(k), vec[k])` of a segmentation of w, in order. */
  function Segs(w: seq<nat>, vec: seq<nat>): (ws: seq<seq<nat>>)
    requires vec == [] || SegPositions(vec, |w|)
    ensures |ws| == |vec|
  {
    seq(|vec|, k requires 0 <= k < |vec| && SegPositions(vec, |w|) =>
      assert vec[k] <= vec[|vec| - 1];
      w[Start(vec, k)..vec[k]])
  }

  /** Word k runs from its start to `vec[k]`, within w. */
  lemma SegsAt(w: seq<nat>, vec: seq<nat>, k: nat)
    requires SegPositions(vec, |w|) && k < |vec|
    ensures Start(vec, k) < vec[k] <= |w|
    ensures Segs(w, vec)[k] == w[Start(vec, k)..vec[k]]
  {
    assert vec[k] <= vec[|vec| - 1];
    assert k > 0 ==> vec[k - 1] < vec[k];
  }

  /** The words of the first k positions make up w up to the k-th position. */
  lemma {:induction false} SegsPrefix(w: seq<nat>, vec: seq<nat>, k: nat)
    requires SegPositions(vec, |w|) && k <= |vec|
    ensures Flatten(Segs(w, vec)[..k]) == w[..if k == 0 then 0 else vec[k - 1]]
  {
    if k > 0 {
      SegsPrefix(w, vec, k - 1);
      var ws := Segs(w, vec)[..k];
      assert ws[..k - 1] == Segs(w, vec)[..k - 1];
      assert vec[k - 1] <= vec[|vec| - 1];
      var p := Start(vec, k - 1);
      assert w[..p] + w[p..vec[k - 1]] == w[..vec[k - 1]];
    }
  }

  /** The words of a segmentation partition the sequence: together they are w. */
  lemma SegsCover(w: seq<nat>, vec: seq<nat>)
    requires SegPositions(vec, |w|)
    ensures Flatten(Segs(w, vec)) == w
  {
    SegsPrefix(w, vec, |vec|);
    assert Segs(w, vec)[..|vec|] == Segs(w, vec);
  }

  /** Every stored sequence is non-empty and has a segmentation or none yet. */
  predicate Segmented(seqs: seq<seq<nat>>, vecs: seq<seq<nat>>)
  {
    |seqs| == |vecs|
    && forall j :: 0 <= j < |vecs| ==> |seqs[j]| > 0 && (vecs[j] == [] || SegPositions(vecs[j], |seqs[j]|))
  }

  /** The words of every stored sequence, one list per sequence. */
  function SegLists(seqs: seq<seq<nat>>, vecs: seq<seq<nat>>): (ls: seq<seq<seq<nat>>>)
    requires Segmented(seqs, vecs)
    ensures |ls| == |vecs|
  {
    seq(|vecs|, j requires 0 <= j < |vecs| => Segs(seqs[j], vecs[j]))
  }

  lemma {:induction false} FlattenAppend<T>(a: seq<seq<T>>, b: seq<seq<T>>)
    ensures Flatten(a + b) == Flatten(a) + Flatten(b)
    decreases |b|
  {
    if |b| == 0 {
      assert a + b == a;
    } else {
      var b' := b[..|b| - 1];
      FlattenAppend(a, b');
      assert (a + b)[..|a + b| - 1] == a + b';
      assert Flatten(b) == Flatten(b') + b[|b| - 1];
      assert Flatten(a) + Flatten(b') + b[|b| - 1] == Flatten(a) + (Flatten(b') + b[|b| - 1]);
    }
  }

  /** The flattened list is the lists before j, list j, then those after; replacing list j
      replaces only its part. */
  lemma FlattenUpdate<T>(ls: seq<seq<T>>, j: nat, x: seq<T>)
    requires j < |ls|
    ensures Flatten(ls) == Flatten(ls[..j]) + ls[j] + Flatten(ls[j + 1..])
    ensures Flatten(ls[j := x]) == Flatten(ls[..j]) + x + Flatten(ls[j + 1..])
  {
    var a, c := ls[..j], ls[j + 1..];
    assert ls == a + [ls[j]] + c;
    assert ls[j := x] == a + [x] + c;
    FlattenAppend(a + [ls[j]], c);
    FlattenAppend(a, [ls[j]]);
    FlattenAppend(a + [x], c);
    FlattenAppend(a, [x]);
    assert Flatten([ls[j]]) == ls[j] by { assert [ls[j]][..0] == []; }
    assert Flatten([x]) == x by { assert [x][..0] == []; }
  }

  /** A new segmentation of sequence j keeps every sequence segmented. */
  lemma SegmentedUpdate(seqs: seq<seq<nat>>, vecs: seq<seq<nat>>, j: nat, v: seq<nat>)
    requires Segmented(seqs, vecs) && j < |vecs| && SegPositions(v, |seqs[j]|)
    ensures Segmented(seqs, vecs[j := v])
  {
    var vecs' := vecs[j := v];
    forall k | 0 <= k < |vecs'|
      ensures |seqs[k]| > 0 && (vecs'[k] == [] || SegPositions(vecs'[k], |seqs[k]|))
    {
      if k != j {
        assert vecs'[k] == vecs[k];
      }
    }
  }

  /** Undoing list j of the recorded words and recording x instead is recording the list
      with x in place of list j. */
  lemma RecordAgain(g: map<seq<nat>, nat>, ls: seq<seq<seq<nat>>>, j: nat, x: seq<seq<nat>>)
    requires Bounded(g) && j < |ls|
    ensures WalkedEach(WalkedEach(WalkedEach(g, Flatten(ls), false), ls[j], true), x, false)
         == WalkedEach(g, Flatten(ls[j := x]), false)
  {
    FlattenUpdate(ls, j, x);
    WalkedEachSwap(g, Flatten(ls[..j]), ls[j], Flatten(ls[j + 1..]), x);
  }

  /** Replacing the segmentation of sequence j replaces its list. */
  lemma SegListsUpdate(seqs: seq<seq<nat>>, vecs: seq<seq<nat>>, j: nat, v: seq<nat>)
    requires Segmented(seqs, vecs) && j < |vecs| && SegPositions(v, |seqs[j]|)
    ensures Segmented(seqs, vecs[j := v])
    ensures SegLists(seqs, vecs[j := v]) == SegLists(seqs, vecs)[j := Segs(seqs[j], v)]
  {
    SegmentedUpdate(seqs, vecs, j, v);
  }

  /** The index of the first previous word end past position i, looking from index k on. */
  function CutAfter(vec: seq<nat>, i: nat, k: nat): (c: nat)
    requires k < |vec| && i < vec[|vec| - 1]
    ensures k <= c < |vec| && vec[c] > i
    ensures forall q :: k <= q < c ==> vec[q] <= i
    decreases |vec| - k
  {
    if vec[k] > i then k else CutAfter(vec, i, k + 1)
  }

  /** `min_len` at position i: 0 without a previous segmentation; otherwise the distance
      to the first previous word end past i, one less when a previous word starts at i. A
      word that is not a trie node is scored only when it is at least that long. */
  function MinLen(vec: seq<nat>, i: nat): nat
  {
    if vec == [] || i >= vec[|vec| - 1] then 0
    else
      var c := CutAfter(vec, i, 0);
      if i == 0 || (c > 0 && vec[c - 1] == i) then vec[c] - i - 1 else vec[c] - i
  }

  /** The first previous word end past i is the one at index c when the word end before
      it is not past i. */
  lemma CutAfterIs(vec: seq<nat>, n: nat, i: nat, c: nat)
    requires SegPositions(vec, n) && i < n && c < |vec| && vec[c] > i && (c == 0 || vec[c - 1] <= i)
    ensures CutAfter(vec, i, 0) == c
  {
  }

  // -----------------------------------------------------------------------------------------
  // What `segment_sequence` scores

  /** The numbers a candidate word of `len` terms is scored from: its trie counters (1 each
      for a word that is no node) and the totals of its length. */
  datatype WordStats = WordStats(len: nat, f: nat, avl: nat, avr: nat, numStr: nat, sumF: nat, sumAv: nat)

  /** The score of the word of `len` terms at position a of w, the sequence in reading order:
      the formula on the word's node counters when the word is a trie node, on ones when it
      is not but reaches `MinLen`, and no candidate (minus infinity) otherwise; no word is
      longer than N or runs past the end. The formula (`(m + 1) · log f + lrv_exp ·
      log(avl · avr)` after scaling by the totals) is a parameter. */
  function WordScore(formula: WordStats -> Ext, t: Tables, maxLen: nat, w: seq<nat>, vec: seq<nat>, a: nat, len: nat): Ext
  {
    if len == 0 || len > maxLen || a + len > |w| || |t.sumF| < len || |t.sumAv| < len || |t.numStr| < len then NegInf
    else
      var word, m := w[a..a + len], len - 1;
      if word in t.f && word in t.avl && word in t.avr then
        formula(WordStats(len, t.f[word], t.avl[word], t.avr[word], t.numStr[m], t.sumF[m], t.sumAv[m]))
      else if m >= MinLen(vec, a) then
        formula(WordStats(len, 1, 1, 1, t.numStr[m], t.sumF[m], t.sumAv[m]))
      else NegInf
  }

  /** `WordScore` as the score function of the dynamic programme of `Segmenters`. */
  function Sc(formula: WordStats -> Ext, t: Tables, maxLen: nat, w: seq<nat>, vec: seq<nat>): (nat, nat) -> Ext
  {
    (a: nat, len: nat) => WordScore(formula, t, maxLen, w, vec, a, len)
  }

  /** The cut positions of the best segmentation of w, the last one being the end. */
  function BestSegPositions(formula: WordStats -> Ext, t: Tables, maxLen: nat, w: seq<nat>, vec: seq<nat>): (r: seq<nat>)
    requires |w| > 0
    ensures SegPositions(r, |w|)
  {
    var cuts := Best(Sc(formula, t, maxLen, w, vec), 0, |w|, |w| - 1);
    ChainedIsValid(cuts, |w|);
    cuts + [|w|]
  }

  /** No segmentation of w scores above the one `BestSegPositions` picks: the programme
      finds a best segmentation under the scores of the current counts. */
  lemma BestSegPositionsOptimal(formula: WordStats -> Ext, t: Tables, maxLen: nat, w: seq<nat>, vec: seq<nat>, cuts: seq<nat>)
    requires |w| > 0 && Chained(cuts, |w|)
    ensures var r := BestSegPositions(formula, t, maxLen, w, vec);
      var sc := Sc(formula, t, maxLen, w, vec);
      !Above(Total(sc, 0, cuts, |w|), Total(sc, 0, r[..|r| - 1], |w|))
  {
    var r := BestSegPositions(formula, t, maxLen, w, vec);
    var sc := Sc(formula, t, maxLen, w, vec);
    assert r[..|r| - 1] == Best(sc, 0, |w|, |w| - 1);
    BestIsOptimal(sc, 0, |w|, cuts);
  }

  /** Row r of the push programme of `segment_sequence` once the starts `0 .. i - 1` are
      pushed: nothing yet (minus infinity, choice 0), then the whole prefix, then each later
      start in turn, kept only when strictly better; exactly `Relax` over the choices below
      i. */
  function Pending(sc: (nat, nat) -> Ext, r: nat, i: nat): (Ext, nat)
    requires i <= r + 1
  {
    if i == 0 then (NegInf, 0) else Relax(sc, 0, Values(sc, 0, r), r, i - 1)
  }

  /** Pushing start i into row r: the whole prefix for i = 0; otherwise the best value up to
      `i - 1` plus the word `[i, r]` replaces the row when strictly greater. */
  lemma PendingNext(sc: (nat, nat) -> Ext, n: nat, r: nat, i: nat)
    requires i <= r < n
    ensures var prev := Pending(sc, r, i);
      var cv := if i == 0 then NegInf else Plus(Values(sc, 0, n)[i - 1], sc(i, r + 1 - i));
      Pending(sc, r, i + 1)
        == if i == 0 then (sc(0, r + 1), 0) else if Above(cv, prev.0) then (cv, i) else prev
  {
    if i > 0 {
      TableRow(sc, 0, n, r);
      assert Values(sc, 0, n)[i - 1] == Values(sc, 0, r)[i - 1];
      RelaxNext(sc, 0, Values(sc, 0, r), r, i - 1);
    }
  }

  /** What the inner loop does to row r for start i, given `fv[i - 1]` and the word's score
      (`None` for a `continue`). */
  function Push(i: nat, last: Ext, score: Option<Ext>, cur: (Ext, nat)): (Ext, nat)
  {
    if score.None? then cur
    else if i == 0 then (score.value, cur.1)
    else if Above(Plus(last, score.value), cur.0) then (Plus(last, score.value), i)
    else cur
  }

  /** `Push` takes row r from `Pending(i)` to `Pending(i + 1)` when `fv[i - 1]` is final and
      the score is the word's. */
  lemma PushIsPending(sc: (nat, nat) -> Ext, n: nat, r: nat, i: nat, last: Ext, score: Option<Ext>)
    requires i <= r < n
    requires i > 0 ==> last == Values(sc, 0, n)[i - 1]
    requires score.None? ==> sc(i, r + 1 - i) == NegInf
    requires score.Some? ==> score.value == sc(i, r + 1 - i)
    ensures Push(i, last, score, Pending(sc, r, i)) == Pending(sc, r, i + 1)
  {
    PendingNext(sc, n, r, i);
  }

  /** A row the start i cannot reach (its word would be longer than N) is left as it was. */
  lemma PendingSkip(sc: (nat, nat) -> Ext, n: nat, r: nat, i: nat)
    requires i <= r < n && sc(i, r + 1 - i) == NegInf
    ensures Pending(sc, r, i + 1) == Pending(sc, r, i)
  {
    PendingNext(sc, n, r, i);
  }

  /** Once every start up to r is pushed, row r holds the value and choice of the table. */
  lemma PendingDone(sc: (nat, nat) -> Ext, n: nat, r: nat)
    requires r < n
    ensures Pending(sc, r, r + 1) == (Values(sc, 0, n)[r], Choices(sc, 0, n)[r])
  {
    TableRow(sc, 0, n, r);
  }

  /** The vectors of `segment_sequence` before start i: rows below i hold the table's
      values and choices, the others `Pending(i)`. */
  ghost predicate Filled(sc: (nat, nat) -> Ext, n: nat, i: nat, fv: seq<Ext>, fs: seq<nat>)
  {
    && i <= n && |fv| == n == |fs|
    && (forall r :: 0 <= r < i ==> fv[r] == Values(sc, 0, n)[r] && fs[r] == Choices(sc, 0, n)[r])
    && (forall r :: i <= r < n ==> (fv[r], fs[r]) == Pending(sc, r, i))
  }

  /** Before the first start every row is minus infinity with choice 0; after the last one
      `fs` is the table's choices. */
  lemma FilledEnds(sc: (nat, nat) -> Ext, n: nat, fv: seq<Ext>, fs: seq<nat>)
    ensures (fv == seq(n, _ => NegInf) && fs == seq(n, _ => 0)) ==> Filled(sc, n, 0, fv, fs)
    ensures Filled(sc, n, n, fv, fs) ==> fs == Choices(sc, 0, n)
  {
    if Filled(sc, n, n, fv, fs) {
      assert forall r :: 0 <= r < n ==> fs[r] == Choices(sc, 0, n)[r];
    }
  }

  /** Pushing every word from start i, which `Rows` tracks, finishes row i. */
  lemma FilledStep(sc: (nat, nat) -> Ext, n: nat, i: nat, fv: seq<Ext>, fs: seq<nat>, fv': seq<Ext>, fs': seq<nat>)
    requires i < n && Filled(sc, n, i, fv, fs) && |fv'| == n == |fs'|
    requires fv'[..i] == fv[..i] && fs'[..i] == fs[..i]
    requires forall r :: i <= r < n ==> (fv'[r], fs'[r]) == Pending(sc, r, i + 1)
    ensures Filled(sc, n, i + 1, fv', fs')
  {
    PendingDone(sc, n, i);
    forall r | 0 <= r < i
      ensures fv'[r] == fv[r] && fs'[r] == fs[r]
    {
      assert fv'[..i][r] == fv[..i][r] && fs'[..i][r] == fs[..i][r];
    }
  }

  /** A path whose prefix is missing from a trie is missing too. */
  lemma MissingStaysMissing(keys: set<seq<nat>>, q: seq<nat>, k: nat)
    requires PrefixClosed(keys) && k <= |q| && q[..k] !in keys
    ensures q !in keys
  {
    if q in keys {
      PrefixIn(keys, q, k);
      assert false;
    }
  }

  /** The state of the `seg_pos` / `seg_pos_it` pair when `segment_sequence` reaches
      position i: `it` entries of the previous segmentation consumed, `seg_pos` the last of
      them (0 before any), not behind i, and the one before it behind i. */
  predicate SegTrack(vec: seq<nat>, i: nat, segPos: nat, it: nat)
  {
    vec == [] ||
    (it <= |vec| && segPos == (if it == 0 then 0 else vec[it - 1]) && i <= segPos
     && (it >= 2 ==> vec[it - 2] < i) && ((i == 0) == (it == 0)))
  }

  /** The words ending at the cut positions read back from `fs`: `Cuts` then the end. */
  method ReadPositions(fs: seq<nat>, n: nat) returns (vec: seq<nat>)
    requires 0 < n == |fs| && forall k :: 0 <= k < |fs| ==> fs[k] <= k
    ensures vec == Cuts(fs, fs[n - 1]) + [n]
  {
    var rev: seq<nat> := [n];
    var c: nat := fs[n - 1];
    assert Reversed(rev) == [n];
    while c > 0
      invariant c < n
      invariant Cuts(fs, c) + Reversed(rev) == Cuts(fs, fs[n - 1]) + [n]
      decreases c
    {
      ReversedSnoc(rev, c);
      ghost var front := Cuts(fs, fs[c - 1]);
      assert Cuts(fs, c) == front + [c];
      assert front + ([c] + Reversed(rev)) == (front + [c]) + Reversed(rev);
      rev := rev + [c];
      c := fs[c - 1];
    }
    vec := Reversed(rev);
  }

  // -----------------------------------------------------------------------------------------
  // The policy

  /** `with_segments<N>::policy`: the LCP with the previously inserted suffix (`lcp_`), the
      trie of substrings of at most N terms, the totals per length (`std::array`s of N
      `size_t`) and one segmentation per stored sequence. */
  class Policy {
    const maxLen: nat
    var lcp: nat
    const trie: FreqTries.Trie
    const sumF: array<nat>
    const sumAv: array<nat>
    const numStr: array<nat>
    var segPosVecs: seq<seq<nat>>

    ghost predicate Valid()
      reads trie, sumF, sumAv, numStr
    {
      && trie.Valid()
      && sumF.Length == maxLen && sumAv.Length == maxLen && numStr.Length == maxLen
      && sumF != sumAv && sumF != numStr && sumAv != numStr
    }

    /** The counters the policy holds. */
    function View(): Tables
      reads trie, sumF, sumAv, numStr
    {
      Tables(trie.f, trie.avl, trie.avr, sumF[..], sumAv[..], numStr[..])
    }

    /** The constructor: `lcp_` and every total 0, a trie holding only its root, no
        sequence yet. */
    constructor (n: nat)
      ensures Valid() && fresh(trie) && fresh(sumF) && fresh(sumAv) && fresh(numStr)
      ensures maxLen == n && lcp == 0 && segPosVecs == []
      ensures View() == Tables(map[[] := 1], map[[] := 1], map[[] := 1], seq(n, _ => 0), seq(n, _ => 0), seq(n, _ => 0))
    {
      maxLen := n;
      lcp := 0;
      trie := new FreqTries.Trie();
      sumF := new nat[n](_ => 0);
      sumAv := new nat[n](_ => 0);
      numStr := new nat[n](_ => 0);
      segPosVecs := [];
    }

    /** `update(info)` after a term of s was inserted: with nothing inserted yet a new
        sequence starts, with `lcp_` 0 and an empty segmentation; otherwise the suffix of
        `num_inserted - 1` terms is counted with `lcp_lf = max(lcp, lcp_next)`, which becomes
        `lcp_`, and once all of s is inserted the whole of s is counted too and `lcp_` goes
        back to 0. The requirements are the source's assertions. */
    method Update(s: seq<nat>, numInserted: nat, lcpIn: nat, lcpNext: nat)
      requires Valid() && numInserted <= |s|
      requires numInserted == 0 ==> lcpIn == 0 && lcpNext == 0
      requires numInserted > 0 ==> lcp <= numInserted - 1
      requires numInserted > 0 && numInserted == |s| ==> Max(lcpIn, lcpNext) <= numInserted
      modifies this, trie, sumF, sumAv, numStr
      ensures Valid()
      ensures numInserted == 0 ==> lcp == 0 && segPosVecs == old(segPosVecs) + [[]] && View() == old(View())
      ensures numInserted > 0 ==> segPosVecs == old(segPosVecs)
      ensures numInserted > 0 && numInserted < |s| ==>
        lcp == Max(lcpIn, lcpNext)
        && View() == Counts(old(View()), s, numInserted - 1, old(lcp), Max(lcpIn, lcpNext), maxLen)
      ensures numInserted > 0 && numInserted == |s| ==>
        lcp == 0
        && View() == Counts(Counts(old(View()), s, numInserted - 1, old(lcp), Max(lcpIn, lcpNext), maxLen),
                            s, numInserted, Max(lcpIn, lcpNext), 0, maxLen)
    {
      if numInserted == 0 {
        lcp := 0;
        segPosVecs := segPosVecs + [[]];
        return;
      }
      var lcpLf := Max(lcpIn, lcpNext);
      ghost var t0 := View();
      UpdateCounts(s, numInserted - 1, lcpLf);
      ghost var t1 := View();
      assert t1 == Counts(t0, s, numInserted - 1, old(lcp), lcpLf, maxLen);
      lcp := lcpLf;
      if numInserted == |s| {
        UpdateCounts(s, numInserted, 0);
        assert View() == Counts(t1, s, numInserted, lcpLf, 0, maxLen);
        lcp := 0;
      }
    }

    /** `update_counts(s, n, lcp_lf)`: the walk down the trie along `Path(s, n, lcp_, N)`
        and the totals, as `Counts` gives them. */
    method UpdateCounts(s: seq<nat>, n: nat, lcpLf: nat)
      requires Valid() && lcp <= n <= |s|
      modifies trie, sumF, sumAv, numStr
      ensures Valid()
      ensures View() == Counts(old(View()), s, n, lcp, lcpLf, maxLen)
    {
      ghost var t0 := View();
      var path := Path(s, n, lcp, maxLen);
      if lcp > 0 {
        WalkAndMark(path, lcpLf, lcp <= maxLen);
      }
      RaiseTotals(s, n, lcpLf, t0);
      CountsAre(t0, s, n, lcp, lcpLf, maxLen, View());
    }

    /** The totals part of `update_counts`: lengths below `min(lcp_, N)` in `sum_f_` and
        `lcp_ - 1` in `sum_av_` during the walk, then `lcp_ .. min(n, N)` in all three. */
    method RaiseTotals(s: seq<nat>, n: nat, lcpLf: nat, ghost t: Tables)
      requires Valid() && lcp <= n <= |s|
      requires t.sumF == sumF[..] && t.sumAv == sumAv[..] && t.numStr == numStr[..]
      modifies sumF, sumAv, numStr
      ensures sumF[..] == Counts(t, s, n, lcp, lcpLf, maxLen).sumF
      ensures sumAv[..] == Counts(t, s, n, lcp, lcpLf, maxLen).sumAv
      ensures numStr[..] == Counts(t, s, n, lcp, lcpLf, maxLen).numStr
    {
      if lcp > 0 {
        Raise(sumF, 0, Min(lcp, maxLen));
        if lcp <= maxLen {
          Raise(sumAv, lcp - 1, lcp);
        }
      }
      var hi := Min(n, maxLen);
      Raise(sumF, lcp, hi);
      Raise(sumAv, lcp, hi);
      Raise(numStr, lcp, hi);
      CountsTotals(t, s, n, lcp, lcpLf, maxLen);
    }

    /** The trie part of `update_counts`: the walk along path, then one more `avr` on its
        last node when `lcp_ <= N` (mark). */
    method WalkAndMark(path: seq<nat>, lcpLf: nat, mark: bool)
      requires trie.Valid() && (mark ==> |path| > 0)
      modifies trie
      ensures trie.Valid()
      ensures trie.f == Counted(old(trie.f), path, 1)
      ensures trie.avl == Counted(old(trie.avl), path, Max(1, lcpLf))
      ensures trie.avr == Counted(old(trie.avr), path, if mark then |path| else 0)
    {
      ghost var avr0 := trie.avr;
      var node := WalkPath(path, lcpLf);
      if mark {
        MarkLast(node);
        CountedLast(avr0, path);
      }
    }

    /** A loop adding one to each total of the lengths `lo .. hi` (`++sum_f_[i]` and the
        like). */
    method Raise(a: array<nat>, lo: nat, hi: nat)
      requires hi <= a.Length
      modifies a
      ensures a[..] == Raised(old(a[..]), lo, hi)
    {
      var i := lo;
      while i < hi
        invariant lo <= i && (i <= hi || i == lo)
        invariant forall k :: 0 <= k < a.Length ==> a[k] == Inc(old(a[k]), lo <= k < i)
      {
        a[i] := Wrap(a[i] + 1);
        i := i + 1;
      }
      assert a[..] == Raised(old(a[..]), lo, hi);
    }

    /** `++node->avr`: the node the walk ends on counts one more right variety. */
    method MarkLast(node: seq<nat>)
      requires trie.Valid() && node in trie.f
      modifies trie
      ensures trie.Valid() && trie.f == old(trie.f) && trie.avl == old(trie.avl)
      ensures trie.avr == old(trie.avr)[node := Inc(old(trie.avr)[node], true)]
    {
      assert trie.f[node] < Word && trie.avl[node] < Word;
      trie.SetCounters(node, trie.f[node], trie.avl[node], trie.avr[node] + 1);
    }

    /** The loop of `update_counts` down the trie: each term of the path takes the node to
        its child, created if missing (`get(c, true)`); the child's `f` and `sum_f_` of its
        length rise by one, and its `avl` when its depth is at least `lcp_lf`. */
    method WalkPath(path: seq<nat>, lcpLf: nat) returns (node: seq<nat>)
      requires trie.Valid()
      modifies trie
      ensures trie.Valid() && node == path && node in trie.f
      ensures trie.f == Counted(old(trie.f), path, 1)
      ensures trie.avl == Counted(old(trie.avl), path, Max(1, lcpLf))
      ensures trie.avr == Counted(old(trie.avr), path, 0)
    {
      ghost var f0, avl0, avr0 := trie.f, trie.avl, trie.avr;
      node := trie.Root();
      assert path[..0] == [];
      var i := 0;
      while i < |path|
        invariant trie.Valid() && i <= |path| && node == path[..i] && node in trie.f
        invariant trie.f == Counted(f0, path[..i], 1)
        invariant trie.avl == Counted(avl0, path[..i], Max(1, lcpLf))
        invariant trie.avr == Counted(avr0, path[..i], 0)
      {
        TakeSnoc(path, i);
        node := WalkStep(node, path[i], 1 <= Max(1, lcpLf) <= i + 1);
        CountedSnoc(f0, path, i, 1);
        CountedSnoc(avl0, path, i, Max(1, lcpLf));
        CountedSnoc(avr0, path, i, 0);
        i := i + 1;
      }
      assert path[..i] == path;
    }

    /** One step of `WalkPath`: the child of `node` by `key`, grown in every counter map. */
    method WalkStep(node: seq<nat>, key: nat, countAvl: bool) returns (next: seq<nat>)
      requires trie.Valid() && node in trie.f
      modifies trie
      ensures trie.Valid() && next == node + [key] && next in trie.f
      ensures trie.f == Grow(old(trie.f), next, true)
      ensures trie.avl == Grow(old(trie.avl), next, countAvl)
      ensures trie.avr == Grow(old(trie.avr), next, false)
    {
      ghost var f1, avl1, avr1 := trie.f, trie.avl, trie.avr;
      next := Reach(node, key);
      ghost var f2, avl2, avr2 := trie.f, trie.avl, trie.avr;
      trie.SetCounters(next, trie.f[next] + 1, trie.avl[next] + (if countAvl then 1 else 0), trie.avr[next]);
      GrowAfterGet(f1, f2, next, true);
      GrowAfterGet(avl1, avl2, next, countAvl);
      GrowAfterGet(avr1, avr2, next, false);
    }

    /** `node->get(c, true)`: the child of node by key, created with every counter at 1 when
        missing. */
    method Reach(node: seq<nat>, key: nat) returns (next: seq<nat>)
      requires trie.Valid() && node in trie.f
      modifies trie
      ensures trie.Valid() && next == node + [key] && next in trie.f
      ensures trie.f == if next in old(trie.f) then old(trie.f) else old(trie.f)[next := 1]
      ensures trie.avl == if next in old(trie.avl) then old(trie.avl) else old(trie.avl)[next := 1]
      ensures trie.avr == if next in old(trie.avr) then old(trie.avr) else old(trie.avr)[next := 1]
    {
      var child := trie.Get(node, key, true);
      next := child.value;
    }

    /** The `seg_pos` bookkeeping at the top of the outer loop of `segment_sequence`:
        `min_len` is `MinLen(vec, i)`, and the pair moves on when i reaches `seg_pos`. */
    static method NextMinLen(vec: seq<nat>, n: nat, i: nat, segPos: nat, it: nat)
      returns (minLen: nat, segPos': nat, it': nat)
      requires (vec == [] || SegPositions(vec, n)) && i < n && SegTrack(vec, i, segPos, it)
      ensures minLen == MinLen(vec, i) && SegTrack(vec, i + 1, segPos', it')
    {
      minLen, segPos', it' := 0, segPos, it;
      if vec != [] {
        if i == segPos {
          assert it < |vec| by {
            if it == |vec| {
              assert vec[|vec| - 1] == n;
            }
          }
          segPos' := vec[it];
          it' := it + 1;
          assert it == 0 || vec[it - 1] < vec[it];
          CutAfterIs(vec, n, i, it);
          minLen := segPos' - i - 1;
        } else {
          assert it >= 1;
          assert it == 1 || vec[it - 2] < i;
          CutAfterIs(vec, n, i, it - 1);
          minLen := segPos - i;
        }
      }
    }

    /** The trie walk of the inner loop: one more term from the node of `w[i..i + m]`
        (const `get`), staying null once a step is missing. */
    function NextNode(w: seq<nat>, i: nat, m: nat, node: Option<seq<nat>>): (next: Option<seq<nat>>)
      reads trie
      requires trie.Valid() && i + m < |w|
      requires node.Some? <==> w[i..i + m] in trie.f
      requires node.Some? ==> node.value == w[i..i + m]
      ensures next.Some? <==> w[i..i + m + 1] in trie.f
      ensures next.Some? ==> next.value == w[i..i + m + 1]
    {
      assert w[i..i + m] + [w[i + m]] == w[i..i + m + 1];
      assert w[i..i + m + 1][..m] == w[i..i + m];
      if node.Some? then trie.Child(node.value, w[i + m])
      else
        MissingStaysMissing(trie.f.Keys, w[i..i + m + 1], m);
        None
    }

    /** The score of the word `w[i..i + m + 1]` the inner loop reaches: from the node's
        counters, from ones when there is no node but the word reaches `min_len`, and
        nothing (`continue`) otherwise; the totals are those of length `m + 1`. */
    function ScoreWord(formula: WordStats -> Ext, w: seq<nat>, vec: seq<nat>, i: nat, m: nat, minLen: nat,
                       node: Option<seq<nat>>): (score: Option<Ext>)
      reads trie, sumF, sumAv, numStr
      requires Valid() && i + m < |w| && m < maxLen && minLen == MinLen(vec, i)
      requires node.Some? <==> w[i..i + m + 1] in trie.f
      requires node.Some? ==> node.value == w[i..i + m + 1]
      ensures score.None? <==> node.None? && m < minLen
      ensures score.Some? ==> score.value == WordScore(formula, View(), maxLen, w, vec, i, m + 1)
      ensures score.None? ==> WordScore(formula, View(), maxLen, w, vec, i, m + 1) == NegInf
    {
      if node.Some? then
        var p := node.value;
        Some(formula(WordStats(m + 1, trie.f[p], trie.avl[p], trie.avr[p], numStr[m], sumF[m], sumAv[m])))
      else if m >= minLen then
        Some(formula(WordStats(m + 1, 1, 1, 1, numStr[m], sumF[m], sumAv[m])))
      else None
    }

    /** The rows while the inner loop runs from start i: those below i as they were, those
        the words from i have reached (below `i + m`) at `Pending(i + 1)`, the rest at
        `Pending(i)`. */
    static ghost predicate Rows(sc: (nat, nat) -> Ext, n: nat, i: nat, m: nat, fv0: seq<Ext>, fs0: seq<nat>,
                                fv: seq<Ext>, fs: seq<nat>)
    {
      && i <= n && |fv0| == n == |fs0| && |fv| == n == |fs|
      && (forall r :: 0 <= r < i ==> fv[r] == fv0[r] && fs[r] == fs0[r])
      && (forall r :: i <= r < n ==> (fv[r], fs[r]) == Pending(sc, r, if r < i + m then i + 1 else i))
    }

    /** The update of row `i + m` in the inner loop of `segment_sequence`: nothing for a
        `continue`; from the first start the row takes the score (`fv[m] = score`); from a
        later one `fv[i - 1] + score` replaces the row, and i becomes its choice, when
        strictly greater. */
    static function PushRow(ghost sc: (nat, nat) -> Ext, n: nat, i: nat, m: nat, score: Option<Ext>,
                            ghost fv0: seq<Ext>, ghost fs0: seq<nat>, fv: seq<Ext>, fs: seq<nat>)
      : (r: (seq<Ext>, seq<nat>))
      requires i + m < n && Rows(sc, n, i, m, fv0, fs0, fv, fs)
      requires i > 0 ==> fv0[i - 1] == Values(sc, 0, n)[i - 1]
      requires score.None? ==> sc(i, m + 1) == NegInf
      requires score.Some? ==> score.value == sc(i, m + 1)
      ensures Rows(sc, n, i, m + 1, fv0, fs0, r.0, r.1)
    {
      var last := if i == 0 then NegInf else fv[i - 1];
      var cell := Push(i, last, score, (fv[i + m], fs[i + m]));
      PushIsPending(sc, n, i + m, i, last, score);
      RowsStep(sc, n, i, m, fv0, fs0, fv, fs, cell);
      (fv[i + m := cell.0], fs[i + m := cell.1])
    }

    /** Setting row `i + m` to `Pending(i + 1)` moves the rows one word on. */
    static lemma RowsStep(sc: (nat, nat) -> Ext, n: nat, i: nat, m: nat, fv0: seq<Ext>, fs0: seq<nat>,
                          fv: seq<Ext>, fs: seq<nat>, cell: (Ext, nat))
      requires i + m < n && Rows(sc, n, i, m, fv0, fs0, fv, fs)
      requires cell == Pending(sc, i + m, i + 1)
      ensures Rows(sc, n, i, m + 1, fv0, fs0, fv[i + m := cell.0], fs[i + m := cell.1])
    {
    }

    /** One pass of the inner loop of `segment_sequence`: every word `[i, i + m]` of at most
        N terms is scored and pushed into row `i + m`. Rows below i are final and stay; each
        row from i on goes from `Pending(i)` to `Pending(i + 1)`. */
    method PushFrom(formula: WordStats -> Ext, w: seq<nat>, vec: seq<nat>, i: nat, minLen: nat,
                    fv: seq<Ext>, fs: seq<nat>, ghost sc: (nat, nat) -> Ext)
      returns (fv': seq<Ext>, fs': seq<nat>)
      requires Valid() && |fv| == |w| == |fs| && i < |w| && minLen == MinLen(vec, i)
      requires forall len :: sc(i, len) == WordScore(formula, View(), maxLen, w, vec, i, len)
      requires i > 0 ==> fv[i - 1] == Values(sc, 0, |w|)[i - 1]
      requires forall r :: i <= r < |w| ==> (fv[r], fs[r]) == Pending(sc, r, i)
      ensures |fv'| == |w| == |fs'|
      ensures fv'[..i] == fv[..i] && fs'[..i] == fs[..i]
      ensures forall r :: i <= r < |w| ==> (fv'[r], fs'[r]) == Pending(sc, r, i + 1)
    {
      var n := |w|;
      var node: Option<seq<nat>> := Some(trie.Root());
      var maxM := Min(n - i, maxLen);
      var m := 0;
      fv', fs' := fv, fs;
      assert w[i..i] == [];
      while m < maxM
        invariant m <= maxM && Rows(sc, n, i, m, fv, fs, fv', fs')
        invariant node.Some? <==> w[i..i + m] in trie.f
        invariant node.Some? ==> node.value == w[i..i + m]
      {
        node := NextNode(w, i, m, node);
        var score := ScoreWord(formula, w, vec, i, m, minLen, node);
        assert score.Some? ==> score.value == sc(i, m + 1);
        assert score.None? ==> sc(i, m + 1) == NegInf;
        var row := PushRow(sc, n, i, m, score, fv, fs, fv', fs');
        fv', fs' := row.0, row.1;
        m := m + 1;
      }
      forall r | i + maxM <= r < n
        ensures Pending(sc, r, i + 1) == Pending(sc, r, i)
      {
        PendingSkip(sc, n, r, i);
      }
      assert fv'[..i] == fv[..i];
      assert fs'[..i] == fs[..i];
    }

    /** The dynamic programme of `segment_sequence` over `w` (the sequence in reading order,
        `inv_s` reversed) with the previous segmentation vec: for each start i, `min_len` is
        updated and every word from i is pushed; `fs` then holds the table's choices. */
    method Fill(formula: WordStats -> Ext, w: seq<nat>, vec: seq<nat>) returns (fs: seq<nat>)
      requires Valid() && |w| > 0 && (vec == [] || SegPositions(vec, |w|))
      ensures fs == Choices(Sc(formula, View(), maxLen, w, vec), 0, |w|)
    {
      ghost var sc := Sc(formula, View(), maxLen, w, vec);
      var n := |w|;
      var fv: seq<Ext> := seq(n, _ => NegInf);
      fs := seq(n, _ => 0);
      FilledEnds(sc, n, fv, fs);
      var segPos := 0;
      var it := 0;
      var i := 0;
      while i < n
        invariant Filled(sc, n, i, fv, fs) && SegTrack(vec, i, segPos, it)
      {
        var minLen;
        minLen, segPos, it := NextMinLen(vec, n, i, segPos, it);
        var fv', fs' := PushFrom(formula, w, vec, i, minLen, fv, fs, sc);
        FilledStep(sc, n, i, fv, fs, fv', fs');
        fv, fs := fv', fs';
        i := i + 1;
      }
      FilledEnds(sc, n, fv, fs);
    }

    /** The restore (`increase`, up) or record (`decrease`) loop of `segment_sequence`: the
        words `[prev_pos, pos)` of vec, in order, each walked in the trie. */
    method WalkSegs(w: seq<nat>, vec: seq<nat>, up: bool)
      requires trie.Valid() && SegPositions(vec, |w|)
      modifies trie
      ensures trie.Valid()
      ensures trie.f == WalkedEach(old(trie.f), Segs(w, vec), up)
      ensures trie.avl == old(trie.avl) && trie.avr == old(trie.avr)
    {
      ghost var f0 := trie.f;
      ghost var ws := Segs(w, vec);
      var prev := 0;
      var k := 0;
      while k < |vec|
        invariant trie.Valid() && k <= |vec| && (k < |vec| ==> prev == Start(vec, k))
        invariant trie.f == WalkedEach(f0, ws[..k], up)
        invariant trie.avl == old(trie.avl) && trie.avr == old(trie.avr)
      {
        SegsAt(w, vec, k);
        var word := w[prev..vec[k]];
        Record(word, up);
        WalkedEachSnoc(f0, ws, k, up);
        prev := vec[k];
        k := k + 1;
      }
      assert ws[..k] == ws;
    }

    /** `trie_.increase` (up) or `trie_.decrease` of one word. */
    method Record(word: seq<nat>, up: bool)
      requires trie.Valid()
      modifies trie
      ensures trie.Valid() && trie.f == Walked(old(trie.f), word, up)
      ensures trie.avl == old(trie.avl) && trie.avr == old(trie.avr)
    {
      if up {
        trie.Increase(word);
      } else {
        trie.Decrease(word);
      }
    }

    /** `segment_sequence(inv_s, seg_pos_vecs_[j], lrv_exp)` for the sequence `w` (`inv_s`
        read backwards): the best segmentation under the current counts replaces the
        previous one, whose words are restored in the trie (`increase`) before the new
        words are recorded (`decrease`). */
    method SegmentSequence(formula: WordStats -> Ext, w: seq<nat>, j: nat)
      requires Valid() && j < |segPosVecs| && |w| > 0
      requires segPosVecs[j] == [] || SegPositions(segPosVecs[j], |w|)
      modifies this, trie
      ensures Valid() && lcp == old(lcp)
      ensures segPosVecs == old(segPosVecs)[j := BestSegPositions(formula, old(View()), maxLen, w, old(segPosVecs[j]))]
      ensures trie.f == WalkedEach(WalkedEach(old(trie.f), Segs(w, old(segPosVecs[j])), true), Segs(w, segPosVecs[j]), false)
      ensures trie.avl == old(trie.avl) && trie.avr == old(trie.avr)
    {
      var vec := segPosVecs[j];
      ghost var t := View();
      var fs := Fill(formula, w, vec);
      if vec != [] {
        WalkSegs(w, vec, true);
      }
      var vec' := ReadPositions(fs, |w|);
      assert vec' == BestSegPositions(formula, t, maxLen, w, vec);
      segPosVecs := segPosVecs[j := vec'];
      WalkSegs(w, vec', false);
    }

    /** `num_segs(i)`: the number of words of sequence i. */
    function NumSegs(i: nat, ghost w: seq<nat>): (r: nat)
      reads this
      requires i < |segPosVecs| && (segPosVecs[i] == [] || SegPositions(segPosVecs[i], |w|))
      ensures r == |Segs(w, segPosVecs[i])|
    {
      |segPosVecs[i]|
    }

    /** `seg_pos(i, k)`: where word k of sequence i ends; the words up to it make up the
        sequence up to there, and only the last word ends at the end. */
    function SegPos(i: nat, k: nat, ghost w: seq<nat>): (r: nat)
      reads this
      requires i < |segPosVecs| && k < |segPosVecs[i]| && SegPositions(segPosVecs[i], |w|)
      ensures 0 < r <= |w| && (r == |w| <==> k == |segPosVecs[i]| - 1)
      ensures Flatten(Segs(w, segPosVecs[i])[..k + 1]) == w[..r]
    {
      SegsPrefix(w, segPosVecs[i], k + 1);
      segPosVecs[i][k]
    }

    /** `optimize(lrv_exp, num_iters)`: num_iters passes, each segmenting every stored
        sequence again in order. seqs are the sequences `recover_sequence` yields, in
        reading order. The trie ends up holding the base counts (those before any word was
        recorded) less the words of the final segmentations; when they are the ones it
        started from, the trie is as it was. In the last pass, which started from the
        segmentations `prev`, sequence j received the best segmentation under `views[j]`,
        the counts at its turn. */
    method Optimize(formula: WordStats -> Ext, numIters: nat, seqs: seq<seq<nat>>)
      returns (ghost prev: seq<seq<nat>>, ghost views: seq<Tables>)
      requires Valid() && Segmented(seqs, segPosVecs)
      modifies this, trie
      ensures Valid() && lcp == old(lcp) && Segmented(seqs, segPosVecs)
      ensures trie.avl == old(trie.avl) && trie.avr == old(trie.avr)
      ensures trie.f == WalkedEach(WalkedEach(old(trie.f), Flatten(SegLists(seqs, old(segPosVecs))), true),
                                   Flatten(SegLists(seqs, segPosVecs)), false)
      ensures numIters == 0 ==> segPosVecs == old(segPosVecs)
      ensures numIters > 0 ==> forall j :: 0 <= j < |seqs| ==> SegPositions(segPosVecs[j], |seqs[j]|)
      ensures segPosVecs == old(segPosVecs) ==> trie.f == old(trie.f)
      ensures numIters > 0 ==> Segmented(seqs, prev)
      ensures numIters > 0 ==>
        BestTurns(formula, maxLen, views, old(View()),
                  WalkedEach(old(trie.f), Flatten(SegLists(seqs, old(segPosVecs))), true),
                  seqs, prev, segPosVecs, |seqs|)
    {
      ghost var f0 := trie.f;
      ghost var t0 := View();
      ghost var base := WalkedEach(f0, Flatten(SegLists(seqs, segPosVecs)), true);
      WalkedEachRoundTrip(f0, Flatten(SegLists(seqs, segPosVecs)), true);
      prev, views := segPosVecs, [];
      if numIters > 0 {
        prev, views := Repeat(formula, numIters, seqs, base);
      }
    }

    /** The passes of `optimize` from the first on, with the trie at the base counts less
        the recorded words. */
    method Repeat(formula: WordStats -> Ext, numIters: nat, seqs: seq<seq<nat>>, ghost base: map<seq<nat>, nat>)
      returns (ghost prev: seq<seq<nat>>, ghost views: seq<Tables>)
      requires numIters > 0 && Valid() && Segmented(seqs, segPosVecs) && Bounded(base)
      requires trie.f == WalkedEach(base, Flatten(SegLists(seqs, segPosVecs)), false)
      modifies this, trie
      ensures Valid() && lcp == old(lcp) && Segmented(seqs, segPosVecs)
      ensures trie.avl == old(trie.avl) && trie.avr == old(trie.avr)
      ensures trie.f == WalkedEach(base, Flatten(SegLists(seqs, segPosVecs)), false)
      ensures forall j :: 0 <= j < |seqs| ==> SegPositions(segPosVecs[j], |seqs[j]|)
      ensures Segmented(seqs, prev)
      ensures BestTurns(formula, maxLen, views, old(View()), base, seqs, prev, segPosVecs, |seqs|)
    {
      ghost var t0 := View();
      prev := segPosVecs;
      views := Pass(formula, seqs, base, t0);
      var count := 1;
      while count < numIters
        invariant count <= numIters && Valid() && lcp == old(lcp) && Segmented(seqs, segPosVecs)
        invariant trie.avl == old(trie.avl) && trie.avr == old(trie.avr)
        invariant trie.f == WalkedEach(base, Flatten(SegLists(seqs, segPosVecs)), false)
        invariant View() == t0.(f := trie.f)
        invariant forall j :: 0 <= j < |seqs| ==> SegPositions(segPosVecs[j], |seqs[j]|)
        invariant Segmented(seqs, prev)
        invariant BestTurns(formula, maxLen, views, t0, base, seqs, prev, segPosVecs, |seqs|)
      {
        prev := segPosVecs;
        views := Pass(formula, seqs, base, t0);
        count := count + 1;
      }
    }

    /** One pass of `optimize`: `segment_sequence` on every stored sequence j in order. With
        the trie at the base counts less the recorded words, it stays so. Sequence j
        receives the best segmentation under `views[j]`, the counts at its turn: the base
        counts less the new words of the sequences before it and the old words of the
        others. */
    method Pass(formula: WordStats -> Ext, seqs: seq<seq<nat>>, ghost base: map<seq<nat>, nat>, ghost t0: Tables)
      returns (ghost views: seq<Tables>)
      requires Valid() && Segmented(seqs, segPosVecs) && Bounded(base) && View() == t0.(f := trie.f)
      requires trie.f == WalkedEach(base, Flatten(SegLists(seqs, segPosVecs)), false)
      modifies this, trie
      ensures Valid() && lcp == old(lcp) && Segmented(seqs, segPosVecs)
      ensures trie.avl == old(trie.avl) && trie.avr == old(trie.avr)
      ensures View() == t0.(f := trie.f)
      ensures trie.f == WalkedEach(base, Flatten(SegLists(seqs, segPosVecs)), false)
      ensures forall j :: 0 <= j < |seqs| ==> SegPositions(segPosVecs[j], |seqs[j]|)
      ensures BestTurns(formula, maxLen, views, t0, base, seqs, old(segPosVecs), segPosVecs, |seqs|)
    {
      ghost var olds := segPosVecs;
      views := [];
      var j := 0;
      while j < |segPosVecs|
        invariant Valid() && lcp == old(lcp) && Segmented(seqs, segPosVecs) && j <= |seqs|
        invariant trie.avl == old(trie.avl) && trie.avr == old(trie.avr)
        invariant View() == t0.(f := trie.f)
        invariant trie.f == WalkedEach(base, Flatten(SegLists(seqs, segPosVecs)), false)
        invariant segPosVecs[j..] == olds[j..]
        invariant BestTurns(formula, maxLen, views, t0, base, seqs, olds, segPosVecs, j)
      {
        ghost var before, v := segPosVecs, View();
        Resegment(formula, seqs, j, base);
        assert View() == t0.(f := trie.f);
        TurnStep(formula, maxLen, views, t0, base, seqs, olds, before, segPosVecs, j, v);
        views := views + [v];
        j := j + 1;
      }
      TurnsSegmented(formula, maxLen, views, t0, base, seqs, olds, segPosVecs, j);
    }

    /** `segment_sequence` on stored sequence j within a pass: sequence j receives the best
        segmentation under the counts of this moment, and the trie stays at the base counts
        less the recorded words, now with the new words of sequence j. */
    method Resegment(formula: WordStats -> Ext, seqs: seq<seq<nat>>, j: nat, ghost base: map<seq<nat>, nat>)
      requires Valid() && Segmented(seqs, segPosVecs) && j < |seqs| && Bounded(base)
      requires trie.f == WalkedEach(base, Flatten(SegLists(seqs, segPosVecs)), false)
      modifies this, trie
      ensures Valid() && lcp == old(lcp) && Segmented(seqs, segPosVecs)
      ensures trie.avl == old(trie.avl) && trie.avr == old(trie.avr)
      ensures View() == old(View()).(f := trie.f)
      ensures trie.f == WalkedEach(base, Flatten(SegLists(seqs, segPosVecs)), false)
      ensures segPosVecs == old(segPosVecs)[j := segPosVecs[j]] && SegPositions(segPosVecs[j], |seqs[j]|)
      ensures segPosVecs[j] == BestSegPositions(formula, old(View()), maxLen, seqs[j], old(segPosVecs[j]))
    {
      ghost var vecs := segPosVecs;
      SegmentSequence(formula, seqs[j], j);
      SegListsUpdate(seqs, vecs, j, segPosVecs[j]);
      RecordAgain(base, SegLists(seqs, vecs), j, Segs(seqs[j], segPosVecs[j]));
    }
  }

  /** The counts at sequence j's turn in a pass that started from the segmentations `olds`
      and ends with `news`: the tables `t0` the pass started from, with the frequencies at
      the base counts less the words of the new segmentations before j and of the old
      ones from j on. */
  ghost predicate AtTurn(t: Tables, t0: Tables, base: map<seq<nat>, nat>, seqs: seq<seq<nat>>,
                         olds: seq<seq<nat>>, news: seq<seq<nat>>, j: nat)
  {
    && j <= |olds| == |news|
    && Segmented(seqs, news[..j] + olds[j..])
    && t == t0.(f := WalkedEach(base, Flatten(SegLists(seqs, news[..j] + olds[j..])), false))
  }

  /** Turn k of a pass that started from `olds` and has reached `cur`: sequence k received
      the best segmentation under `v`, the counts at its turn. */
  ghost predicate BestTurn(formula: WordStats -> Ext, maxLen: nat, v: Tables, t0: Tables,
                           base: map<seq<nat>, nat>, seqs: seq<seq<nat>>, olds: seq<seq<nat>>,
                           cur: seq<seq<nat>>, k: nat)
  {
    && k < |olds| == |cur| == |seqs| && |seqs[k]| > 0
    && cur[k] == BestSegPositions(formula, v, maxLen, seqs[k], olds[k])
    && AtTurn(v, t0, base, seqs, olds, cur, k)
  }

  /** The first j turns of such a pass, turn k under the counts `views[k]`. */
  ghost predicate BestTurns(formula: WordStats -> Ext, maxLen: nat, views: seq<Tables>, t0: Tables,
                            base: map<seq<nat>, nat>, seqs: seq<seq<nat>>, olds: seq<seq<nat>>,
                            cur: seq<seq<nat>>, j: nat)
  {
    && |views| == j <= |olds| == |cur| == |seqs|
    && forall k :: 0 <= k < j ==> BestTurn(formula, maxLen, views[k], t0, base, seqs, olds, cur, k)
  }

  /** After its first j turns, the first j sequences of a pass hold complete segmentations. */
  lemma TurnsSegmented(formula: WordStats -> Ext, maxLen: nat, views: seq<Tables>, t0: Tables,
                       base: map<seq<nat>, nat>, seqs: seq<seq<nat>>, olds: seq<seq<nat>>,
                       cur: seq<seq<nat>>, j: nat)
    requires BestTurns(formula, maxLen, views, t0, base, seqs, olds, cur, j)
    ensures forall k :: 0 <= k < j ==> SegPositions(cur[k], |seqs[k]|)
  {
    forall k | 0 <= k < j
      ensures SegPositions(cur[k], |seqs[k]|)
    {
      assert BestTurn(formula, maxLen, views[k], t0, base, seqs, olds, cur, k);
    }
  }

  /** Segmenting sequence j under the counts `v` of its turn records that turn and keeps
      the earlier ones. */
  lemma TurnStep(formula: WordStats -> Ext, maxLen: nat, views: seq<Tables>, t0: Tables,
                 base: map<seq<nat>, nat>, seqs: seq<seq<nat>>, olds: seq<seq<nat>>,
                 before: seq<seq<nat>>, after: seq<seq<nat>>, j: nat, v: Tables)
    requires BestTurns(formula, maxLen, views, t0, base, seqs, olds, before, j)
    requires j < |olds| && before[j..] == olds[j..] && Segmented(seqs, before)
    requires v == t0.(f := WalkedEach(base, Flatten(SegLists(seqs, before)), false))
    requires |after| == |before| && after == before[j := after[j]]
    requires after[j] == BestSegPositions(formula, v, maxLen, seqs[j], before[j])
    ensures BestTurns(formula, maxLen, views + [v], t0, base, seqs, olds, after, j + 1)
    ensures after[j + 1..] == olds[j + 1..]
  {
    var vs := views + [v];
    forall k | 0 <= k < j + 1
      ensures BestTurn(formula, maxLen, vs[k], t0, base, seqs, olds, after, k)
    {
      if k < j {
        TurnKept(formula, maxLen, views[k], t0, base, seqs, olds, before, after, j, k);
      } else {
        TurnNow(formula, maxLen, t0, base, seqs, olds, before, after, j, v);
      }
    }
    assert after[j + 1..] == before[j + 1..];
    assert before[j + 1..] == olds[j..][1..];
  }

  /** A turn stays recorded when only a later sequence changes. */
  lemma TurnKept(formula: WordStats -> Ext, maxLen: nat, v: Tables, t0: Tables,
                 base: map<seq<nat>, nat>, seqs: seq<seq<nat>>, olds: seq<seq<nat>>,
                 before: seq<seq<nat>>, after: seq<seq<nat>>, j: nat, k: nat)
    requires BestTurn(formula, maxLen, v, t0, base, seqs, olds, before, k)
    requires k < j < |before| == |after| && after == before[j := after[j]]
    ensures BestTurn(formula, maxLen, v, t0, base, seqs, olds, after, k)
  {
    assert after[..k] == before[..k];
  }

  /** Sequence j's turn comes when the sequences before it hold their new segmentations and
      the others their old ones. */
  lemma TurnNow(formula: WordStats -> Ext, maxLen: nat, t0: Tables, base: map<seq<nat>, nat>,
                seqs: seq<seq<nat>>, olds: seq<seq<nat>>, before: seq<seq<nat>>,
                after: seq<seq<nat>>, j: nat, v: Tables)
    requires j < |olds| == |before| == |after| == |seqs| && before[j..] == olds[j..] && Segmented(seqs, before)
    requires v == t0.(f := WalkedEach(base, Flatten(SegLists(seqs, before)), false))
    requires after == before[j := after[j]]
    requires after[j] == BestSegPositions(formula, v, maxLen, seqs[j], before[j])
    ensures BestTurn(formula, maxLen, v, t0, base, seqs, olds, after, j)
  {
    assert before[j] == olds[j] by {
      assert before[j..][0] == olds[j..][0];
    }
    assert after[..j] == before[..j];
    assert before[..j] + olds[j..] == before;
  }
}
