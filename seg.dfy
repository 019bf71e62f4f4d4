/** `Segmenter` of src/seg.cpp (declared in include/seg.hpp): the first revision of the
    segmenter, over wide strings (sequences of code points) and the `FreqTrie` of
    src/trie.cpp. A range is segmented by trying every split point and recursing on both
    halves; a segmentation is a list of word lengths whose remainder is the last word. The
    floating-point scores are modelled as reals. */
module Seg {
  import opened Options
  import opened TriePaths
  import Tries
  import FreqTries

  /** The total of a list of lengths. */
  function Sum(xs: seq<nat>): nat
  {
    if xs == [] then 0 else Sum(xs[..|xs| - 1]) + xs[|xs| - 1]
  }

  /** The words one after another. */
  function Concat(ws: seq<seq<nat>>): seq<nat>
  {
    if ws == [] then [] else Concat(ws[..|ws| - 1]) + ws[|ws| - 1]
  }

  /** The length of every word. */
  function Lengths(ws: seq<seq<nat>>): (ls: seq<nat>)
    ensures |ls| == |ws|
  {
    seq(|ws|, k requires 0 <= k < |ws| => |ws[k]|)
  }

  lemma {:induction false} SumAppend(a: seq<nat>, b: seq<nat>)
    ensures Sum(a + b) == Sum(a) + Sum(b)
    decreases |b|
  {
    if b == [] {
      assert a + b == a;
    } else {
      assert (a + b)[..|a + b| - 1] == a + b[..|b| - 1];
      SumAppend(a, b[..|b| - 1]);
    }
  }

  lemma SumSnoc(a: seq<nat>, k: nat)
    requires k < |a|
    ensures Sum(a[..k + 1]) == Sum(a[..k]) + a[k]
  {
    assert a[..k + 1][..k] == a[..k];
  }

  /** A prefix of a list of lengths sums to no more than the whole list. */
  lemma {:induction false} SumPrefix(a: seq<nat>, k: nat)
    requires k <= |a|
    ensures Sum(a[..k]) <= Sum(a)
    decreases |a| - k
  {
    if k < |a| {
      SumSnoc(a, k);
      SumPrefix(a, k + 1);
    } else {
      assert a[..k] == a;
    }
  }

  // -----------------------------------------------------------------------------------------
  // segment(sequence, seg): lengths to words

  /** `segment(sequence, seg)`: word k is the `seg[k]` terms after the first k, clamped at
      the end of `s` as `substr` does, and the rest of `s` is the last word. `substr`
      throws `out_of_range` when its start is past the end: that is the `None` result, and
      it happens exactly when the lengths add up to more than `|s|`. Otherwise the words
      put back together give `s`, and all but the last have the lengths `seg`. */
  method SplitWords(s: seq<nat>, seg: seq<nat>) returns (words: Option<seq<seq<nat>>>)
    ensures words.Some? <==> Sum(seg) <= |s|
    ensures words.Some? ==> |words.value| == |seg| + 1 && Concat(words.value) == s
    ensures words.Some? ==> Lengths(words.value[..|seg|]) == seg
  {
    var ws: seq<seq<nat>> := [];
    var start := 0;
    var k := 0;
    while k < |seg|
      invariant 0 <= k <= |seg| && |ws| == k && start == Sum(seg[..k]) <= |s|
      invariant Concat(ws) == s[..start] && Lengths(ws) == seg[..k]
    {
      var stop := if start + seg[k] <= |s| then start + seg[k] else |s|;
      var word := s[start..stop];
      SumSnoc(seg, k);
      if stop < start + seg[k] {
        // the next `substr` starts past the end and throws
        SumPrefix(seg, k + 1);
        return None;
      }
      assert Concat(ws + [word]) == s[..start] + s[start..stop];
      assert s[..stop] == s[..start] + s[start..stop];
      assert Lengths(ws + [word]) == seg[..k + 1];
      ws := ws + [word];
      start := start + seg[k];
      k := k + 1;
    }
    assert seg[..k] == seg;
    var last := s[start..];
    assert Concat(ws + [last]) == s[..start] + s[start..];
    assert s[..start] + s[start..] == s;
    assert (ws + [last])[..|seg|] == ws;
    words := Some(ws + [last]);
  }

  // -----------------------------------------------------------------------------------------
  // The recursive segment(begin, end)

  /** The lengths of a segmentation of a range of n terms into words: all positive, with
      something left for the last word. */
  predicate Lens(fs: seq<nat>, n: nat)
  {
    (forall i :: 0 <= i < |fs| ==> fs[i] > 0) && Sum(fs) < n
  }

  /** The lengths of the left half's words, then the rest of the left half up to the split
      at m (`seg - offset`), then the right half's. */
  function Glue(left: seq<nat>, m: nat, right: seq<nat>): (fs: seq<nat>)
    requires Sum(left) < m
    ensures |fs| == |left| + 1 + |right|
  {
    left + [m - Sum(left)] + right
  }

  /** Gluing two segmentations at a split inside a range gives a segmentation of the range. */
  lemma GlueLens(left: seq<nat>, m: nat, right: seq<nat>, n: nat)
    requires Lens(left, m) && m < n && Lens(right, n - m)
    ensures Lens(Glue(left, m, right), n)
  {
    var fs := Glue(left, m, right);
    SumAppend(left, [m - Sum(left)]);
    SumAppend(left + [m - Sum(left)], right);
    assert Sum([m - Sum(left)]) == m - Sum(left) by {
      assert [m - Sum(left)][..0] == [];
    }
    forall i | 0 <= i < |fs|
      ensures fs[i] > 0
    {
      if i > |left| {
        assert fs[i] == right[i - |left| - 1];
      }
    }
  }

  /** The best score and segmentation of the range `r` (`segment(begin, end)`): start from the
      whole range as one word, scored by its `iv`, and try the splits from left to right. */
  function Best(nodes: map<seq<nat>, Tries.NodeStats>, lrv: real -> real, r: seq<nat>): (b: (real, seq<nat>))
    requires |r| >= 1
    ensures Lens(b.1, |r|)
    ensures |r| == 1 ==> b == (Tries.IvAt(nodes, r), [])
    decreases |r|, 2
  {
    assert Sum([]) == 0;
    Scan(nodes, lrv, r, 1, (Tries.IvAt(nodes, r), []))
  }

  /** The split at m: both halves segmented at their best, scored by the product of their
      scores and `pow(hr * hl, lrv_exp)` of the left half's `hr` and the right half's `hl`
      (`lrv` is `x ↦ pow(x, lrv_exp)`). */
  function Candidate(nodes: map<seq<nat>, Tries.NodeStats>, lrv: real -> real, r: seq<nat>, m: nat): (c: (real, seq<nat>))
    requires 0 < m < |r|
    ensures Lens(c.1, |r|) && c.1 != []
    decreases |r|, 0
  {
    var left, right := Best(nodes, lrv, r[..m]), Best(nodes, lrv, r[m..]);
    GlueLens(left.1, m, right.1, |r|);
    (left.0 * right.0 * lrv(Tries.HrAt(nodes, r[..m]) * Tries.HlAt(nodes, r[m..])), Glue(left.1, m, right.1))
  }

  /** The split at m, written out. */
  lemma CandidateOf(nodes: map<seq<nat>, Tries.NodeStats>, lrv: real -> real, r: seq<nat>, m: nat,
                    left: (real, seq<nat>), right: (real, seq<nat>))
    requires 0 < m < |r| && left == Best(nodes, lrv, r[..m]) && right == Best(nodes, lrv, r[m..])
    ensures Candidate(nodes, lrv, r, m) == (left.0 * right.0 * lrv(Tries.HrAt(nodes, r[..m]) * Tries.HlAt(nodes, r[m..])), Glue(left.1, m, right.1))
  {
    var c := Candidate(nodes, lrv, r, m);
    var x := left.0 * right.0 * lrv(Tries.HrAt(nodes, r[..m]) * Tries.HlAt(nodes, r[m..]));
    var y := Glue(left.1, m, right.1);
    assert c.0 == x && c.1 == y;
    assert c == (c.0, c.1);
  }

  /** The splits from m on, with the best so far in `acc`: a split replaces it only when its
      score is strictly greater. */
  function Scan(nodes: map<seq<nat>, Tries.NodeStats>, lrv: real -> real, r: seq<nat>, m: nat, acc: (real, seq<nat>)): (b: (real, seq<nat>))
    requires 1 <= m <= |r| && Lens(acc.1, |r|)
    ensures Lens(b.1, |r|)
    ensures m == |r| ==> b == acc
    decreases |r|, 1, |r| - m
  {
    if m == |r| then acc
    else
      var c := Candidate(nodes, lrv, r, m);
      Scan(nodes, lrv, r, m + 1, if c.0 > acc.0 then c else acc)
  }

  /** `b` is the split at m, it scores strictly more than `floor`, and so does it than every
      split from `lo` up to m. */
  predicate FirstBest(nodes: map<seq<nat>, Tries.NodeStats>, lrv: real -> real, r: seq<nat>, lo: nat, m: nat, b: (real, seq<nat>), floor: real)
  {
    && 0 < lo <= m < |r| && b == Candidate(nodes, lrv, r, m) && b.0 > floor
    && forall m' :: lo <= m' < m ==> Candidate(nodes, lrv, r, m').0 < b.0
  }

  /** The choice after the split at m: the split if it scores strictly more. */
  function Keep(nodes: map<seq<nat>, Tries.NodeStats>, lrv: real -> real, r: seq<nat>, m: nat, acc: (real, seq<nat>)): (k: (real, seq<nat>))
    requires 0 < m < |r|
    ensures k.0 >= acc.0 && k.0 >= Candidate(nodes, lrv, r, m).0
  {
    var c := Candidate(nodes, lrv, r, m);
    if c.0 > acc.0 then c else acc
  }

  lemma ScanStep(nodes: map<seq<nat>, Tries.NodeStats>, lrv: real -> real, r: seq<nat>, m: nat, acc: (real, seq<nat>))
    requires 1 <= m < |r| && Lens(acc.1, |r|)
    ensures Lens(Keep(nodes, lrv, r, m, acc).1, |r|)
    ensures Scan(nodes, lrv, r, m, acc) == Scan(nodes, lrv, r, m + 1, Keep(nodes, lrv, r, m, acc))
  {
  }

  /** The scan never ends below `acc`. */
  lemma {:induction false} ScanAtLeast(nodes: map<seq<nat>, Tries.NodeStats>, lrv: real -> real, r: seq<nat>, m: nat, acc: (real, seq<nat>))
    requires 1 <= m <= |r| && Lens(acc.1, |r|)
    ensures Scan(nodes, lrv, r, m, acc).0 >= acc.0
    decreases |r| - m
  {
    if m < |r| {
      ScanStep(nodes, lrv, r, m, acc);
      ScanAtLeast(nodes, lrv, r, m + 1, Keep(nodes, lrv, r, m, acc));
    }
  }

  /** No split from m on scores more than what the scan keeps. */
  lemma {:induction false} ScanMax(nodes: map<seq<nat>, Tries.NodeStats>, lrv: real -> real, r: seq<nat>, m: nat, acc: (real, seq<nat>))
    requires 1 <= m <= |r| && Lens(acc.1, |r|)
    ensures forall m' :: m <= m' < |r| ==> Candidate(nodes, lrv, r, m').0 <= Scan(nodes, lrv, r, m, acc).0
    decreases |r| - m
  {
    if m < |r| {
      var acc' := Keep(nodes, lrv, r, m, acc);
      ScanStep(nodes, lrv, r, m, acc);
      ScanMax(nodes, lrv, r, m + 1, acc');
      ScanAtLeast(nodes, lrv, r, m + 1, acc');
    }
  }

  /** The scan keeps `acc` or the first split from m on that reaches the maximum, which
      strictly beats `acc`. */
  lemma {:induction false} ScanPick(nodes: map<seq<nat>, Tries.NodeStats>, lrv: real -> real, r: seq<nat>, m: nat, acc: (real, seq<nat>))
    requires 1 <= m <= |r| && Lens(acc.1, |r|)
    ensures var b := Scan(nodes, lrv, r, m, acc);
      b == acc || exists m' :: FirstBest(nodes, lrv, r, m, m', b, acc.0)
    decreases |r| - m
  {
    if m < |r| {
      var acc' := Keep(nodes, lrv, r, m, acc);
      ScanStep(nodes, lrv, r, m, acc);
      ScanPick(nodes, lrv, r, m + 1, acc');
      var b := Scan(nodes, lrv, r, m + 1, acc');
      if b != acc {
        if b == acc' {
          assert FirstBest(nodes, lrv, r, m, m, b, acc.0);
        } else {
          var m' :| FirstBest(nodes, lrv, r, m + 1, m', b, acc'.0);
          assert FirstBest(nodes, lrv, r, m, m', b, acc.0);
        }
      }
    }
  }

  /** `segment(begin, end)` returns the best score among the whole range and every split, and
      a split is taken only when it beats the whole range strictly and every earlier split
      strictly: ties go to the whole range and then to the leftmost split. */
  lemma BestChoice(nodes: map<seq<nat>, Tries.NodeStats>, lrv: real -> real, r: seq<nat>)
    requires |r| >= 1
    ensures var b := Best(nodes, lrv, r);
      && b.0 >= Tries.IvAt(nodes, r)
      && (forall m :: 0 < m < |r| ==> Candidate(nodes, lrv, r, m).0 <= b.0)
      && (b == (Tries.IvAt(nodes, r), []) || exists m :: FirstBest(nodes, lrv, r, 1, m, b, Tries.IvAt(nodes, r)))
  {
    var acc := (Tries.IvAt(nodes, r), []);
    assert Sum(acc.1) == 0;
    ScanAtLeast(nodes, lrv, r, 1, acc);
    ScanMax(nodes, lrv, r, 1, acc);
    ScanPick(nodes, lrv, r, 1, acc);
  }

  /** The range stays one word exactly when no split scores strictly more than its `iv`. */
  lemma BestKeepsWhole(nodes: map<seq<nat>, Tries.NodeStats>, lrv: real -> real, r: seq<nat>)
    requires |r| >= 1
    ensures Best(nodes, lrv, r).1 == [] <==> forall m :: 0 < m < |r| ==> Candidate(nodes, lrv, r, m).0 <= Tries.IvAt(nodes, r)
  {
    BestChoice(nodes, lrv, r);
    var b, iv := Best(nodes, lrv, r), Tries.IvAt(nodes, r);
    if b == (iv, []) {
      assert b.0 == iv && b.1 == [];
    } else {
      var m :| FirstBest(nodes, lrv, r, 1, m, b, iv);
      assert b == Candidate(nodes, lrv, r, m);
      assert b.1 != [] && Candidate(nodes, lrv, r, m).0 > iv;
    }
  }

  // -----------------------------------------------------------------------------------------
  // The segmenter

  class Segmenter {
    const trie: Tries.FreqTrie
    /** `x ↦ pow(x, lrv_exp_)`. */
    const lrv: real -> real
    const maxIters: nat
    /** The trie's score formulas (`update_hsp1`, `update_iv`). */
    const hsp1: Tries.Entropy
    const intensity: Tries.Intensity

    /** The constructor: a trie with the given `max_length` and `smooth`, and the boundary
        term `'\0'`. */
    constructor (lrv: real -> real, maxIters: nat, maxLength: nat, smooth: real, hsp1: Tries.Entropy, intensity: Tries.Intensity)
      ensures this.lrv == lrv && this.maxIters == maxIters && this.hsp1 == hsp1 && this.intensity == intensity
      ensures fresh(trie) && trie.Valid()
      ensures trie.maxDepth == maxLength && trie.smooth == smooth && trie.boundary == 0
      ensures trie.nodes == map[[] := Tries.Fresh] && trie.fm == Options.None
    {
      this.lrv := lrv;
      this.maxIters := maxIters;
      this.hsp1 := hsp1;
      this.intensity := intensity;
      trie := new Tries.FreqTrie(maxLength, smooth, 0);
    }

    /** The recursive `segment(begin, end)` on the range's terms `r`, which must not be empty
        (on an empty range the loop starts past the end). */
    method SplitRange(r: seq<nat>) returns (fv: real, fs: seq<nat>)
      requires |r| >= 1
      ensures (fv, fs) == Best(trie.nodes, lrv, r)
      decreases |r|, 1
    {
      fv, fs := trie.IvOf(r), [];
      assert Sum(fs) == 0;
      var m := 1;
      while m < |r|
        invariant 1 <= m <= |r| && Lens(fs, |r|)
        invariant Scan(trie.nodes, lrv, r, m, (fv, fs)) == Best(trie.nodes, lrv, r)
      {
        ScanStep(trie.nodes, lrv, r, m, (fv, fs));
        fv, fs := TrySplit(r, m, fv, fs);
        m := m + 1;
      }
    }

    /** One turn of the loop: both halves of the split at m segmented, and the split taken
        when it scores strictly more than the best so far. */
    method TrySplit(r: seq<nat>, m: nat, fv0: real, fs0: seq<nat>) returns (fv: real, fs: seq<nat>)
      requires 0 < m < |r|
      ensures (fv, fs) == Keep(trie.nodes, lrv, r, m, (fv0, fs0))
      decreases |r|, 0
    {
      var lv, ls := SplitRange(r[..m]);
      var rv, rs := SplitRange(r[m..]);
      var cv := lv * rv * lrv(trie.HrOf(r[..m]) * trie.HlOf(r[m..]));
      CandidateOf(trie.nodes, lrv, r, m, (lv, ls), (rv, rs));
      ghost var c := Candidate(trie.nodes, lrv, r, m);
      assert trie.HrOf(r[..m]) == Tries.HrAt(trie.nodes, r[..m]) && trie.HlOf(r[m..]) == Tries.HlAt(trie.nodes, r[m..]);
      assert cv == c.0;
      assert c == (cv, Glue(ls, m, rs));
      fv, fs := fv0, fs0;
      if cv > fv {
        var offset := Total(ls);
        fv, fs := cv, ls + [m - offset] + rs;
        assert (fv, fs) == c;
      }
    }

    /** `segment(sequence)`: the best segmentation of a non-empty sequence, as words that put
        back together give the sequence, all non-empty, with the lengths of the best split. */
    method Segment(s: seq<nat>) returns (words: seq<seq<nat>>)
      requires |s| >= 1
      ensures Concat(words) == s && forall k :: 0 <= k < |words| ==> |words[k]| > 0
      ensures |words| == |Best(trie.nodes, lrv, s).1| + 1
      ensures Lengths(words[..|words| - 1]) == Best(trie.nodes, lrv, s).1
    {
      var fv, fs := SplitRange(s);
      var split := SplitWords(s, fs);
      words := split.value;
      forall k | 0 <= k < |words|
        ensures |words[k]| > 0
      {
        if k < |fs| {
          assert |words[k]| == Lengths(words[..|fs|])[k];
        } else {
          LastWordLength(words, fs);
        }
      }
    }

    /** `fit(sequences)`: the trie is cleared and counts every sequence as a whole (with
        `include_self`), its scores are computed, and then each pass segments every sequence
        with the current scores, after putting back the counts of the previous pass's words
        (`increase(words, false)`) and before taking out those of the new words
        (`decrease(words, false)`), and recomputes `iv`. `history` holds the segmentation
        before the first pass (none) and after each pass: the passes stop at the first that
        repeats the one before, or after `max_iters`. At the end every node's `f` is its
        count over the sequences less its count over the words of the last segmentation,
        `wordLists`. Pass i started from the counts `starts[i]`, those of the whole
        sequences, and segmented each sequence at its best under them less the words of the
        sequences before it (`splits[i]` are the words of pass i). Every sequence must be
        non-empty (see `SplitRange`). */
    method Fit(sequences: seq<seq<nat>>)
      returns (ghost history: seq<seq<seq<nat>>>, ghost wordLists: seq<seq<seq<nat>>>,
               ghost starts: seq<map<seq<nat>, Tries.NodeStats>>, ghost splits: seq<seq<seq<seq<nat>>>>)
      requires trie.Valid() && NonEmpty(sequences)
      modifies trie
      ensures trie.Valid()
      ensures Passed(sequences, history, maxIters)
      ensures SplitAll(sequences, history[|history| - 1], wordLists)
      ensures Tallied(trie.nodes, Tries.IncreasedAll(Tries.Cleared(old(trie.nodes)), sequences, trie.maxDepth, true, trie.boundary),
                      [], Flat(wordLists), trie.maxDepth, trie.boundary)
      ensures BestPasses(Tries.IncreasedAll(Tries.Cleared(old(trie.nodes)), sequences, trie.maxDepth, true, trie.boundary),
                         lrv, sequences, history, starts, splits, trie.maxDepth, trie.boundary)
      ensures |history| > 1 ==> wordLists == splits[|splits| - 1]
    {
      ghost var base := Start(sequences);
      history, wordLists, starts, splits := Passes(sequences, base);
    }

    /** The loop of `fit`, from the scores of the whole sequences on. */
    method Passes(sequences: seq<seq<nat>>, ghost base: map<seq<nat>, Tries.NodeStats>)
      returns (ghost history: seq<seq<seq<nat>>>, ghost wordLists: seq<seq<seq<nat>>>,
               ghost starts: seq<map<seq<nat>, Tries.NodeStats>>, ghost splits: seq<seq<seq<seq<nat>>>>)
      requires trie.Valid() && trie.fm.Some? && NonEmpty(sequences)
      requires Tries.Sane(base) && Covered(base, sequences, trie.maxDepth)
      requires Tallied(trie.nodes, base, [], [], trie.maxDepth, trie.boundary)
      modifies trie`nodes
      ensures Fitted(sequences, base, history, wordLists, starts, splits)
    {
      var prev: seq<seq<nat>> := [];
      ghost var prevWords: seq<seq<seq<nat>>> := [];
      assert Flat(prevWords) == [];
      history, starts, splits := [[]], [], [];
      var i := 0;
      while i < maxIters
        invariant 0 <= i <= maxIters && |history| == i + 1 && history[i] == prev
        invariant Between(sequences, base, prev, prevWords)
        invariant Recorded(base, lrv, sequences, history, starts, splits, prevWords, trie.maxDepth, trie.boundary)
      {
        var segs;
        ghost var wl, start;
        segs, wl, start := Advance(sequences, prev, base, prevWords);
        if prev == segs {
          FittedAtRepeat(sequences, base, history, starts, splits, prevWords, segs, start, wl);
          history, starts, splits, wordLists := history + [segs], starts + [start], splits + [wl], wl;
          return;
        }
        RecordedNext(base, lrv, sequences, history, starts, splits, prevWords, segs, start, wl, trie.maxDepth, trie.boundary);
        history, starts, splits := history + [segs], starts + [start], splits + [wl];
        prev, prevWords := segs, wl;
        i := i + 1;
      }
      wordLists := prevWords;
      FittedAtLimit(sequences, base, history, wordLists, starts, splits);
    }

    /** The loop of `fit` stopped at the limit. */
    lemma FittedAtLimit(sequences: seq<seq<nat>>, base: map<seq<nat>, Tries.NodeStats>, history: seq<seq<seq<nat>>>,
                        wordLists: seq<seq<seq<nat>>>, starts: seq<map<seq<nat>, Tries.NodeStats>>,
                        splits: seq<seq<seq<seq<nat>>>>)
      requires |history| == maxIters + 1 && Between(sequences, base, history[maxIters], wordLists)
      requires Recorded(base, lrv, sequences, history, starts, splits, wordLists, trie.maxDepth, trie.boundary)
      ensures Fitted(sequences, base, history, wordLists, starts, splits)
    {
    }

    /** The loop of `fit` stopped when a pass repeated the segmentation before it. */
    lemma FittedAtRepeat(sequences: seq<seq<nat>>, base: map<seq<nat>, Tries.NodeStats>, history: seq<seq<seq<nat>>>,
                         starts: seq<map<seq<nat>, Tries.NodeStats>>, splits: seq<seq<seq<seq<nat>>>>,
                         last: seq<seq<seq<nat>>>, segs: seq<seq<nat>>, start: map<seq<nat>, Tries.NodeStats>,
                         words: seq<seq<seq<nat>>>)
      requires Recorded(base, lrv, sequences, history, starts, splits, last, trie.maxDepth, trie.boundary)
      requires |history| <= maxIters && segs == history[|history| - 1]
      requires Segmentation(sequences, segs) && Between(sequences, base, segs, words)
      requires Tallied(start, base, [], [], trie.maxDepth, trie.boundary)
      requires BestEach(start, lrv, sequences, segs, words, trie.maxDepth, trie.boundary)
      ensures Fitted(sequences, base, history + [segs], words, starts + [start], splits + [words])
    {
      RecordedSnoc(base, lrv, sequences, history, starts, splits, last, segs, start, words, trie.maxDepth, trie.boundary);
    }

    /** Where the loop of `fit` ends: the passes stopped at the limit or at a repeat, the
        counts are those of the whole sequences less the words of the last segmentation
        (`Between`), and every pass was at its best. */
    ghost predicate Fitted(sequences: seq<seq<nat>>, base: map<seq<nat>, Tries.NodeStats>, history: seq<seq<seq<nat>>>,
                           wordLists: seq<seq<seq<nat>>>, starts: seq<map<seq<nat>, Tries.NodeStats>>,
                           splits: seq<seq<seq<seq<nat>>>>)
      reads this, trie
    {
      && Passed(sequences, history, maxIters)
      && Between(sequences, base, history[|history| - 1], wordLists)
      && BestPasses(base, lrv, sequences, history, starts, splits, trie.maxDepth, trie.boundary)
      && (|history| > 1 ==> wordLists == splits[|splits| - 1])
    }

    /** Where the loop of `fit` stands between passes: the counts of the whole sequences less
        those of the words of `prev`, the last segmentation, and scores computed. */
    ghost predicate Between(sequences: seq<seq<nat>>, base: map<seq<nat>, Tries.NodeStats>, prev: seq<seq<nat>>,
                            prevWords: seq<seq<seq<nat>>>)
      reads this, trie
    {
      && trie.Valid() && trie.fm.Some? && NonEmpty(sequences) && Tries.Sane(base) && Covered(base, sequences, trie.maxDepth)
      && (prev == [] || Segmentation(sequences, prev)) && SplitAll(sequences, prev, prevWords)
      && Tallied(trie.nodes, base, [], Flat(prevWords), trie.maxDepth, trie.boundary)
    }

    /** `update_iv()` after a pass, which leaves every counter as it was. */
    method Rescore(sequences: seq<seq<nat>>, ghost base: map<seq<nat>, Tries.NodeStats>, prev: seq<seq<nat>>,
                   ghost prevWords: seq<seq<seq<nat>>>)
      requires Between(sequences, base, prev, prevWords)
      modifies trie`nodes
      ensures trie.nodes == Tries.WithIv(old(trie.nodes), trie.fm.value, intensity)
      ensures Between(sequences, base, prev, prevWords)
    {
      ghost var counted := trie.nodes;
      var ok := trie.UpdateIv(intensity);
      TalliedRescored(counted, trie.nodes, base, [], Flat(prevWords), trie.maxDepth, trie.boundary);
    }

    /** The start of `fit`: the trie cleared, every sequence counted as a whole, and the scores
        `hl`, `hr`, the averages and `iv` computed from those counts. */
    method Start(sequences: seq<seq<nat>>) returns (ghost base: map<seq<nat>, Tries.NodeStats>)
      requires trie.Valid()
      modifies trie
      ensures trie.Valid() && base == Tries.IncreasedAll(Tries.Cleared(old(trie.nodes)), sequences, trie.maxDepth, true, trie.boundary)
      ensures trie.fm == Options.Some(Tries.WithHsp1(base, hsp1))
      ensures trie.nodes == Tries.WithIv(Tries.WithHsp1(base, hsp1), Tries.WithHsp1(base, hsp1), intensity)
      ensures Tries.Sane(base) && Covered(base, sequences, trie.maxDepth)
      ensures Tallied(trie.nodes, base, [], [], trie.maxDepth, trie.boundary)
    {
      trie.Clear();
      trie.IncreaseAll(sequences, true);
      base := trie.nodes;
      CoveredBase(Tries.Cleared(old(trie.nodes)), sequences, trie.maxDepth, trie.boundary);
      TalliedStart(base, trie.maxDepth, trie.boundary);
      trie.UpdateHsp1(hsp1);
      TalliedRescored(base, trie.nodes, base, [], [], trie.maxDepth, trie.boundary);
      trie.UpdateFm();
      ghost var scored := trie.nodes;
      var ok := trie.UpdateIv(intensity);
      TalliedRescored(scored, trie.nodes, base, [], [], trie.maxDepth, trie.boundary);
    }

    /** One turn of the loop of `fit`: a pass, then `update_iv()` unless the pass repeated
        the segmentation before it (the loop then stops). */
    method Advance(sequences: seq<seq<nat>>, prev: seq<seq<nat>>, ghost base: map<seq<nat>, Tries.NodeStats>,
                   ghost prevWords: seq<seq<seq<nat>>>)
      returns (segs: seq<seq<nat>>, ghost wordLists: seq<seq<seq<nat>>>, ghost start: map<seq<nat>, Tries.NodeStats>)
      requires Between(sequences, base, prev, prevWords)
      modifies trie`nodes
      ensures Segmentation(sequences, segs) && Between(sequences, base, segs, wordLists)
      ensures Tallied(start, base, [], [], trie.maxDepth, trie.boundary)
      ensures BestEach(start, lrv, sequences, segs, wordLists, trie.maxDepth, trie.boundary)
    {
      segs, wordLists, start := Iterate(sequences, prev, base, prevWords);
      if prev != segs {
        Rescore(sequences, base, segs, wordLists);
      }
    }

    /** One pass of `fit`: the previous segmentation's words counted back in (when there is
        one), which brings the counts back to those of the whole sequences (`start`), then
        every sequence segmented anew at its best under them less the words of the sequences
        before it, and its words taken out. */
    method Iterate(sequences: seq<seq<nat>>, prev: seq<seq<nat>>, ghost base: map<seq<nat>, Tries.NodeStats>,
                   ghost prevWords: seq<seq<seq<nat>>>)
      returns (segs: seq<seq<nat>>, ghost wordLists: seq<seq<seq<nat>>>, ghost start: map<seq<nat>, Tries.NodeStats>)
      requires Between(sequences, base, prev, prevWords)
      modifies trie`nodes
      ensures Segmentation(sequences, segs) && Between(sequences, base, segs, wordLists)
      ensures Tallied(start, base, [], [], trie.maxDepth, trie.boundary)
      ensures BestEach(start, lrv, sequences, segs, wordLists, trie.maxDepth, trie.boundary)
    {
      if prev != [] {
        Restore(sequences, prev, base, prevWords);
      } else {
        assert prevWords == [];
      }
      start := trie.nodes;
      segs, wordLists := SegmentPass(sequences, base);
    }

    /** The first loop of a pass: the words of the previous segmentation are counted back in,
        sequence by sequence, which cancels their earlier removal. */
    method Restore(sequences: seq<seq<nat>>, prev: seq<seq<nat>>, ghost base: map<seq<nat>, Tries.NodeStats>,
                   ghost prevWords: seq<seq<seq<nat>>>)
      requires trie.Valid() && Tries.Sane(base) && Covered(base, sequences, trie.maxDepth)
      requires Segmentation(sequences, prev) && SplitAll(sequences, prev, prevWords)
      requires Tallied(trie.nodes, base, [], Flat(prevWords), trie.maxDepth, trie.boundary)
      modifies trie`nodes
      ensures trie.Valid() && Tallied(trie.nodes, base, [], [], trie.maxDepth, trie.boundary)
    {
      var j := 0;
      while j < |sequences|
        invariant 0 <= j <= |sequences| && trie.Valid()
        invariant Tallied(trie.nodes, base, Flat(prevWords[..j]), Flat(prevWords), trie.maxDepth, trie.boundary)
      {
        assert Lens(prev[j], |sequences[j]|);
        var words := SplitWords(sequences[j], prev[j]);
        assert SplitInto(sequences[j], prev[j], words.value);
        RestoreStep(trie.nodes, base, sequences, prev, prevWords, j, words.value, trie.maxDepth, trie.boundary);
        trie.IncreaseAll(words.value, false);
        j := j + 1;
      }
      assert prevWords[..j] == prevWords;
      TalliedCancel(trie.nodes, base, Flat(prevWords), trie.maxDepth, trie.boundary);
    }

    /** The second loop of a pass: each sequence is segmented with the current scores and the
        counts of its words are taken out. */
    method SegmentPass(sequences: seq<seq<nat>>, ghost base: map<seq<nat>, Tries.NodeStats>)
      returns (segs: seq<seq<nat>>, ghost wordLists: seq<seq<seq<nat>>>)
      requires trie.Valid() && NonEmpty(sequences) && Covered(base, sequences, trie.maxDepth)
      requires Tallied(trie.nodes, base, [], [], trie.maxDepth, trie.boundary)
      modifies trie`nodes
      ensures trie.Valid() && Segmentation(sequences, segs) && SplitAll(sequences, segs, wordLists)
      ensures Tallied(trie.nodes, base, [], Flat(wordLists), trie.maxDepth, trie.boundary)
      ensures BestEach(old(trie.nodes), lrv, sequences, segs, wordLists, trie.maxDepth, trie.boundary)
      ensures trie.nodes == Tries.DecreasedAll(old(trie.nodes), Flat(wordLists), trie.maxDepth, false, trie.boundary)
    {
      ghost var start := trie.nodes;
      segs, wordLists := [], [];
      var j := 0;
      while j < |sequences|
        invariant 0 <= j <= |sequences| && |segs| == j && trie.Valid()
        invariant Segmentation(sequences[..j], segs) && SplitAll(sequences[..j], segs, wordLists)
        invariant Tallied(trie.nodes, base, [], Flat(wordLists), trie.maxDepth, trie.boundary)
        invariant BestEach(start, lrv, sequences, segs, wordLists, trie.maxDepth, trie.boundary)
        invariant trie.nodes == Tries.DecreasedAll(start, Flat(wordLists), trie.maxDepth, false, trie.boundary)
      {
        var fv, seg := SplitRange(sequences[j]);
        var words := SplitWords(sequences[j], seg);
        BestEachSnoc(start, lrv, sequences, segs, wordLists, seg, words.value, trie.maxDepth, trie.boundary);
        WordsCovered(base, sequences, j, seg, words.value, trie.maxDepth, trie.boundary);
        WordsOcc(base.Keys, words.value, trie.maxDepth, trie.boundary);
        TalliedDownAll(trie.nodes, base, [], Flat(wordLists), words.value, trie.maxDepth, trie.boundary);
        FlatSnoc(wordLists, words.value);
        DecreasedAllAppend(start, Flat(wordLists), words.value, trie.maxDepth, trie.boundary);
        trie.DecreaseAll(words.value, false);
        PassSnoc(sequences, j, segs, wordLists, seg, words.value);
        segs, wordLists := segs + [seg], wordLists + [words.value];
        j := j + 1;
      }
      assert sequences[..j] == sequences;
    }
  }

  /** The offset loop: the total of the left half's lengths. */
  method Total(xs: seq<nat>) returns (total: nat)
    ensures total == Sum(xs)
  {
    total := 0;
    var k := 0;
    while k < |xs|
      invariant 0 <= k <= |xs| && total == Sum(xs[..k])
    {
      SumSnoc(xs, k);
      total := total + xs[k];
      k := k + 1;
    }
    assert xs[..k] == xs;
  }

  /** The length of words put back together is the sum of their lengths. */
  lemma {:induction false} ConcatLength(ws: seq<seq<nat>>)
    ensures |Concat(ws)| == Sum(Lengths(ws))
    decreases |ws|
  {
    if ws != [] {
      ConcatLength(ws[..|ws| - 1]);
      assert Lengths(ws) == Lengths(ws[..|ws| - 1]) + [|ws[|ws| - 1]|];
      SumAppend(Lengths(ws[..|ws| - 1]), [|ws[|ws| - 1]|]);
      assert Sum([|ws[|ws| - 1]|]) == |ws[|ws| - 1]| by {
        assert [|ws[|ws| - 1]|][..0] == [];
      }
    }
  }

  /** The last word is what the lengths leave over. */
  lemma LastWordLength(words: seq<seq<nat>>, fs: seq<nat>)
    requires |words| == |fs| + 1 && Lengths(words[..|fs|]) == fs && Sum(fs) < |Concat(words)|
    ensures |words[|fs|]| > 0
  {
    ConcatLength(words);
    assert Lengths(words) == fs + [|words[|fs|]|];
    SumAppend(fs, [|words[|fs|]|]);
    assert Sum([|words[|fs|]|]) == |words[|fs|]| by {
      assert [|words[|fs|]|][..0] == [];
    }
  }

  // -----------------------------------------------------------------------------------------
  // What `fit` does to the counts

  /** Every sequence is non-empty. */
  predicate NonEmpty(ss: seq<seq<nat>>)
  {
    forall j :: 0 <= j < |ss| ==> |ss[j]| >= 1
  }

  /** One segmentation per sequence, each well formed. */
  predicate Segmentation(ss: seq<seq<nat>>, segs: seq<seq<nat>>)
  {
    |segs| == |ss| && forall j :: 0 <= j < |ss| ==> Lens(segs[j], |ss[j]|)
  }

  /** `words` is what `segment(s, seg)` returns. */
  predicate SplitInto(s: seq<nat>, seg: seq<nat>, words: seq<seq<nat>>)
  {
    |words| == |seg| + 1 && Concat(words) == s && Lengths(words[..|seg|]) == seg
  }

  /** The word lists of the first sequences under the segmentations `segs`. */
  predicate SplitAll(ss: seq<seq<nat>>, segs: seq<seq<nat>>, wordLists: seq<seq<seq<nat>>>)
  {
    |wordLists| == |segs| <= |ss| && forall j :: 0 <= j < |segs| ==> SplitInto(ss[j], segs[j], wordLists[j])
  }

  /** The trie has a node for every piece of a sequence, one to `max_depth` terms long. */
  ghost predicate Covered(base: map<seq<nat>, Tries.NodeStats>, ss: seq<seq<nat>>, maxDepth: nat)
  {
    forall j, i, k :: 0 <= j < |ss| && 0 <= i < k <= |ss[j]| && k - i <= maxDepth ==> ss[j][i..k] in base
  }

  /** Every path that `increase(words, false)` or `decrease(words, false)` steps has a node. */
  ghost predicate WordsIn(keys: set<seq<nat>>, words: seq<seq<nat>>, maxDepth: nat, boundary: nat)
  {
    forall k :: 0 <= k < |words| ==> Tries.Subs(Tries.Pass(words[k], maxDepth, false, boundary), |words[k]|) <= keys
  }

  /** The same, in the terms of `decrease`'s own precondition. */
  lemma WordsOcc(keys: set<seq<nat>>, words: seq<seq<nat>>, maxDepth: nat, boundary: nat)
    requires WordsIn(keys, words, maxDepth, boundary)
    ensures forall k, p :: 0 <= k < |words| && Tries.Occ(Tries.Pass(words[k], maxDepth, false, boundary), p, |words[k]|) > 0 ==> p in keys
  {
    forall k, p | 0 <= k < |words| && Tries.Occ(Tries.Pass(words[k], maxDepth, false, boundary), p, |words[k]|) > 0
      ensures p in keys
    {
      Tries.SubsMember(Tries.Pass(words[k], maxDepth, false, boundary), |words[k]|);
    }
  }

  /** How many times `increase(w, false)` steps the counter of `p`, summed over the words. */
  function OccWords(words: seq<seq<nat>>, p: seq<nat>, maxDepth: nat, boundary: nat): nat
  {
    if words == [] then 0
    else
      var w := words[|words| - 1];
      OccWords(words[..|words| - 1], p, maxDepth, boundary) + Tries.Occ(Tries.Pass(w, maxDepth, false, boundary), p, |w|)
  }

  /** The words of several lists, one list after the other. */
  function Flat(wordLists: seq<seq<seq<nat>>>): (words: seq<seq<nat>>)
  {
    if wordLists == [] then [] else Flat(wordLists[..|wordLists| - 1]) + wordLists[|wordLists| - 1]
  }

  lemma FlatSnoc(wordLists: seq<seq<seq<nat>>>, words: seq<seq<nat>>)
    ensures Flat(wordLists + [words]) == Flat(wordLists) + words
  {
    assert (wordLists + [words])[..|wordLists|] == wordLists;
  }

  /** The counter of `p` is the one of `base` moved up by the occurrences in the words `up` and
      down by those in the words `down`, as a `size_t`. */
  ghost predicate TallyAt(n: map<seq<nat>, Tries.NodeStats>, base: map<seq<nat>, Tries.NodeStats>,
                          up: seq<seq<nat>>, down: seq<seq<nat>>, p: seq<nat>, maxDepth: nat, boundary: nat)
  {
    p in n && p in base && n[p].f == Wrap(base[p].f + OccWords(up, p, maxDepth, boundary) - OccWords(down, p, maxDepth, boundary))
  }

  /** The trie has the nodes of `base`, each with the counter `TallyAt` gives it. */
  ghost predicate Tallied(n: map<seq<nat>, Tries.NodeStats>, base: map<seq<nat>, Tries.NodeStats>,
                          up: seq<seq<nat>>, down: seq<seq<nat>>, maxDepth: nat, boundary: nat)
  {
    && n.Keys == base.Keys
    && forall p {:trigger TallyAt(n, base, up, down, p, maxDepth, boundary)} :: p in n ==> TallyAt(n, base, up, down, p, maxDepth, boundary)
  }

  lemma TalliedStart(base: map<seq<nat>, Tries.NodeStats>, maxDepth: nat, boundary: nat)
    requires Tries.Sane(base)
    ensures Tallied(base, base, [], [], maxDepth, boundary)
  {
    forall p | p in base
      ensures TallyAt(base, base, [], [], p, maxDepth, boundary)
    {
      assert base[p].f < Word;
    }
  }

  /** Recomputing scores leaves the counts as they were. */
  lemma TalliedRescored(n: map<seq<nat>, Tries.NodeStats>, n': map<seq<nat>, Tries.NodeStats>, base: map<seq<nat>, Tries.NodeStats>,
                        up: seq<seq<nat>>, down: seq<seq<nat>>, maxDepth: nat, boundary: nat)
    requires Tallied(n, base, up, down, maxDepth, boundary) && Tries.SameCounts(n, n')
    ensures Tallied(n', base, up, down, maxDepth, boundary)
  {
    forall p | p in n'
      ensures TallyAt(n', base, up, down, p, maxDepth, boundary)
    {
      assert TallyAt(n, base, up, down, p, maxDepth, boundary);
    }
  }

  /** Putting back what was taken out restores `base`. */
  lemma TalliedCancel(n: map<seq<nat>, Tries.NodeStats>, base: map<seq<nat>, Tries.NodeStats>,
                      words: seq<seq<nat>>, maxDepth: nat, boundary: nat)
    requires Tallied(n, base, words, words, maxDepth, boundary)
    ensures Tallied(n, base, [], [], maxDepth, boundary)
  {
    forall p | p in n
      ensures TallyAt(n, base, [], [], p, maxDepth, boundary)
    {
      assert TallyAt(n, base, words, words, p, maxDepth, boundary);
    }
  }

  lemma OccWordsSnoc(words: seq<seq<nat>>, w: seq<nat>, p: seq<nat>, maxDepth: nat, boundary: nat)
    ensures OccWords(words + [w], p, maxDepth, boundary) == OccWords(words, p, maxDepth, boundary) + Tries.Occ(Tries.Pass(w, maxDepth, false, boundary), p, |w|)
  {
    assert (words + [w])[..|words|] == words;
  }

  /** Moving a `size_t` counter up by k, whatever it was reduced from. */
  lemma ShiftUp(x: nat, y: int, k: nat, z: int)
    requires x == Wrap(y) && z == y + k
    ensures Wrap(x + k) == Wrap(z)
  {
    WrapShift(y, k);
  }

  /** Moving a `size_t` counter down by k. */
  lemma ShiftDown(x: nat, y: int, k: nat, z: int)
    requires x == Wrap(y) && z == y - k
    ensures Wrap(x - k) == Wrap(z)
  {
    WrapShift(y, 0 - k);
  }

  /** A node that was there before one `increase` is there after, as `AfterNode` makes it. */
  lemma IncreasedNode(m: map<seq<nat>, Tries.NodeStats>, w: Tries.Pass, p: seq<nat>)
    requires p in m
    ensures p in Tries.Increased(m, w) && Tries.Increased(m, w)[p] == Tries.AfterNode(m[p], w, p)
  {
  }

  lemma AfterNodeCount(s: Tries.NodeStats, w: Tries.Pass, p: seq<nat>)
    ensures Tries.AfterNode(s, w, p).f == Wrap(s.f + Tries.Occ(w, p, |w.r|))
  {
  }

  /** The counter of a node that was there before one `increase`. */
  lemma IncreasedAt(m: map<seq<nat>, Tries.NodeStats>, w: Tries.Pass, p: seq<nat>)
    requires p in m
    ensures p in Tries.Increased(m, w) && Tries.Increased(m, w)[p].f == Wrap(m[p].f + Tries.Occ(w, p, |w.r|))
  {
    IncreasedNode(m, w, p);
    AfterNodeCount(m[p], w, p);
  }

  /** The counter of a node after one `decrease`. */
  lemma DecreasedAt(m: map<seq<nat>, Tries.NodeStats>, w: Tries.Pass, p: seq<nat>)
    requires p in m
    ensures p in Tries.Decreased(m, w) && Tries.Decreased(m, w)[p].f == Wrap(m[p].f - Tries.Occ(w, p, |w.r|))
  {
  }

  /** An `increase` that only steps existing nodes adds none. */
  lemma IncreasedKeys(m: map<seq<nat>, Tries.NodeStats>, w: Tries.Pass, keys: set<seq<nat>>)
    requires m.Keys == keys && Tries.Subs(w, |w.r|) <= keys
    ensures Tries.Increased(m, w).Keys == keys
  {
  }

  /** Counting one word back in, on a trie that has every node the word steps. */
  lemma TalliedUp(n: map<seq<nat>, Tries.NodeStats>, base: map<seq<nat>, Tries.NodeStats>,
                  up: seq<seq<nat>>, down: seq<seq<nat>>, w: seq<nat>, maxDepth: nat, boundary: nat)
    requires Tallied(n, base, up, down, maxDepth, boundary)
    requires Tries.Subs(Tries.Pass(w, maxDepth, false, boundary), |w|) <= base.Keys
    ensures Tallied(Tries.Increased(n, Tries.Pass(w, maxDepth, false, boundary)), base, up + [w], down, maxDepth, boundary)
  {
    var pass := Tries.Pass(w, maxDepth, false, boundary);
    var n' := Tries.Increased(n, pass);
    IncreasedKeys(n, pass, base.Keys);
    forall p | p in n'
      ensures TallyAt(n', base, up + [w], down, p, maxDepth, boundary)
    {
      assert TallyAt(n, base, up, down, p, maxDepth, boundary);
      UpAtIncreased(n, base, up, down, w, p, maxDepth, boundary);
    }
  }

  lemma UpAtIncreased(n: map<seq<nat>, Tries.NodeStats>, base: map<seq<nat>, Tries.NodeStats>,
                      up: seq<seq<nat>>, down: seq<seq<nat>>, w: seq<nat>, p: seq<nat>, maxDepth: nat, boundary: nat)
    requires TallyAt(n, base, up, down, p, maxDepth, boundary)
    ensures TallyAt(Tries.Increased(n, Tries.Pass(w, maxDepth, false, boundary)), base, up + [w], down, p, maxDepth, boundary)
  {
    var pass := Tries.Pass(w, maxDepth, false, boundary);
    IncreasedAt(n, pass, p);
    UpAt(n, Tries.Increased(n, pass), base, up, down, w, p, maxDepth, boundary);
  }

  /** One node of `TalliedUp`: its counter moves up by the occurrences of `p` in `w`. */
  lemma UpAt(n: map<seq<nat>, Tries.NodeStats>, n': map<seq<nat>, Tries.NodeStats>, base: map<seq<nat>, Tries.NodeStats>,
             up: seq<seq<nat>>, down: seq<seq<nat>>, w: seq<nat>, p: seq<nat>, maxDepth: nat, boundary: nat)
    requires TallyAt(n, base, up, down, p, maxDepth, boundary)
    requires p in n' && n'[p].f == Wrap(n[p].f + Tries.Occ(Tries.Pass(w, maxDepth, false, boundary), p, |w|))
    ensures TallyAt(n', base, up + [w], down, p, maxDepth, boundary)
  {
    var a, d := OccWords(up, p, maxDepth, boundary), OccWords(down, p, maxDepth, boundary);
    var k := Tries.Occ(Tries.Pass(w, maxDepth, false, boundary), p, |w|);
    OccWordsSnoc(up, w, p, maxDepth, boundary);
    ShiftUp(n[p].f, base[p].f + a - d, k, base[p].f + (a + k) - d);
  }

  /** Taking one word out. */
  lemma TalliedDown(n: map<seq<nat>, Tries.NodeStats>, base: map<seq<nat>, Tries.NodeStats>,
                    up: seq<seq<nat>>, down: seq<seq<nat>>, w: seq<nat>, maxDepth: nat, boundary: nat)
    requires Tallied(n, base, up, down, maxDepth, boundary)
    ensures Tallied(Tries.Decreased(n, Tries.Pass(w, maxDepth, false, boundary)), base, up, down + [w], maxDepth, boundary)
  {
    var pass := Tries.Pass(w, maxDepth, false, boundary);
    var n' := Tries.Decreased(n, pass);
    forall p | p in n'
      ensures TallyAt(n', base, up, down + [w], p, maxDepth, boundary)
    {
      assert TallyAt(n, base, up, down, p, maxDepth, boundary);
      DownAt(n, base, up, down, w, p, maxDepth, boundary);
    }
  }

  lemma DownAt(n: map<seq<nat>, Tries.NodeStats>, base: map<seq<nat>, Tries.NodeStats>,
               up: seq<seq<nat>>, down: seq<seq<nat>>, w: seq<nat>, p: seq<nat>, maxDepth: nat, boundary: nat)
    requires TallyAt(n, base, up, down, p, maxDepth, boundary)
    ensures TallyAt(Tries.Decreased(n, Tries.Pass(w, maxDepth, false, boundary)), base, up, down + [w], p, maxDepth, boundary)
  {
    var pass := Tries.Pass(w, maxDepth, false, boundary);
    DecreasedAt(n, pass, p);
    OccWordsSnoc(down, w, p, maxDepth, boundary);
    ShiftDown(n[p].f, base[p].f + OccWords(up, p, maxDepth, boundary) - OccWords(down, p, maxDepth, boundary), Tries.Occ(pass, p, |w|),
              base[p].f + OccWords(up, p, maxDepth, boundary) - OccWords(down + [w], p, maxDepth, boundary));
  }

  /** What the loop of `fit` leaves: no segmentation before the first pass, then one
      segmentation of the sequences per pass, each different from the one before except the
      last, which repeats the one before it unless the loop ran `max_iters` passes. */
  predicate Passed(ss: seq<seq<nat>>, history: seq<seq<seq<nat>>>, maxIters: nat)
  {
    && 1 <= |history| <= maxIters + 1 && history[0] == []
    && Segmented(ss, history) && Changing(history, |history| - 1)
    && (|history| == maxIters + 1 || (|history| >= 2 && history[|history| - 1] == history[|history| - 2]))
  }

  /** Every segmentation after the first entry is one of the sequences. */
  predicate Segmented(ss: seq<seq<nat>>, history: seq<seq<seq<nat>>>)
  {
    forall k :: 1 <= k < |history| ==> Segmentation(ss, history[k])
  }

  /** Each of the first n segmentations differs from the one before it. */
  predicate Changing(history: seq<seq<seq<nat>>>, n: nat)
  {
    forall k :: 1 <= k < n && k < |history| ==> history[k] != history[k - 1]
  }

  /** One more segmentation recorded. */
  lemma HistorySnoc(ss: seq<seq<nat>>, history: seq<seq<seq<nat>>>, segs: seq<seq<nat>>)
    requires Segmented(ss, history) && Segmentation(ss, segs)
    ensures Segmented(ss, history + [segs])
  {
    forall k | 1 <= k < |history + [segs]|
      ensures Segmentation(ss, (history + [segs])[k])
    {
      if k < |history| {
        assert (history + [segs])[k] == history[k];
      }
    }
  }

  lemma ChangingSnoc(history: seq<seq<seq<nat>>>, segs: seq<seq<nat>>)
    requires Changing(history, |history|) && history != []
    ensures Changing(history + [segs], |history|)
    ensures segs != history[|history| - 1] ==> Changing(history + [segs], |history| + 1)
  {
    var h := history + [segs];
    forall k | 1 <= k < |h| && k < |history|
      ensures h[k] != h[k - 1]
    {
      assert h[k] == history[k] && h[k - 1] == history[k - 1];
    }
  }

  /** One turn of the first loop of a pass: the words of sequence j of the previous segmentation,
      which are the ones `SplitAll` recorded, counted back in. */
  lemma RestoreStep(n: map<seq<nat>, Tries.NodeStats>, base: map<seq<nat>, Tries.NodeStats>, ss: seq<seq<nat>>,
                    prev: seq<seq<nat>>, prevWords: seq<seq<seq<nat>>>, j: nat, words: seq<seq<nat>>, maxDepth: nat, boundary: nat)
    requires Covered(base, ss, maxDepth) && SplitAll(ss, prev, prevWords) && j < |prev|
    requires SplitInto(ss[j], prev[j], words)
    requires Tallied(n, base, Flat(prevWords[..j]), Flat(prevWords), maxDepth, boundary)
    ensures Tallied(Tries.IncreasedAll(n, words, maxDepth, false, boundary), base, Flat(prevWords[..j + 1]), Flat(prevWords), maxDepth, boundary)
  {
    SplitUnique(ss[j], prev[j], words, prevWords[j]);
    WordsCovered(base, ss, j, prev[j], words, maxDepth, boundary);
    TalliedUpAll(n, base, Flat(prevWords[..j]), Flat(prevWords), words, maxDepth, boundary);
    assert prevWords[..j + 1] == prevWords[..j] + [words];
    FlatSnoc(prevWords[..j], words);
  }

  /** `increase(words, false)`, word by word. */
  lemma {:induction false} TalliedUpAll(n: map<seq<nat>, Tries.NodeStats>, base: map<seq<nat>, Tries.NodeStats>,
                                        up: seq<seq<nat>>, down: seq<seq<nat>>, words: seq<seq<nat>>, maxDepth: nat, boundary: nat)
    requires Tallied(n, base, up, down, maxDepth, boundary) && WordsIn(base.Keys, words, maxDepth, boundary)
    ensures Tallied(Tries.IncreasedAll(n, words, maxDepth, false, boundary), base, up + words, down, maxDepth, boundary)
    decreases |words|
  {
    if words == [] {
      assert up + words == up;
    } else {
      var init, w := words[..|words| - 1], words[|words| - 1];
      WordsInPrefix(base.Keys, words, maxDepth, boundary);
      TalliedUpAll(n, base, up, down, init, maxDepth, boundary);
      TalliedUp(Tries.IncreasedAll(n, init, maxDepth, false, boundary), base, up + init, down, w, maxDepth, boundary);
      assert up + init + [w] == up + words;
    }
  }

  /** `decrease(words, false)`, word by word. */
  lemma {:induction false} TalliedDownAll(n: map<seq<nat>, Tries.NodeStats>, base: map<seq<nat>, Tries.NodeStats>,
                                          up: seq<seq<nat>>, down: seq<seq<nat>>, words: seq<seq<nat>>, maxDepth: nat, boundary: nat)
    requires Tallied(n, base, up, down, maxDepth, boundary)
    ensures Tallied(Tries.DecreasedAll(n, words, maxDepth, false, boundary), base, up, down + words, maxDepth, boundary)
    decreases |words|
  {
    if words == [] {
      assert down + words == down;
    } else {
      var init, w := words[..|words| - 1], words[|words| - 1];
      TalliedDownAll(n, base, up, down, init, maxDepth, boundary);
      TalliedDown(Tries.DecreasedAll(n, init, maxDepth, false, boundary), base, up, down + init, w, maxDepth, boundary);
      assert down + init + [w] == down + words;
    }
  }

  lemma WordsInPrefix(keys: set<seq<nat>>, words: seq<seq<nat>>, maxDepth: nat, boundary: nat)
    requires words != [] && WordsIn(keys, words, maxDepth, boundary)
    ensures WordsIn(keys, words[..|words| - 1], maxDepth, boundary)
    ensures var w := words[|words| - 1]; Tries.Subs(Tries.Pass(w, maxDepth, false, boundary), |w|) <= keys
  {
    var init := words[..|words| - 1];
    forall k | 0 <= k < |init|
      ensures Tries.Subs(Tries.Pass(init[k], maxDepth, false, boundary), |init[k]|) <= keys
    {
      assert init[k] == words[k];
    }
  }

  /** Counting the sequences as wholes creates a node for every piece of them up to
      `max_depth` terms. */
  lemma {:induction false} CoveredBase(o: map<seq<nat>, Tries.NodeStats>, ss: seq<seq<nat>>, maxDepth: nat, boundary: nat)
    ensures Covered(Tries.IncreasedAll(o, ss, maxDepth, true, boundary), ss, maxDepth)
    decreases |ss|
  {
    if ss != [] {
      var init := ss[..|ss| - 1];
      var m := Tries.IncreasedAll(o, init, maxDepth, true, boundary);
      var pass := Tries.Pass(ss[|ss| - 1], maxDepth, true, boundary);
      CoveredBase(o, init, maxDepth, boundary);
      forall j, i, k | 0 <= j < |ss| && 0 <= i < k <= |ss[j]| && k - i <= maxDepth
        ensures ss[j][i..k] in Tries.Increased(m, pass)
      {
        if j < |init| {
          assert ss[j] == init[j];
        } else {
          Tries.IncreaseCreates(m, pass, i, k - i);
        }
      }
    }
  }

  lemma {:induction false} ConcatAppend(a: seq<seq<nat>>, b: seq<seq<nat>>)
    ensures Concat(a + b) == Concat(a) + Concat(b)
    decreases |b|
  {
    if b == [] {
      assert a + b == a;
    } else {
      assert (a + b)[..|a + b| - 1] == a + b[..|b| - 1];
      ConcatAppend(a, b[..|b| - 1]);
    }
  }

  /** Word k sits in the words put back together right after the words before it. */
  lemma WordAt(words: seq<seq<nat>>, k: nat)
    requires k < |words|
    ensures var a := |Concat(words[..k])|;
      a + |words[k]| <= |Concat(words)| && Concat(words)[a..a + |words[k]|] == words[k]
  {
    assert words == words[..k] + [words[k]] + words[k + 1..];
    ConcatAppend(words[..k] + [words[k]], words[k + 1..]);
    assert (words[..k] + [words[k]])[..k] == words[..k];
  }

  /** The words of a sequence only step nodes the counts of the sequence created. */
  lemma WordsCovered(base: map<seq<nat>, Tries.NodeStats>, ss: seq<seq<nat>>, j: nat, seg: seq<nat>, words: seq<seq<nat>>,
                     maxDepth: nat, boundary: nat)
    requires Covered(base, ss, maxDepth) && j < |ss| && SplitInto(ss[j], seg, words)
    ensures WordsIn(base.Keys, words, maxDepth, boundary)
  {
    forall k | 0 <= k < |words|
      ensures Tries.Subs(Tries.Pass(words[k], maxDepth, false, boundary), |words[k]|) <= base.Keys
    {
      var w := words[k];
      WordAt(words, k);
      var a := |Concat(words[..k])|;
      Tries.SubsMember(Tries.Pass(w, maxDepth, false, boundary), |w|);
      forall p | p in Tries.Subs(Tries.Pass(w, maxDepth, false, boundary), |w|)
        ensures p in base
      {
        var i := Tries.CountedAt(Tries.Pass(w, maxDepth, false, boundary), p, |w|);
        var lo, hi := a + i, a + i + |p|;
        assert Concat(words) == ss[j];
        assert ss[j][a..a + |w|] == w && hi <= |ss[j]|;
        assert p == w[i..i + |p|] == ss[j][a..a + |w|][i..i + |p|];
        forall q | 0 <= q < |p|
          ensures ss[j][a..a + |w|][i..i + |p|][q] == ss[j][lo..hi][q]
        {
        }
        assert ss[j][a..a + |w|][i..i + |p|] == ss[j][lo..hi];
        assert 0 <= lo < hi <= |ss[j]| && hi - lo <= maxDepth;
      }
    }
  }

  /** A split of a sequence by given lengths is unique. */
  lemma {:induction false} SplitUnique(s: seq<nat>, seg: seq<nat>, a: seq<seq<nat>>, b: seq<seq<nat>>)
    requires SplitInto(s, seg, a) && SplitInto(s, seg, b)
    ensures a == b
    decreases |seg|
  {
    var n := |seg|;
    if n > 0 {
      var a', b' := a[..n], b[..n];
      assert a'[..n - 1] == a[..n][..n - 1] && b'[..n - 1] == b[..n][..n - 1];
      ConcatLength(a');
      ConcatLength(b');
      assert Lengths(a') == seg && Lengths(b') == seg;
      var s' := Concat(a');
      assert s == Concat(a') + a[n] && s == Concat(b') + b[n];
      assert Concat(b') == s[..|s'|] == s';
      assert Lengths(a'[..n - 1]) == seg[..n - 1] && Lengths(b'[..n - 1]) == seg[..n - 1];
      SplitUnique(s', seg[..n - 1], a', b');
      assert a' == b';
      assert a[n] == s[|s'|..] == b[n];
      assert a == a' + [a[n]];
      assert b == b' + [b[n]];
    } else {
      assert a[..0] == [] && b[..0] == [];
      assert Concat(a) == Concat(a[..0]) + a[0] == a[0];
      assert Concat(b) == Concat(b[..0]) + b[0] == b[0];
      assert a == [a[0]] && b == [b[0]];
    }
  }

  /** Taking out the counts of `a + b` is taking out those of `a` and then those of `b`. */
  lemma {:induction false} DecreasedAllAppend(o: map<seq<nat>, Tries.NodeStats>, a: seq<seq<nat>>, b: seq<seq<nat>>, maxDepth: nat, boundary: nat)
    ensures Tries.DecreasedAll(o, a + b, maxDepth, false, boundary)
         == Tries.DecreasedAll(Tries.DecreasedAll(o, a, maxDepth, false, boundary), b, maxDepth, false, boundary)
    decreases |b|
  {
    if |b| == 0 {
      assert a + b == a;
    } else {
      assert (a + b)[..|a + b| - 1] == a + b[..|b| - 1];
      DecreasedAllAppend(o, a, b[..|b| - 1], maxDepth, boundary);
    }
  }

  /** The first `|segs|` sequences of a pass each segmented at their best under the counts in
      front of them: those at the start of the pass, `start`, less the words of the sequences
      before it. */
  ghost predicate BestEach(start: map<seq<nat>, Tries.NodeStats>, lrv: real -> real, ss: seq<seq<nat>>, segs: seq<seq<nat>>,
                           wordLists: seq<seq<seq<nat>>>, maxDepth: nat, boundary: nat)
  {
    && |segs| <= |ss| && |wordLists| == |segs|
    && forall j :: 0 <= j < |segs| && |ss[j]| >= 1 ==>
         segs[j] == Best(Tries.DecreasedAll(start, Flat(wordLists[..j]), maxDepth, false, boundary), lrv, ss[j]).1
  }

  /** Pass i of `fit` started from the counts `starts[i]` of the whole sequences and gave
      each sequence its best segmentation under them less the words `splits[i]` of the
      sequences before it. */
  ghost predicate BestPasses(base: map<seq<nat>, Tries.NodeStats>, lrv: real -> real, ss: seq<seq<nat>>,
                             history: seq<seq<seq<nat>>>, starts: seq<map<seq<nat>, Tries.NodeStats>>,
                             splits: seq<seq<seq<seq<nat>>>>, maxDepth: nat, boundary: nat)
  {
    && |starts| == |splits| == |history| - 1
    && forall i :: 0 <= i < |starts| ==>
         && Tallied(starts[i], base, [], [], maxDepth, boundary)
         && BestEach(starts[i], lrv, ss, history[i + 1], splits[i], maxDepth, boundary)
  }

  /** The record the loop of `fit` keeps: the segmentation before the first pass (none) and
      after each pass, each differing from the one before it, each pass at its best, and
      `last` the words of the last pass. */
  ghost predicate Recorded(base: map<seq<nat>, Tries.NodeStats>, lrv: real -> real, ss: seq<seq<nat>>,
                           history: seq<seq<seq<nat>>>, starts: seq<map<seq<nat>, Tries.NodeStats>>,
                           splits: seq<seq<seq<seq<nat>>>>, last: seq<seq<seq<nat>>>, maxDepth: nat, boundary: nat)
  {
    && history != [] && history[0] == [] && Segmented(ss, history) && Changing(history, |history|)
    && BestPasses(base, lrv, ss, history, starts, splits, maxDepth, boundary)
    && (|history| > 1 ==> last == splits[|splits| - 1])
  }

  /** One more pass recorded: the record goes on unless the pass repeats the one before. */
  lemma RecordedSnoc(base: map<seq<nat>, Tries.NodeStats>, lrv: real -> real, ss: seq<seq<nat>>,
                     history: seq<seq<seq<nat>>>, starts: seq<map<seq<nat>, Tries.NodeStats>>,
                     splits: seq<seq<seq<seq<nat>>>>, last: seq<seq<seq<nat>>>, segs: seq<seq<nat>>,
                     start: map<seq<nat>, Tries.NodeStats>, words: seq<seq<seq<nat>>>, maxDepth: nat, boundary: nat)
    requires Recorded(base, lrv, ss, history, starts, splits, last, maxDepth, boundary)
    requires Segmentation(ss, segs)
    requires Tallied(start, base, [], [], maxDepth, boundary) && BestEach(start, lrv, ss, segs, words, maxDepth, boundary)
    ensures (history + [segs])[0] == [] && Segmented(ss, history + [segs]) && Changing(history + [segs], |history|)
    ensures BestPasses(base, lrv, ss, history + [segs], starts + [start], splits + [words], maxDepth, boundary)
    ensures segs != history[|history| - 1] ==>
      Recorded(base, lrv, ss, history + [segs], starts + [start], splits + [words], words, maxDepth, boundary)
  {
    HistorySnoc(ss, history, segs);
    ChangingSnoc(history, segs);
    BestPassesSnoc(base, lrv, ss, history, starts, splits, segs, start, words, maxDepth, boundary);
  }

  /** A pass that changed the segmentation continues the record. */
  lemma RecordedNext(base: map<seq<nat>, Tries.NodeStats>, lrv: real -> real, ss: seq<seq<nat>>,
                     history: seq<seq<seq<nat>>>, starts: seq<map<seq<nat>, Tries.NodeStats>>,
                     splits: seq<seq<seq<seq<nat>>>>, last: seq<seq<seq<nat>>>, segs: seq<seq<nat>>,
                     start: map<seq<nat>, Tries.NodeStats>, words: seq<seq<seq<nat>>>, maxDepth: nat, boundary: nat)
    requires Recorded(base, lrv, ss, history, starts, splits, last, maxDepth, boundary)
    requires Segmentation(ss, segs) && segs != history[|history| - 1]
    requires Tallied(start, base, [], [], maxDepth, boundary) && BestEach(start, lrv, ss, segs, words, maxDepth, boundary)
    ensures Recorded(base, lrv, ss, history + [segs], starts + [start], splits + [words], words, maxDepth, boundary)
  {
    RecordedSnoc(base, lrv, ss, history, starts, splits, last, segs, start, words, maxDepth, boundary);
  }

  /** One more pass recorded. */
  lemma BestPassesSnoc(base: map<seq<nat>, Tries.NodeStats>, lrv: real -> real, ss: seq<seq<nat>>,
                       history: seq<seq<seq<nat>>>, starts: seq<map<seq<nat>, Tries.NodeStats>>,
                       splits: seq<seq<seq<seq<nat>>>>, segs: seq<seq<nat>>, start: map<seq<nat>, Tries.NodeStats>,
                       words: seq<seq<seq<nat>>>, maxDepth: nat, boundary: nat)
    requires BestPasses(base, lrv, ss, history, starts, splits, maxDepth, boundary)
    requires Tallied(start, base, [], [], maxDepth, boundary) && BestEach(start, lrv, ss, segs, words, maxDepth, boundary)
    ensures BestPasses(base, lrv, ss, history + [segs], starts + [start], splits + [words], maxDepth, boundary)
  {
    var h, st, sp := history + [segs], starts + [start], splits + [words];
    forall i | 0 <= i < |st|
      ensures Tallied(st[i], base, [], [], maxDepth, boundary) && BestEach(st[i], lrv, ss, h[i + 1], sp[i], maxDepth, boundary)
    {
      if i < |starts| {
        assert st[i] == starts[i] && h[i + 1] == history[i + 1] && sp[i] == splits[i];
      }
    }
  }

  /** One more sequence segmented at its best under the counts left by the ones before it. */
  lemma BestEachSnoc(start: map<seq<nat>, Tries.NodeStats>, lrv: real -> real, ss: seq<seq<nat>>, segs: seq<seq<nat>>,
                     wordLists: seq<seq<seq<nat>>>, seg: seq<nat>, words: seq<seq<nat>>, maxDepth: nat, boundary: nat)
    requires BestEach(start, lrv, ss, segs, wordLists, maxDepth, boundary) && |segs| < |ss| && |ss[|segs|]| >= 1
    requires seg == Best(Tries.DecreasedAll(start, Flat(wordLists), maxDepth, false, boundary), lrv, ss[|segs|]).1
    ensures BestEach(start, lrv, ss, segs + [seg], wordLists + [words], maxDepth, boundary)
  {
    var segs', wl' := segs + [seg], wordLists + [words];
    forall j | 0 <= j < |segs'| && |ss[j]| >= 1
      ensures segs'[j] == Best(Tries.DecreasedAll(start, Flat(wl'[..j]), maxDepth, false, boundary), lrv, ss[j]).1
    {
      if j < |segs| {
        assert wl'[..j] == wordLists[..j];
      } else {
        assert wl'[..j] == wordLists;
      }
    }
  }

  /** One more sequence segmented and split. */
  lemma PassSnoc(ss: seq<seq<nat>>, j: nat, segs: seq<seq<nat>>, wordLists: seq<seq<seq<nat>>>, seg: seq<nat>, words: seq<seq<nat>>)
    requires j < |ss| && Segmentation(ss[..j], segs) && SplitAll(ss[..j], segs, wordLists)
    requires Lens(seg, |ss[j]|) && SplitInto(ss[j], seg, words)
    ensures Segmentation(ss[..j + 1], segs + [seg]) && SplitAll(ss[..j + 1], segs + [seg], wordLists + [words])
  {
  }
}
