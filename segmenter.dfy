/** The segmenter of src/segmenter.cpp: the dynamic programme of `optimize_segment` that
    picks the best segmentation of one raw string under the counter's score, the
    reconstruction of its cut positions, `segment_sequence` turning cuts into byte ranges,
    and the EM loop of `fit_and_segment`. The score is a parameter: a `double` that is
    either minus infinity or a finite value. */
module Segmenters {
  import opened Preserve

  /** A `double` score: minus infinity, or a finite value (NaN is not modelled). */
  datatype Ext = NegInf | Fin(v: real)

  /** `a + b` on doubles: minus infinity absorbs. */
  function Plus(a: Ext, b: Ext): (r: Ext)
    ensures r.Fin? <==> a.Fin? && b.Fin?
  {
    if a.Fin? && b.Fin? then Fin(a.v + b.v) else NegInf
  }

  /** `a > b` on doubles. */
  predicate Above(a: Ext, b: Ext)
  {
    a.Fin? && (b.NegInf? || a.v > b.v)
  }

  /** Adding the same score keeps the order. */
  lemma PlusMonotone(a: Ext, b: Ext, c: Ext)
    requires !Above(a, b)
    ensures !Above(Plus(a, c), Plus(b, c))
  {
  }

  // -----------------------------------------------------------------------------------------
  // The dynamic programme

  /** The value row i of `optimize_segment` gets from choice k: the score of the whole
      prefix `[0, i]` for k = 0, else the value of row k - 1 plus the score of the last
      word `[k, i]`. */
  function Cand(sc: (nat, nat) -> Ext, p: nat, fv: seq<Ext>, i: nat, k: nat): Ext
    requires k <= i <= |fv|
  {
    if k == 0 then sc(p, i + 1) else Plus(fv[k - 1], sc(p + k, i + 1 - k))
  }

  /** The inner loop of `optimize_segment` for row i after the splits `0 .. j - 1`: the
      value starts as the score of the whole prefix, and a later choice replaces it only
      when strictly greater, skipping rows already at minus infinity. The pair is
      `(fv[i], fs[i])`, and the value is the one of the choice kept. */
  function Relax(sc: (nat, nat) -> Ext, p: nat, fv: seq<Ext>, i: nat, j: nat): (r: (Ext, nat))
    requires j <= i <= |fv|
    ensures r.1 <= j && r.0 == Cand(sc, p, fv, i, r.1)
    decreases j
  {
    if j == 0 then (sc(p, i + 1), 0)
    else
      var prev := Relax(sc, p, fv, i, j - 1);
      if fv[j - 1] == NegInf then prev
      else
        var cv := Plus(fv[j - 1], sc(p + j, i + 1 - j));
        if Above(cv, prev.0) then (cv, j) else prev
  }

  /** The kept choice is a maximum of the choices seen, and the first one: every earlier
      choice is strictly below it (the comparison is a strict `>`). */
  lemma {:induction false} RelaxBest(sc: (nat, nat) -> Ext, p: nat, fv: seq<Ext>, i: nat, j: nat)
    requires j <= i <= |fv|
    ensures var r := Relax(sc, p, fv, i, j);
      && (forall k :: 0 <= k <= j ==> !Above(Cand(sc, p, fv, i, k), r.0))
      && (forall k :: 0 <= k < r.1 ==> Above(r.0, Cand(sc, p, fv, i, k)))
    decreases j
  {
    if j > 0 {
      RelaxBest(sc, p, fv, i, j - 1);
    }
  }

  /** One more split of `Relax`. */
  lemma RelaxNext(sc: (nat, nat) -> Ext, p: nat, fv: seq<Ext>, i: nat, j: nat)
    requires j < i <= |fv|
    ensures var prev := Relax(sc, p, fv, i, j);
      var cv := Plus(fv[j], sc(p + j + 1, i - j));
      Relax(sc, p, fv, i, j + 1) == if fv[j] == NegInf || !Above(cv, prev.0) then prev else (cv, j + 1)
  {
  }

  /** The table `(fv, fs)` the programme fills for the string at p, row by row: the value
      of each prefix `[0, k]` and where its last word starts. */
  function Table(sc: (nat, nat) -> Ext, p: nat, n: nat): (t: (seq<Ext>, seq<nat>))
    ensures |t.0| == n && |t.1| == n
    ensures forall k :: 0 <= k < n ==> t.1[k] <= k
  {
    if n == 0 then ([], []) else
      var t := Table(sc, p, n - 1);
      var r := Relax(sc, p, t.0, n - 1, n - 1);
      (t.0 + [r.0], t.1 + [r.1])
  }

  /** The values `fv[0 .. n - 1]`. */
  function Values(sc: (nat, nat) -> Ext, p: nat, n: nat): (fv: seq<Ext>)
    ensures |fv| == n
  {
    Table(sc, p, n).0
  }

  /** The choices `fs[0 .. n - 1]`: for each prefix, where its last word starts. */
  function Choices(sc: (nat, nat) -> Ext, p: nat, n: nat): (fs: seq<nat>)
    ensures |fs| == n
    ensures forall k :: 0 <= k < n ==> fs[k] <= k
  {
    Table(sc, p, n).1
  }

  /** Row k of a longer table is the row computed from the first k values. */
  lemma {:induction false} TableRow(sc: (nat, nat) -> Ext, p: nat, n: nat, k: nat)
    requires k < n
    ensures Values(sc, p, n)[..k] == Values(sc, p, k)
    ensures Values(sc, p, n)[k] == Relax(sc, p, Values(sc, p, k), k, k).0
    ensures Choices(sc, p, n)[k] == Relax(sc, p, Values(sc, p, k), k, k).1
    decreases n
  {
    var t := Table(sc, p, n - 1);
    assert Values(sc, p, n)[..n - 1] == t.0 && Choices(sc, p, n)[..n - 1] == t.1;
    if k < n - 1 {
      TableRow(sc, p, n - 1, k);
    }
  }

  /** The cut positions found by following `fs` back from position i: the start of the
      last word, then the start of the word before it, and so on, in increasing order. */
  function Cuts(fs: seq<nat>, i: nat): (c: seq<nat>)
    requires i <= |fs| && forall k :: 0 <= k < |fs| ==> fs[k] <= k
    ensures Chained(c, i + 1) && (|c| > 0 ==> c[|c| - 1] == i)
    decreases i
  {
    if i == 0 then [] else Cuts(fs, fs[i - 1]) + [i]
  }

  /** Cut positions of a string of length `len` read from the back: the last cut lies
      inside `(0, len)` and the cuts before it are cut positions of the prefix ending
      there. */
  predicate Chained(cuts: seq<nat>, len: nat)
    decreases |cuts|
  {
    |cuts| == 0 || (0 < cuts[|cuts| - 1] < len && Chained(cuts[..|cuts| - 1], cuts[|cuts| - 1]))
  }

  /** Read from the back or as a whole, the cut positions of a string are the same thing:
      strictly increasing positions inside `(0, len)`. */
  lemma {:induction false} ChainedIsValid(cuts: seq<nat>, len: nat)
    ensures Chained(cuts, len) <==> ValidCuts(cuts, len)
    decreases |cuts|
  {
    if |cuts| > 0 {
      var m := |cuts| - 1;
      var init, c := cuts[..m], cuts[m];
      ChainedIsValid(init, c);
      if Chained(cuts, len) {
        assert forall k :: 0 <= k < m ==> cuts[k] == init[k];
      }
      if ValidCuts(cuts, len) {
        assert forall k :: 0 <= k < m ==> init[k] == cuts[k] < c;
      }
    }
  }

  /** The score of cutting the string at p of length `len` at `cuts`: the sum of the scores
      of its words, minus infinity when any word scores minus infinity. */
  function Total(sc: (nat, nat) -> Ext, p: nat, cuts: seq<nat>, len: nat): Ext
    requires Chained(cuts, len)
    decreases |cuts|
  {
    if |cuts| == 0 then sc(p, len)
    else
      var c := cuts[|cuts| - 1];
      Plus(Total(sc, p, cuts[..|cuts| - 1], c), sc(p + c, len - c))
  }

  /** The segmentation the programme picks for the prefix `[0, i]`. */
  function Best(sc: (nat, nat) -> Ext, p: nat, n: nat, i: nat): (c: seq<nat>)
    requires i < n
    ensures Chained(c, i + 1)
  {
    var fs := Choices(sc, p, n);
    Cuts(fs, fs[i])
  }

  /** Following the choices back from a positive position adds that position last. */
  lemma CutsStep(fs: seq<nat>, s: nat)
    requires 0 < s <= |fs| && forall k :: 0 <= k < |fs| ==> fs[k] <= k
    ensures var c := Cuts(fs, s); |c| > 0 && c[..|c| - 1] == Cuts(fs, fs[s - 1]) && c[|c| - 1] == s
  {
    var c := Cuts(fs, s);
    assert c == Cuts(fs, fs[s - 1]) + [s];
  }

  /** The total of a segmentation with a last cut c: the total up to c plus the score of
      the last word. */
  lemma TotalStep(sc: (nat, nat) -> Ext, p: nat, cuts: seq<nat>, len: nat)
    requires Chained(cuts, len) && |cuts| > 0
    ensures var c := cuts[|cuts| - 1];
      Chained(cuts[..|cuts| - 1], c)
      && Total(sc, p, cuts, len) == Plus(Total(sc, p, cuts[..|cuts| - 1], c), sc(p + c, len - c))
  {
  }

  /** Row i's value is the one of its recorded choice s: the score of the whole prefix for
      s = 0, else row s - 1 plus the score of the word `[s, i]`. */
  lemma RowChoice(sc: (nat, nat) -> Ext, p: nat, n: nat, i: nat)
    requires i < n
    ensures RowOk(sc, p, Choices(sc, p, n), Values(sc, p, n), i)
  {
    TableRow(sc, p, n, i);
    var row := Values(sc, p, i);
    var r := Relax(sc, p, row, i, i);
    CandOfRow(sc, p, Values(sc, p, n), row, i, r.1);
  }

  /** A choice read against the first i rows of a longer table. */
  lemma CandOfRow(sc: (nat, nat) -> Ext, p: nat, fv: seq<Ext>, row: seq<Ext>, i: nat, k: nat)
    requires k <= i < |fv| && row == fv[..i]
    ensures k == 0 ==> Cand(sc, p, row, i, k) == sc(p, i + 1)
    ensures k > 0 ==> Cand(sc, p, row, i, k) == Plus(fv[k - 1], sc(p + k, i + 1 - k))
  {
  }

  /** Row k of a table `(fs, fv)` holds the value of its own choice: the score of the whole
      prefix `[0, k]` for choice 0, else row `fs[k] - 1` plus the score of the last word. */
  predicate RowOk(sc: (nat, nat) -> Ext, p: nat, fs: seq<nat>, fv: seq<Ext>, k: nat)
  {
    k < |fs| == |fv| && fs[k] <= k
    && (fs[k] == 0 ==> fv[k] == sc(p, k + 1))
    && (fs[k] > 0 ==> fv[k] == Plus(fv[fs[k] - 1], sc(p + fs[k], k + 1 - fs[k])))
  }

  /** The step of `Achieved` for a row i whose last word starts at s > 0: if row s - 1 is
      the total of the segmentation read back from it, row i is the total of its own. */
  lemma AchievedStep(sc: (nat, nat) -> Ext, p: nat, fs: seq<nat>, fv: seq<Ext>, i: nat, s: nat)
    requires forall k :: 0 <= k < |fs| ==> fs[k] <= k
    requires i < |fs| == |fv| && fs[i] == s > 0
    requires fv[i] == Plus(fv[s - 1], sc(p + s, i + 1 - s))
    requires fv[s - 1] == Total(sc, p, Cuts(fs, fs[s - 1]), s)
    ensures fv[i] == Total(sc, p, Cuts(fs, fs[i]), i + 1)
  {
    CutsStep(fs, s);
    TotalStep(sc, p, Cuts(fs, s), i + 1);
  }

  /** In a table whose every row holds the value of its own choice, each value is the
      total score of the segmentation the choices lead back to. */
  lemma {:induction false} Achieved(sc: (nat, nat) -> Ext, p: nat, fs: seq<nat>, fv: seq<Ext>, i: nat)
    requires forall k :: 0 <= k < |fs| ==> fs[k] <= k
    requires i < |fs| == |fv| && forall k :: 0 <= k < |fs| ==> RowOk(sc, p, fs, fv, k)
    ensures fv[i] == Total(sc, p, Cuts(fs, fs[i]), i + 1)
    decreases i
  {
    assert RowOk(sc, p, fs, fv, i);
    var s := fs[i];
    if s > 0 {
      Achieved(sc, p, fs, fv, s - 1);
      AchievedStep(sc, p, fs, fv, i, s);
    } else {
      assert Cuts(fs, s) == [];
    }
  }

  /** Each value of the programme is the total score of the segmentation the choices lead
      back to. */
  lemma ValueAchieved(sc: (nat, nat) -> Ext, p: nat, n: nat, i: nat)
    requires i < n
    ensures Values(sc, p, n)[i] == Total(sc, p, Best(sc, p, n, i), i + 1)
  {
    var fs := Choices(sc, p, n);
    var fv := Values(sc, p, n);
    forall k | 0 <= k < n
      ensures RowOk(sc, p, fs, fv, k)
    {
      RowChoice(sc, p, n, k);
    }
    Achieved(sc, p, fs, fv, i);
  }

  /** `!Above` is the order `<=`, which is transitive. */
  lemma AtMostTrans(a: Ext, b: Ext, c: Ext)
    requires !Above(a, b) && !Above(b, c)
    ensures !Above(a, c)
  {
  }

  /** Row i holds the maximum over all its choices, and its recorded choice is the first
      that reaches it: every earlier choice is strictly below (the comparison is `>`). */
  lemma RowBest(sc: (nat, nat) -> Ext, p: nat, n: nat, i: nat)
    requires i < n
    ensures var fv := Values(sc, p, n);
      && (forall k :: 0 <= k <= i ==> !Above(Cand(sc, p, fv, i, k), fv[i]))
      && (forall k :: 0 <= k < Choices(sc, p, n)[i] ==> Above(fv[i], Cand(sc, p, fv, i, k)))
  {
    TableRow(sc, p, n, i);
    var fv := Values(sc, p, n);
    var row := Values(sc, p, i);
    RelaxBest(sc, p, row, i, i);
    forall k | 0 <= k <= i
      ensures Cand(sc, p, row, i, k) == Cand(sc, p, fv, i, k)
    {
      CandOfRow(sc, p, fv, row, i, k);
    }
  }

  /** The step of `ValueOptimal` for a segmentation whose last cut is c: if its part before
      c scores at most row c - 1, the whole scores at most row i. */
  lemma OptimalStep(sc: (nat, nat) -> Ext, p: nat, fv: seq<Ext>, i: nat, cuts: seq<nat>)
    requires i < |fv| && Chained(cuts, i + 1) && |cuts| > 0
    requires var c := cuts[|cuts| - 1];
      !Above(Total(sc, p, cuts[..|cuts| - 1], c), fv[c - 1])
    requires forall k :: 0 <= k <= i ==> !Above(Cand(sc, p, fv, i, k), fv[i])
    ensures !Above(Total(sc, p, cuts, i + 1), fv[i])
  {
    var c := cuts[|cuts| - 1];
    var last := sc(p + c, i + 1 - c);
    TotalStep(sc, p, cuts, i + 1);
    PlusMonotone(Total(sc, p, cuts[..|cuts| - 1], c), fv[c - 1], last);
    AtMostTrans(Total(sc, p, cuts, i + 1), Cand(sc, p, fv, i, c), fv[i]);
  }

  /** No segmentation of the prefix `[0, i]` scores above the programme's value. */
  lemma {:induction false} ValueOptimal(sc: (nat, nat) -> Ext, p: nat, n: nat, i: nat, cuts: seq<nat>)
    requires i < n && Chained(cuts, i + 1)
    ensures !Above(Total(sc, p, cuts, i + 1), Values(sc, p, n)[i])
    decreases i
  {
    RowBest(sc, p, n, i);
    if |cuts| > 0 {
      var c := cuts[|cuts| - 1];
      var init := cuts[..|cuts| - 1];
      TotalStep(sc, p, cuts, i + 1);
      ValueOptimal(sc, p, n, c - 1, init);
      OptimalStep(sc, p, Values(sc, p, n), i, cuts);
    } else {
      assert !Above(Cand(sc, p, Values(sc, p, n), i, 0), Values(sc, p, n)[i]);
    }
  }

  /** The segmentation `optimize_segment` returns scores at least as high as every other
      segmentation of the string. */
  lemma BestIsOptimal(sc: (nat, nat) -> Ext, p: nat, n: nat, cuts: seq<nat>)
    requires 0 < n && Chained(cuts, n)
    ensures !Above(Total(sc, p, cuts, n), Total(sc, p, Best(sc, p, n, n - 1), n))
  {
    ValueAchieved(sc, p, n, n - 1);
    ValueOptimal(sc, p, n, n - 1, cuts);
  }

  /** The reverse of a sequence. */
  function Reversed(s: seq<nat>): (r: seq<nat>)
    ensures |r| == |s| && forall k :: 0 <= k < |s| ==> r[k] == s[|s| - 1 - k]
  {
    if |s| == 0 then [] else [s[|s| - 1]] + Reversed(s[..|s| - 1])
  }

  /** Reversing after appending puts the new element first. */
  lemma ReversedSnoc(s: seq<nat>, x: nat)
    ensures Reversed(s + [x]) == [x] + Reversed(s)
  {
    assert (s + [x])[..|s|] == s;
  }

  /** `optimize_segment(seg, p, n)`: leaves `seg` alone for an empty string; otherwise fills
      `fv` and `fs` row by row and returns the cut positions read back from `fs`: the
      segmentation of best score, valid cuts of `[0, n)`. */
  method OptimizeSegment(sc: (nat, nat) -> Ext, seg0: seq<nat>, p: nat, n: nat) returns (seg: seq<nat>)
    ensures n == 0 ==> seg == seg0
    ensures n > 0 ==> seg == Best(sc, p, n, n - 1) && ValidCuts(seg, n)
  {
    if n == 0 {
      return seg0;
    }
    var fs := new nat[n];
    var fv := new Ext[n](_ => NegInf);
    var i := 0;
    while i < n
      invariant 0 <= i <= n
      invariant fv[..i] == Values(sc, p, i) && fs[..i] == Choices(sc, p, i)
    {
      FillRow(sc, p, fv, fs, i);
      assert fv[..i + 1] == fv[..i] + [fv[i]];
      assert fs[..i + 1] == fs[..i] + [fs[i]];
      i := i + 1;
    }
    assert fv[..n] == fv[..] && fs[..n] == fs[..];
    seg := ReadBack(fs[..], n - 1);
    ChainedIsValid(seg, n);
  }

  /** Row i of the programme: the value and choice of `Relax` over all i splits, written to
      `fv[i]` and `fs[i]`; nothing else changes. */
  method FillRow(sc: (nat, nat) -> Ext, p: nat, fv: array<Ext>, fs: array<nat>, i: nat)
    requires fv != fs as object && i < fv.Length == fs.Length
    modifies fv, fs
    ensures fv[..i] == old(fv[..i]) && fs[..i] == old(fs[..i])
    ensures (fv[i], fs[i]) == Relax(sc, p, fv[..i], i, i)
  {
    ghost var row := fv[..i];
    fs[i] := 0;
    fv[i] := sc(p, i + 1);
    var j := 0;
    while j < i
      invariant 0 <= j <= i
      invariant fv[..i] == row && fs[..i] == old(fs[..i])
      invariant fv[i] == Relax(sc, p, row, i, j).0 && fs[i] == Relax(sc, p, row, i, j).1
    {
      assert fv[j] == row[j];
      RelaxNext(sc, p, row, i, j);
      if fv[j] == NegInf {
        j := j + 1;
        continue;
      }
      var cv := Plus(fv[j], sc(p + j + 1, i - j));
      if Above(cv, fv[i]) {
        fv[i] := cv;
        fs[i] := j + 1;
      }
      j := j + 1;
    }
  }

  /** The read-back loop of `optimize_segment`: follows `fs` from the last row to the
      front, collecting the cuts in reverse, and returns them in increasing order. */
  method ReadBack(fs: seq<nat>, last: nat) returns (seg: seq<nat>)
    requires last < |fs| && forall k :: 0 <= k < |fs| ==> fs[k] <= k
    ensures seg == Cuts(fs, fs[last])
  {
    var rev: seq<nat> := [];
    var c: nat := fs[last];
    while c > 0
      invariant c <= last
      invariant Cuts(fs, c) + Reversed(rev) == Cuts(fs, fs[last])
      decreases c
    {
      ReversedSnoc(rev, c);
      ghost var front := Cuts(fs, fs[c - 1]);
      assert Cuts(fs, c) == front + [c];
      assert front + ([c] + Reversed(rev)) == (front + [c]) + Reversed(rev);
      rev := rev + [c];
      c := fs[c - 1];
    }
    seg := Reversed(rev);
  }
}
