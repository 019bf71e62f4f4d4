/** Preserve lengths: after a raw string of length n, stored at offset p of the text, has been
    cut into words at positions `pres`, `count_min_lens_[p + k]` says how long a substring
    starting at k must be before it counts. Substrings that are a proper part of one word are
    "preserved" and do not count. The same loop is used by `StringCounter::set_pres`
    (src/count.cpp) and `string_counter::set_pres` (src/string_counter.cpp). */
module Preserve {

  /** The cut positions of one string of length n: strictly increasing, each inside (0, n). */
  predicate ValidCuts(pres: seq<nat>, n: nat)
  {
    (forall k :: 0 <= k < |pres| ==> 0 < pres[k] < n)
    && (forall a, b :: 0 <= a < b < |pres| ==> pres[a] < pres[b])
  }

  /** Position k begins a word. */
  predicate WordStart(pres: seq<nat>, k: nat)
  {
    k == 0 || k in pres
  }

  /** The end of the word containing k: the first cut after k, or n. */
  function NextCut(pres: seq<nat>, n: nat, k: nat): (e: nat)
    requires ValidCuts(pres, n) && k < n
    ensures k < e <= n
    ensures e < n ==> e in pres
    ensures forall c :: c in pres && k < c ==> e <= c
  {
    if |pres| == 0 then n
    else if pres[0] > k then
      FirstCutLeast(pres, n);
      pres[0]
    else
      assert ValidCuts(pres[1..], n);
      assert forall c :: c in pres && c != pres[0] ==> c in pres[1..];
      NextCut(pres[1..], n, k)
  }

  lemma FirstCutLeast(pres: seq<nat>, n: nat)
    requires ValidCuts(pres, n) && |pres| > 0
    ensures forall c :: c in pres ==> pres[0] <= c
  {
    forall c | c in pres
      ensures pres[0] <= c
    {
      var a :| 0 <= a < |pres| && pres[a] == c;
      if a > 0 {
        assert pres[0] < pres[a];
      }
    }
  }

  /** The preserve length at k: the rest of its word, less one at a word start. */
  function PresLen(pres: seq<nat>, n: nat, k: nat): nat
    requires ValidCuts(pres, n) && k < n
  {
    if WordStart(pres, k) then NextCut(pres, n, k) - k - 1 else NextCut(pres, n, k) - k
  }

  /** The preserve lengths of a whole string. */
  function PresLens(pres: seq<nat>, n: nat): (r: seq<nat>)
    requires ValidCuts(pres, n)
    ensures |r| == n
  {
    seq(n, k requires 0 <= k < n => PresLen(pres, n, k))
  }

  /** The occurrence `[k, k + m)` lies inside one word without being that whole word. */
  ghost predicate ProperPartOfWord(pres: seq<nat>, n: nat, k: nat, m: nat)
  {
    var b := Bounds(pres, n);
    exists t :: 0 <= t < |pres| + 1 && b[t] <= k && k + m <= b[t + 1] && (b[t] != k || b[t + 1] != k + m)
  }

  /** An occurrence of positive length m at k counts (m exceeds the preserve length) exactly
      when it is not a proper part of one word. */
  lemma CountsUnlessInsideWord(pres: seq<nat>, n: nat, k: nat, m: nat)
    requires ValidCuts(pres, n) && k < n && 1 <= m
    ensures m > PresLen(pres, n, k) <==> !ProperPartOfWord(pres, n, k, m)
  {
    var b := Bounds(pres, n);
    var t := WordOf(pres, n, k);
    NextCutAt(pres, n, k, t);
    if k > 0 {
      CutAt(pres, n, k, t);
    }
    if m <= PresLen(pres, n, k) {
      assert b[t] <= k && k + m <= b[t + 1] && (b[t] != k || b[t + 1] != k + m);
    } else if ProperPartOfWord(pres, n, k, m) {
      var t' :| 0 <= t' < |pres| + 1 && b[t'] <= k && k + m <= b[t' + 1] && (b[t'] != k || b[t' + 1] != k + m);
      SameWord(pres, n, k, t, t');
    }
  }

  /** Only one word holds a position. */
  lemma SameWord(pres: seq<nat>, n: nat, k: nat, t: nat, t': nat)
    requires ValidCuts(pres, n) && k < n && t < |pres| + 1 && t' < |pres| + 1
    requires Bounds(pres, n)[t] <= k < Bounds(pres, n)[t + 1]
    requires Bounds(pres, n)[t'] <= k < Bounds(pres, n)[t' + 1]
    ensures t == t'
  {
    if t < t' {
      BoundsStrict(pres, n, t + 1, t');
    }
  }

  /** The index of the word holding k: the number of cuts at or below k. */
  lemma WordOf(pres: seq<nat>, n: nat, k: nat) returns (t: nat)
    requires ValidCuts(pres, n) && k < n
    ensures t <= |pres|
    ensures t > 0 ==> pres[t - 1] <= k
    ensures t < |pres| ==> k < pres[t]
    ensures Bounds(pres, n)[t] <= k < Bounds(pres, n)[t + 1]
  {
    t := 0;
    while t < |pres| && pres[t] <= k
      invariant t <= |pres|
      invariant t > 0 ==> pres[t - 1] <= k
    {
      t := t + 1;
    }
  }

  /** Bounds are strictly increasing. */
  lemma BoundsStrict(pres: seq<nat>, n: nat, a: nat, c: nat)
    requires ValidCuts(pres, n) && 1 <= n && a <= c < |pres| + 2
    ensures a < c ==> Bounds(pres, n)[a] < Bounds(pres, n)[c]
    ensures Bounds(pres, n)[a] <= Bounds(pres, n)[c]
  {
    var b := Bounds(pres, n);
    if a < c {
      if 0 < a && c < |pres| + 1 {
        assert b[a] == pres[a - 1] && b[c] == pres[c - 1];
      } else if 0 < a {
        assert b[a] == pres[a - 1];
      } else if c < |pres| + 1 {
        assert b[c] == pres[c - 1];
      }
    }
  }

  /** With j cuts at or below k, the next cut is `pres[j]` (or n when none is left). */
  lemma NextCutAt(pres: seq<nat>, n: nat, k: nat, j: nat)
    requires ValidCuts(pres, n) && k < n && j <= |pres|
    requires j > 0 ==> pres[j - 1] <= k
    requires j < |pres| ==> k < pres[j]
    ensures NextCut(pres, n, k) == if j < |pres| then pres[j] else n
  {
    var e := NextCut(pres, n, k);
    if j < |pres| {
      assert pres[j] in pres;
    }
    if e < n {
      var a :| 0 <= a < |pres| && pres[a] == e;
    }
  }

  /** The backward loop of `set_pres`: position k (from n - 1 down to 1) gets the running
      length, one less at a cut, after which the length restarts at 1; position 0 gets the
      final length less one. Only the window `[p, p + n)` changes. */
  method WritePres(lens: seq<nat>, pres: seq<nat>, p: nat, n: nat) returns (out: seq<nat>)
    requires ValidCuts(pres, n) && 1 <= n && p + n <= |lens|
    ensures out == lens[..p] + PresLens(pres, n) + lens[p + n..]
  {
    out := lens;
    var len: nat := 1;
    var i := n - 1;
    var j: nat := |pres|;
    while i > 0
      invariant i < n && j <= |pres| && |out| == |lens| && 1 <= len
      invariant j > 0 ==> pres[j - 1] <= i
      invariant j < |pres| ==> i < pres[j]
      invariant len + i == if j < |pres| then pres[j] else n
      invariant WrittenAbove(out, lens, pres, p, n, i)
    {
      NextCutAt(pres, n, i, j);
      CutAt(pres, n, i, j);
      ghost var before := out;
      var written := len;
      out := out[p + i := written];
      len := len + 1;
      if j > 0 && i == pres[j - 1] {
        out := out[p + i := written - 1];
        len := 1;
        j := j - 1;
      }
      WriteStep(before, lens, pres, p, n, i);
      i := i - 1;
    }
    NextCutAt(pres, n, 0, j);
    ghost var before := out;
    out := out[p := len - 1];
    WriteStep(before, lens, pres, p, n, 0);
    WrittenAll(out, lens, pres, p, n);
  }

  /** Every position outside `[p + i + 1, p + n)` still holds its old value, every one inside
      holds its preserve length. */
  ghost predicate WrittenAbove(out: seq<nat>, lens: seq<nat>, pres: seq<nat>, p: nat, n: nat, i: int)
    requires ValidCuts(pres, n) && p + n <= |lens| && -1 <= i
  {
    |out| == |lens|
    && forall x :: 0 <= x < |out| ==> out[x] == if p + i < x < p + n then PresLen(pres, n, x - p) else lens[x]
  }

  lemma WriteStep(out: seq<nat>, lens: seq<nat>, pres: seq<nat>, p: nat, n: nat, i: nat)
    requires ValidCuts(pres, n) && p + n <= |lens| && i < n
    requires WrittenAbove(out, lens, pres, p, n, i)
    ensures WrittenAbove(out[p + i := PresLen(pres, n, i)], lens, pres, p, n, i - 1)
  {
  }

  lemma WrittenAll(out: seq<nat>, lens: seq<nat>, pres: seq<nat>, p: nat, n: nat)
    requires ValidCuts(pres, n) && p + n <= |lens|
    requires WrittenAbove(out, lens, pres, p, n, -1)
    ensures out == lens[..p] + PresLens(pres, n) + lens[p + n..]
  {
    var want := lens[..p] + PresLens(pres, n) + lens[p + n..];
    assert |want| == |out|;
    forall k | 0 <= k < |out|
      ensures out[k] == want[k]
    {
    }
  }

  /** With j cuts at or below k, k begins a word exactly when it is the j-th cut. */
  lemma CutAt(pres: seq<nat>, n: nat, k: nat, j: nat)
    requires ValidCuts(pres, n) && 0 < k < n && j <= |pres|
    requires j > 0 ==> pres[j - 1] <= k
    requires j < |pres| ==> k < pres[j]
    ensures WordStart(pres, k) <==> j > 0 && k == pres[j - 1]
  {
    if k in pres {
      var a :| 0 <= a < |pres| && pres[a] == k;
    }
  }

  /** `unset_pres`: the window `[p, p + n)` is filled with 0. */
  function ZeroWindow(lens: seq<nat>, p: nat, n: nat): (out: seq<nat>)
    requires p + n <= |lens|
    ensures |out| == |lens|
    ensures forall k :: 0 <= k < |out| ==> out[k] == if p <= k < p + n then 0 else lens[k]
  {
    lens[..p] + seq(n, _ => 0) + lens[p + n..]
  }

  /** `unset_pres` undoes `set_pres` on a window that was clear before. */
  lemma ZeroAfterWrite(lens: seq<nat>, pres: seq<nat>, p: nat, n: nat)
    requires ValidCuts(pres, n) && p + n <= |lens|
    requires forall k :: p <= k < p + n ==> lens[k] == 0
    ensures ZeroWindow(lens[..p] + PresLens(pres, n) + lens[p + n..], p, n) == lens
  {
    var w := lens[..p] + PresLens(pres, n) + lens[p + n..];
    assert |ZeroWindow(w, p, n)| == |lens|;
    forall k | 0 <= k < |lens|
      ensures ZeroWindow(w, p, n)[k] == lens[k]
    {
      if k < p {
        assert w[k] == lens[k];
      } else if k >= p + n {
        assert w[k] == lens[k];
      }
    }
  }

  // -----------------------------------------------------------------------------------------
  // Words

  /** The word boundaries: 0, the cuts, then n. */
  function Bounds(pres: seq<nat>, n: nat): seq<nat>
  {
    [0] + pres + [n]
  }

  /** The words of the string at offset p of `s` cut at `pres`: `s[p + b_k .. p + b_{k+1}]`
      for consecutive bounds. */
  function Words(s: seq<nat>, p: nat, pres: seq<nat>, n: nat): (ws: seq<seq<nat>>)
    requires ValidCuts(pres, n) && p + n <= |s|
    ensures |ws| == |pres| + 1
  {
    var b := Bounds(pres, n);
    seq(|pres| + 1, k requires 0 <= k < |pres| + 1 =>
      BoundsIncreasing(pres, n, k);
      s[p + b[k]..p + b[k + 1]])
  }

  lemma BoundsIncreasing(pres: seq<nat>, n: nat, k: nat)
    requires ValidCuts(pres, n) && k < |pres| + 1
    ensures Bounds(pres, n)[k] <= Bounds(pres, n)[k + 1] <= n
  {
    var b := Bounds(pres, n);
    if 0 < k < |pres| {
      assert b[k] == pres[k - 1] && b[k + 1] == pres[k];
    }
  }

  /** Concatenation of a sequence of sequences. */
  function Flatten<T>(ws: seq<seq<T>>): seq<T>
  {
    if |ws| == 0 then [] else Flatten(ws[..|ws| - 1]) + ws[|ws| - 1]
  }

  /** Word k runs between bounds k and k + 1. */
  lemma WordAt(s: seq<nat>, p: nat, pres: seq<nat>, n: nat, k: nat)
    requires ValidCuts(pres, n) && p + n <= |s| && k < |pres| + 1
    ensures var b := Bounds(pres, n);
      p + b[k] <= p + b[k + 1] <= p + n && Words(s, p, pres, n)[k] == s[p + b[k]..p + b[k + 1]]
  {
    BoundsIncreasing(pres, n, k);
  }

  /** The words of a string concatenate back to it: the cuts partition `[0, n)`. */
  lemma WordsPartition(s: seq<nat>, p: nat, pres: seq<nat>, n: nat)
    requires ValidCuts(pres, n) && p + n <= |s|
    ensures Flatten(Words(s, p, pres, n)) == s[p..p + n]
  {
    var ws := Words(s, p, pres, n);
    var b := Bounds(pres, n);
    var k := 0;
    while k < |ws|
      invariant 0 <= k <= |ws|
      invariant Flatten(ws[..k]) == s[p..p + b[k]]
    {
      WordsStep(s, p, pres, n, k);
      k := k + 1;
    }
    assert ws[..k] == ws;
  }

  /** One more word extends the flattened prefix of the words by the next piece of the string. */
  lemma WordsStep(s: seq<nat>, p: nat, pres: seq<nat>, n: nat, k: nat)
    requires ValidCuts(pres, n) && p + n <= |s| && k < |pres| + 1
    requires Flatten(Words(s, p, pres, n)[..k]) == s[p..p + Bounds(pres, n)[k]]
    ensures Flatten(Words(s, p, pres, n)[..k + 1]) == s[p..p + Bounds(pres, n)[k + 1]]
  {
    var ws, b := Words(s, p, pres, n), Bounds(pres, n);
    WordAt(s, p, pres, n, k);
    assert ws[..k + 1][..k] == ws[..k];
    assert s[p..p + b[k + 1]] == s[p..p + b[k]] + s[p + b[k]..p + b[k + 1]];
  }
}
