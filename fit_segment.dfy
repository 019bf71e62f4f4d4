/** The segmenter class of src/segmenter.cpp: its constructor and the counting and EM part
    of `fit_and_segment`. The counter is fitted on the tokens; then every pass segments each
    raw string with `optimize_segment` under the current counts, stops when nothing changed,
    and otherwise trades the words of the previous segmentation for the new ones in the
    counter (`unset_pres`, then `set_pres`). Raw string j of the counter's text runs from
    `Begin(offsets, j)` for `Len(offsets, j)` ids. */
module Segmentation {
  import Options
  import opened Preserve
  import opened TriePaths
  import opened Segmenters
  import opened EncStr
  import StringCounters
  import SuffixArrays
  import Utf8
  import Tokens
  import SegmentWords
  import Averages

  // -----------------------------------------------------------------------------------------
  // What `optimize_segment` reads

  /** A score as the `double` `optimize_segment` compares. The null node, which the source
      would dereference, scores as minus infinity; a counter that `fit` indexed never
      returns it (`StringCounter.Score`, `SegmentAll`). */
  function ToExt(r: StringCounters.Scored): (e: Ext)
    ensures e.Fin? <==> r.Value?
    ensures r.Value? ==> e.v == r.v
  {
    match r
    case NegInf => NegInf
    case Value(v) => Fin(v)
    case NullNode => NegInf
  }

  /** `counter_.score(i, n)` as a function of the counter's state `v`; outside the text it
      is minus infinity (`optimize_segment` never asks there). */
  function ScoreFn(v: StringCounters.View, formula: StringCounters.Stats -> real): (nat, nat) -> Ext
  {
    (i: nat, n: nat) =>
      if StringCounters.Shaped(v) && 1 <= n && i + n <= |v.s| then ToExt(StringCounters.ScoreIn(v, i, n, formula))
      else NegInf
  }

  /** The cuts of raw string k are those `optimize_segment` picks for it under the counts
      of `v`. */
  predicate OptimalAt(v: StringCounters.View, formula: StringCounters.Stats -> real, o: seq<nat>, cuts: seq<seq<nat>>, k: nat)
  {
    k < |cuts| && Len(o, k) > 0 && cuts[k] == Best(ScoreFn(v, formula), Begin(o, k), Len(o, k), Len(o, k) - 1)
  }

  /** One valid list of cuts per raw string. */
  predicate AllCut(o: seq<nat>, cuts: seq<seq<nat>>)
  {
    |cuts| == |o| && forall k :: 0 <= k < |cuts| ==> ValidCuts(cuts[k], Len(o, k))
  }

  // -----------------------------------------------------------------------------------------
  // The words and preserve lengths a segmentation puts into the counter

  /** The words of one raw string, or none when its cuts do not fit it. */
  function WordsOf(d: seq<nat>, p: nat, cuts: seq<nat>, n: nat): seq<seq<nat>>
  {
    if ValidCuts(cuts, n) && p + n <= |d| then Words(d, p, cuts, n) else []
  }

  /** The words of every raw string, string by string. */
  function PerString(d: seq<nat>, o: seq<nat>, cuts: seq<seq<nat>>): (r: seq<seq<seq<nat>>>)
    ensures |r| == |cuts|
  {
    seq(|cuts|, k requires 0 <= k < |cuts| => WordsOf(d, Begin(o, k), cuts[k], Len(o, k)))
  }

  /** The word lists lo .. hi - 1 of `xs`, concatenated in order. */
  function Join(xs: seq<seq<seq<nat>>>, lo: nat, hi: nat): seq<seq<nat>>
    decreases hi
  {
    if hi <= lo || hi > |xs| then [] else Join(xs, lo, hi - 1) + xs[hi - 1]
  }

  /** Splitting off the first list of a range. */
  lemma {:induction false} JoinHead(xs: seq<seq<seq<nat>>>, lo: nat, hi: nat)
    requires lo < hi <= |xs|
    ensures Join(xs, lo, hi) == xs[lo] + Join(xs, lo + 1, hi)
    decreases hi
  {
    if hi > lo + 1 {
      JoinHead(xs, lo, hi - 1);
      var a, r, z := xs[lo], Join(xs, lo + 1, hi - 1), xs[hi - 1];
      assert Join(xs, lo, hi) == Join(xs, lo, hi - 1) + z;
      assert Join(xs, lo + 1, hi) == r + z;
      assert (a + r) + z == a + (r + z);
    } else {
      assert Join(xs, lo, hi) == [] + xs[lo];
    }
  }

  /** The words of the whole text for a segmentation, in text order. */
  function AllWords(d: seq<nat>, o: seq<nat>, cuts: seq<seq<nat>>): seq<seq<nat>>
  {
    Join(PerString(d, o, cuts), 0, |cuts|)
  }

  /** The preserve lengths one raw string holds for its cuts (zeros when they do not fit). */
  function Window(o: seq<nat>, cuts: seq<nat>, k: nat): (w: seq<nat>)
    ensures |w| == Len(o, k)
  {
    if ValidCuts(cuts, Len(o, k)) then PresLens(cuts, Len(o, k)) else seq(Len(o, k), _ => 0)
  }

  /** The windows of every raw string for `cuts`. */
  function Windows(o: seq<nat>, cuts: seq<seq<nat>>): (ws: seq<seq<nat>>)
    ensures |ws| == |cuts|
  {
    seq(|cuts|, k requires 0 <= k < |cuts| => Window(o, cuts[k], k))
  }

  /** The windows of a text whose strings hold no preserve length yet. */
  function ZeroWindows(o: seq<nat>): (ws: seq<seq<nat>>)
    ensures |ws| == |o|
  {
    seq(|o|, k requires 0 <= k < |o| => seq(Len(o, k), _ => 0))
  }

  /** The preserve-length array laid out from per-string windows: each window, then the 0
      at the string's boundary id. */
  function Tile(ws: seq<seq<nat>>): seq<nat>
  {
    if |ws| == 0 then [] else Tile(ws[..|ws| - 1]) + ws[|ws| - 1] + [0]
  }

  /** Window k is as long as raw string k. */
  predicate Fitting(o: seq<nat>, ws: seq<seq<nat>>)
  {
    |ws| == |o| && forall k :: 0 <= k < |ws| ==> |ws[k]| == Len(o, k)
  }

  /** Every string ends past where it begins. */
  predicate Ascending(o: seq<nat>)
  {
    forall k {:trigger Begin(o, k)} :: 0 <= k < |o| ==> Begin(o, k) < o[k]
  }

  /** String j + 1 begins right after the boundary id that ends string j. */
  lemma NextBegin(o: seq<nat>, j: nat)
    requires Ascending(o) && j < |o|
    ensures Begin(o, j + 1) == Begin(o, j) + Len(o, j) + 1
  {
    assert Begin(o, j) < o[j];
  }

  lemma EndOffsetsAscending(d: seq<nat>, o: seq<nat>)
    requires EndOffsets(d, o)
    ensures Ascending(o) && Begin(o, |o|) == |d|
  {
    forall k | 0 <= k < |o|
      ensures Begin(o, k) < o[k]
    {
    }
  }

  lemma {:induction false} TileAppend(a: seq<seq<nat>>, b: seq<seq<nat>>)
    ensures Tile(a + b) == Tile(a) + Tile(b)
    decreases |b|
  {
    if |b| == 0 {
      assert a + b == a;
    } else {
      var b' := b[..|b| - 1];
      TileAppend(a, b');
      assert (a + b)[..|a + b| - 1] == a + b';
    }
  }

  lemma TileOne(w: seq<nat>)
    ensures Tile([w]) == w + [0]
  {
    var one: seq<seq<nat>> := [w];
    var none: seq<seq<nat>> := [];
    assert one[..0] == none;
  }

  /** The windows before string k fill the array up to where string k begins. */
  lemma {:induction false} TileLength(o: seq<nat>, ws: seq<seq<nat>>, k: nat)
    requires Fitting(o, ws) && Ascending(o) && k <= |ws|
    ensures |Tile(ws[..k])| == Begin(o, k)
  {
    if k > 0 {
      TileLength(o, ws, k - 1);
      assert ws[..k][..k - 1] == ws[..k - 1];
    }
  }

  /** The layout of one window between two runs of windows. */
  lemma TileSplit(pre: seq<seq<nat>>, w: seq<nat>, post: seq<seq<nat>>)
    ensures Tile(pre + [w] + post) == Tile(pre) + w + ([0] + Tile(post))
  {
    TileAppend(pre + [w], post);
    TileAppend(pre, [w]);
    TileOne(w);
  }

  /** The pieces around the middle of a concatenation. */
  lemma SliceAround(a: seq<nat>, m: seq<nat>, b: seq<nat>)
    ensures (a + m + b)[..|a|] == a && (a + m + b)[|a| + |m|..] == b
  {
  }

  /** Window j between the windows before and after it. */
  lemma Around(ws: seq<seq<nat>>, j: nat, x: seq<nat>)
    requires j < |ws|
    ensures ws == ws[..j] + [ws[j]] + ws[j + 1..]
    ensures ws[j := x] == ws[..j] + [x] + ws[j + 1..]
  {
  }

  /** Writing window j in the laid-out array is replacing window j. */
  lemma TileWrite(o: seq<nat>, ws: seq<seq<nat>>, j: nat, x: seq<nat>)
    requires Fitting(o, ws) && Ascending(o) && j < |ws| && |x| == Len(o, j)
    ensures var t, p := Tile(ws), Begin(o, j);
      p + |x| <= |t| && t[..p] + x + t[p + |x|..] == Tile(ws[j := x])
  {
    var pre, post := ws[..j], ws[j + 1..];
    Around(ws, j, x);
    TileSplit(pre, ws[j], post);
    TileSplit(pre, x, post);
    TileLength(o, ws, j);
    var a, b := Tile(pre), [0] + Tile(post);
    SliceAround(a, ws[j], b);
  }

  /** A text without preserve lengths is the layout of zero windows. */
  lemma {:induction false} TileZeros(o: seq<nat>, k: nat)
    requires Ascending(o) && k <= |o|
    ensures Tile(ZeroWindows(o)[..k]) == seq(Begin(o, k), _ => 0)
  {
    if k > 0 {
      TileZeros(o, k - 1);
      assert ZeroWindows(o)[..k][..k - 1] == ZeroWindows(o)[..k - 1];
      assert Begin(o, k) == Begin(o, k - 1) + Len(o, k - 1) + 1;
    }
  }

  // -----------------------------------------------------------------------------------------
  // What the counter holds while the update pass runs

  /** The words taken out of the trie counts when the update pass reaches string j: those
      of the new segmentation `segs` before j and, after the first pass, those of the
      previous segmentation `prev` from j on. */
  function Pending(d: seq<nat>, o: seq<nat>, prev: seq<seq<nat>>, segs: seq<seq<nat>>, first: bool, j: nat): seq<seq<nat>>
  {
    Join(PerString(d, o, segs), 0, j) + (if first then [] else Join(PerString(d, o, prev), j, |prev|))
  }

  /** The windows the preserve-length array holds when the update pass reaches string j:
      those of `segs` before j and, from j on, zeros on the first pass and those of `prev`
      after it. */
  function Layout(o: seq<nat>, prev: seq<seq<nat>>, segs: seq<seq<nat>>, first: bool, j: nat): (ws: seq<seq<nat>>)
    requires |prev| == |segs| == |o| && j <= |o|
    ensures |ws| == |o|
  {
    Windows(o, segs)[..j] + (if first then ZeroWindows(o) else Windows(o, prev))[j..]
  }

  /** Every layout has one window per raw string, as long as that string. */
  lemma LayoutFitting(o: seq<nat>, prev: seq<seq<nat>>, segs: seq<seq<nat>>, first: bool, j: nat)
    requires |prev| == |segs| == |o| && j <= |o|
    ensures Fitting(o, Layout(o, prev, segs, first, j))
  {
    var ws := Layout(o, prev, segs, first, j);
    forall k | 0 <= k < |ws|
      ensures |ws[k]| == Len(o, k)
    {
      if k < j {
        assert ws[k] == Windows(o, segs)[k];
      } else {
        assert ws[k] == (if first then ZeroWindows(o) else Windows(o, prev))[k];
      }
    }
  }

  /** Writing the window of `segs` for string j advances the layout by one string. */
  lemma LayoutNext(o: seq<nat>, prev: seq<seq<nat>>, segs: seq<seq<nat>>, first: bool, j: nat)
    requires |prev| == |segs| == |o| && j < |o|
    ensures Layout(o, prev, segs, first, j)[j := Windows(o, segs)[j]] == Layout(o, prev, segs, first, j + 1)
  {
  }

  /** One step of the update pass on the trie counts: putting back the words of the
      previous cuts of string j (after the first pass) and taking out those of its new
      cuts leaves exactly the words pending for string j + 1 taken out. */
  lemma PendingStep(d: seq<nat>, o: seq<nat>, prev: seq<seq<nat>>, segs: seq<seq<nat>>, first: bool, f1: map<seq<nat>, nat>, j: nat)
    requires Bounded(f1) && |prev| == |segs| && j < |segs|
    ensures first ==>
      WalkedEach(WalkedEach(f1, Pending(d, o, prev, segs, first, j), false), PerString(d, o, segs)[j], false)
      == WalkedEach(f1, Pending(d, o, prev, segs, first, j + 1), false)
    ensures !first ==>
      WalkedEach(WalkedEach(WalkedEach(f1, Pending(d, o, prev, segs, first, j), false), PerString(d, o, prev)[j], true), PerString(d, o, segs)[j], false)
      == WalkedEach(f1, Pending(d, o, prev, segs, first, j + 1), false)
  {
    var S, P := PerString(d, o, segs), PerString(d, o, prev);
    var a := Join(S, 0, j);
    assert Join(S, 0, j + 1) == a + S[j];
    if first {
      assert Pending(d, o, prev, segs, first, j) == a;
      assert Pending(d, o, prev, segs, first, j + 1) == a + S[j];
      WalkedEachAppend(f1, a, S[j], false);
    } else {
      JoinHead(P, j, |prev|);
      var c := Join(P, j + 1, |prev|);
      assert Pending(d, o, prev, segs, first, j) == a + P[j] + c;
      assert Pending(d, o, prev, segs, first, j + 1) == a + S[j] + c;
      WalkedEachSwap(f1, a, P[j], c, S[j]);
    }
  }

  /** Clearing window j of the laid-out array and then writing x there is replacing
      window j by x. */
  lemma ClearThenWrite(o: seq<nat>, ws: seq<seq<nat>>, j: nat, x: seq<nat>)
    requires Fitting(o, ws) && Ascending(o) && j < |ws| && |x| == Len(o, j)
    ensures var t, p, n := Tile(ws), Begin(o, j), Len(o, j);
      p + n <= |t|
      && var z := ZeroWindow(t, p, n);
         z[..p] + x + z[p + n..] == Tile(ws[j := x])
  {
    var t, p, n := Tile(ws), Begin(o, j), Len(o, j);
    var zs: seq<nat> := seq(n, _ => 0);
    var ws2 := ws[j := zs];
    TileWrite(o, ws, j, zs);
    var z := ZeroWindow(t, p, n);
    assert z == Tile(ws2);
    FittingUpdate(o, ws, j, zs);
    TileWrite(o, ws2, j, x);
    assert ws2[j := x] == ws[j := x];
  }

  /** Replacing a window by one of the same length keeps the layout fitting. */
  lemma FittingUpdate(o: seq<nat>, ws: seq<seq<nat>>, j: nat, y: seq<nat>)
    requires Fitting(o, ws) && j < |ws| && |y| == Len(o, j)
    ensures Fitting(o, ws[j := y])
  {
  }

  /** The window of string j in a layout, and the window that replaces it. */
  lemma LayoutAt(o: seq<nat>, prev: seq<seq<nat>>, segs: seq<seq<nat>>, first: bool, j: nat)
    requires AllCut(o, prev) && AllCut(o, segs) && j < |o|
    ensures Fitting(o, Layout(o, prev, segs, first, j))
    ensures first ==> Layout(o, prev, segs, first, j)[j] == seq(Len(o, j), _ => 0)
    ensures Layout(o, prev, segs, first, j)[j := PresLens(segs[j], Len(o, j))] == Layout(o, prev, segs, first, j + 1)
  {
    LayoutFitting(o, prev, segs, first, j);
    LayoutNext(o, prev, segs, first, j);
    assert Windows(o, segs)[j] == PresLens(segs[j], Len(o, j));
  }

  /** Writing x into window j, after clearing it unless it is clear already, replaces
      window j by x. */
  lemma WriteWindow(o: seq<nat>, ws: seq<seq<nat>>, j: nat, x: seq<nat>, clear: bool)
    requires Fitting(o, ws) && Ascending(o) && j < |ws| && |x| == Len(o, j)
    requires !clear ==> ws[j] == seq(Len(o, j), _ => 0)
    ensures var t, p, n := Tile(ws), Begin(o, j), Len(o, j);
      p + n <= |t|
      && var z := if clear then ZeroWindow(t, p, n) else t;
         z[..p] + x + z[p + n..] == Tile(ws[j := x])
  {
    if clear {
      ClearThenWrite(o, ws, j, x);
    } else {
      TileWrite(o, ws, j, x);
    }
  }

  /** One step of the update pass on the preserve-length array: clearing the window of
      string j (after the first pass) and writing its new preserve lengths advances the
      layout by one string. */
  lemma LayoutStep(o: seq<nat>, prev: seq<seq<nat>>, segs: seq<seq<nat>>, first: bool, j: nat)
    requires AllCut(o, prev) && AllCut(o, segs) && Ascending(o) && j < |o|
    ensures var t, p, n := Tile(Layout(o, prev, segs, first, j)), Begin(o, j), Len(o, j);
      p + n <= |t|
      && var z := if first then t else ZeroWindow(t, p, n);
         z[..p] + PresLens(segs[j], n) + z[p + n..] == Tile(Layout(o, prev, segs, first, j + 1))
  {
    LayoutAt(o, prev, segs, first, j);
    WriteWindow(o, Layout(o, prev, segs, first, j), j, PresLens(segs[j], Len(o, j)), !first);
  }

  /** The preserve-length array after `unset_pres` (when `clear`) and `set_pres` on the
      window [p, p + n). */
  function Rewritten(l: seq<nat>, pres: seq<nat>, p: nat, n: nat, clear: bool): (r: seq<nat>)
    requires ValidCuts(pres, n) && p + n <= |l|
    ensures |r| == |l|
  {
    var z := if clear then ZeroWindow(l, p, n) else l;
    z[..p] + PresLens(pres, n) + z[p + n..]
  }

  /** The trie counts after `unset_pres` of `before` (when `clear`) and `set_pres` of
      `after`. */
  function Retaken(f: map<seq<nat>, nat>, before: seq<seq<nat>>, after: seq<seq<nat>>, clear: bool): map<seq<nat>, nat>
  {
    WalkedEach(if clear then WalkedEach(f, before, true) else f, after, false)
  }

  /** Raw string j lies inside the text. */
  lemma StringInside(d: seq<nat>, o: seq<nat>, j: nat)
    requires EndOffsets(d, o) && j < |o|
    ensures Ascending(o) && Begin(o, j) + Len(o, j) < |d|
  {
    EndOffsetsAscending(d, o);
  }

  /** Every layout fills the whole text. */
  lemma LayoutLength(d: seq<nat>, o: seq<nat>, prev: seq<seq<nat>>, segs: seq<seq<nat>>, first: bool, j: nat)
    requires EndOffsets(d, o) && |prev| == |segs| == |o| && j <= |o|
    ensures |Tile(Layout(o, prev, segs, first, j))| == |d|
  {
    var ws := Layout(o, prev, segs, first, j);
    EndOffsetsAscending(d, o);
    LayoutFitting(o, prev, segs, first, j);
    TileLength(o, ws, |o|);
    assert ws[..|o|] == ws;
  }

  /** One step of the update pass on the trie counts, with the words of string j. */
  lemma UpdateStepCounts(d: seq<nat>, o: seq<nat>, prev: seq<seq<nat>>, segs: seq<seq<nat>>, first: bool, f1: map<seq<nat>, nat>, j: nat)
    requires EndOffsets(d, o) && AllCut(o, prev) && AllCut(o, segs) && Bounded(f1) && j < |o|
    ensures var p, n := Begin(o, j), Len(o, j);
      p + n < |d|
      && Retaken(WalkedEach(f1, Pending(d, o, prev, segs, first, j), false), Words(d, p, prev[j], n), Words(d, p, segs[j], n), !first)
         == WalkedEach(f1, Pending(d, o, prev, segs, first, j + 1), false)
  {
    StringInside(d, o, j);
    var p, n := Begin(o, j), Len(o, j);
    assert PerString(d, o, prev)[j] == Words(d, p, prev[j], n);
    assert PerString(d, o, segs)[j] == Words(d, p, segs[j], n);
    PendingStep(d, o, prev, segs, first, f1, j);
  }

  /** One step of the update pass on the preserve-length array. */
  lemma UpdateStepLens(d: seq<nat>, o: seq<nat>, prev: seq<seq<nat>>, segs: seq<seq<nat>>, first: bool, j: nat)
    requires EndOffsets(d, o) && AllCut(o, prev) && AllCut(o, segs) && j < |o|
    ensures var p, n := Begin(o, j), Len(o, j);
      p + n < |d| && |Tile(Layout(o, prev, segs, first, j))| == |d|
      && Rewritten(Tile(Layout(o, prev, segs, first, j)), segs[j], p, n, !first) == Tile(Layout(o, prev, segs, first, j + 1))
  {
    StringInside(d, o, j);
    LayoutLength(d, o, prev, segs, first, j);
    LayoutStep(o, prev, segs, first, j);
  }

  /** Before the update pass the counts and preserve lengths are those the previous pass
      left (none on the first); after it they are those of the new segmentation. */
  lemma UpdateEnds(d: seq<nat>, o: seq<nat>, prev: seq<seq<nat>>, segs: seq<seq<nat>>, first: bool, f1: map<seq<nat>, nat>)
    requires |prev| == |segs| == |o|
    ensures WalkedEach(f1, Pending(d, o, prev, segs, first, 0), false)
         == if first then f1 else WalkedEach(f1, AllWords(d, o, prev), false)
    ensures Layout(o, prev, segs, first, 0) == if first then ZeroWindows(o) else Windows(o, prev)
    ensures WalkedEach(f1, Pending(d, o, prev, segs, first, |o|), false) == WalkedEach(f1, AllWords(d, o, segs), false)
    ensures Layout(o, prev, segs, first, |o|) == Windows(o, segs)
  {
    UpdateStart(d, o, prev, segs, first, f1);
    UpdateFinish(d, o, prev, segs, first, f1);
  }

  /** The first half of `UpdateEnds`: nothing of the new segmentation is counted yet. */
  lemma UpdateStart(d: seq<nat>, o: seq<nat>, prev: seq<seq<nat>>, segs: seq<seq<nat>>, first: bool, f1: map<seq<nat>, nat>)
    requires |prev| == |segs| == |o|
    ensures WalkedEach(f1, Pending(d, o, prev, segs, first, 0), false)
         == if first then f1 else WalkedEach(f1, AllWords(d, o, prev), false)
    ensures Layout(o, prev, segs, first, 0) == if first then ZeroWindows(o) else Windows(o, prev)
  {
    assert Join(PerString(d, o, segs), 0, 0) == [];
    assert Pending(d, o, prev, segs, first, 0) == if first then [] else AllWords(d, o, prev);
    var rest := if first then ZeroWindows(o) else Windows(o, prev);
    assert rest[0..] == rest;
  }

  /** The second half of `UpdateEnds`: nothing of the previous segmentation is left. */
  lemma UpdateFinish(d: seq<nat>, o: seq<nat>, prev: seq<seq<nat>>, segs: seq<seq<nat>>, first: bool, f1: map<seq<nat>, nat>)
    requires |prev| == |segs| == |o|
    ensures WalkedEach(f1, Pending(d, o, prev, segs, first, |o|), false) == WalkedEach(f1, AllWords(d, o, segs), false)
    ensures Layout(o, prev, segs, first, |o|) == Windows(o, segs)
  {
    assert Join(PerString(d, o, prev), |o|, |o|) == [];
    assert Pending(d, o, prev, segs, first, |o|) == AllWords(d, o, segs);
    assert Windows(o, segs)[..|o|] == Windows(o, segs);
  }

  /** Every string of a text that counts only non-empty tokens is non-empty. */
  lemma NoEmptyKept(o0: seq<nat>, o: seq<nat>, g: seq<seq<nat>>)
    requires NoEmptyString(o0) && |o| == |o0| + |g| && SuffixArrays.LensKept(o0, o, g, |g|)
    requires forall t :: 0 <= t < |g| ==> |g[t]| > 0
    ensures NoEmptyString(o)
  {
    forall k | 0 <= k < |o|
      ensures Len(o, k) > 0
    {
      if k >= |o0| {
        assert Len(o, |o0| + (k - |o0|)) == |g[k - |o0|]|;
      }
    }
  }

  /** When the counter held nothing before, raw string t is token t, so a segmentation of
      the raw strings cuts each token. */
  lemma CutsFitKept(o: seq<nat>, cuts: seq<seq<nat>>, tokens: seq<seq<nat>>)
    requires AllCut(o, cuts) && |o| == |tokens| && SuffixArrays.LensKept([], o, tokens, |tokens|)
    ensures |tokens| <= |cuts| && forall k :: 0 <= k < |tokens| ==> ValidCuts(cuts[k], |tokens[k]|)
  {
    forall k | 0 <= k < |tokens|
      ensures ValidCuts(cuts[k], |tokens[k]|)
    {
      assert Len(o, 0 + k) == |tokens[k]|;
    }
  }

  /** Cut lists that fit the CJK tokens of all strings, in order, are taken from the start. */
  lemma CutsFromFresh(lists: seq<seq<seq<nat>>>, cuts: seq<seq<nat>>)
    requires |SegmentWords.KeptAll(lists)| <= |cuts|
    requires forall k :: 0 <= k < |SegmentWords.KeptAll(lists)| ==> ValidCuts(cuts[k], |SegmentWords.KeptAll(lists)[k]|)
    ensures SegmentWords.CutsFrom(lists, cuts, 0)
  {
    var tokens := SegmentWords.KeptAll(lists);
    forall k | 0 <= k < |tokens|
      ensures ValidCuts(cuts[0 + k], |tokens[k]|)
    {
    }
  }

  // -----------------------------------------------------------------------------------------
  // The segmenter

  /** `segmenter(lrv_exp, max_iters, max_len, smooth)` with its arguments checked: building
      the counter throws `invalid_argument` on a negative exponent or smoothing parameter
      (the exponent is checked first); otherwise the segmenter is made. */
  method NewSegmenter(lrvExp: real, maxIters: nat, maxLen: nat, smooth: real) returns (r: StringCounters.Made<Segmenter>)
    ensures r.InvalidArgument? <==> lrvExp < 0.0 || smooth < 0.0
    ensures r.InvalidArgument? ==>
      r.message == if lrvExp < 0.0 then StringCounters.LrvMessage else StringCounters.SmoothMessage
    ensures r.Made? ==> fresh(r.value) && r.value.Valid() && r.value.maxIters == maxIters
    ensures r.Made? ==> r.value.counter.lrvExp == lrvExp && r.value.counter.maxLen == maxLen && r.value.counter.smooth == smooth
    ensures r.Made? ==> r.value.counter.sa.text.data == [] && r.value.counter.sa.text.offsets == []
  {
    if lrvExp < 0.0 {
      return StringCounters.InvalidArgument(StringCounters.LrvMessage);
    }
    if smooth < 0.0 {
      return StringCounters.InvalidArgument(StringCounters.SmoothMessage);
    }
    var g := new Segmenter(lrvExp, maxIters, maxLen, smooth);
    return StringCounters.Made(g);
  }

  class Segmenter {
    const counter: StringCounters.StringCounter
    const maxIters: nat

    /** A consistent counter whose every raw string is non-empty: only tokens, which are
        never empty, are counted. */
    ghost predicate Valid()
      reads this, counter, counter.trie, counter.sa, counter.sa.text
    {
      counter.Valid() && NoEmptyString(counter.sa.text.offsets)
    }

    /** `segmenter(lrv_exp, max_iters, max_len, smooth)`: a fresh counter and the pass
        limit. */
    constructor (lrvExp: real, maxIters: nat, maxLen: nat, smooth: real)
      requires lrvExp >= 0.0 && smooth >= 0.0
      ensures Valid() && fresh(counter) && fresh(counter.trie) && fresh(counter.sa) && fresh(counter.sa.text)
      ensures this.maxIters == maxIters && counter.lrvExp == lrvExp && counter.maxLen == maxLen && counter.smooth == smooth
      ensures counter.sa.text.data == [] && counter.sa.text.offsets == []
    {
      counter := new StringCounters.StringCounter(lrvExp, maxLen, smooth);
      this.maxIters := maxIters;
      new;
      EndOffsetsAscending(counter.sa.text.data, counter.sa.text.offsets);
    }

    /** One pass of `optimize_segment` over all raw strings (the first inner loop): every
        string gets the cuts of the best segmentation under the current counts. */
    method SegmentAll(segs0: seq<seq<nat>>, formula: StringCounters.Stats -> real) returns (segs: seq<seq<nat>>)
      requires Valid() && counter.Fitted() && counter.Indexed() && |segs0| == |counter.sa.text.offsets|
      ensures AllCut(counter.sa.text.offsets, segs)
      ensures forall i: nat, n: nat :: 1 <= n && i + n <= |counter.sa.text.data| ==> !counter.Score(i, n, formula).NullNode?
      ensures forall k :: 0 <= k < |segs| ==> OptimalAt(counter.Snapshot(), formula, counter.sa.text.offsets, segs, k)
    {
      ghost var o := counter.sa.text.offsets;
      var v := counter.Snapshot();
      var sc := ScoreFn(v, formula);
      var m := counter.RawStringCount();
      segs := segs0;
      var j, p := 0, 0;
      while j < m
        invariant j <= m && |segs| == m
        invariant j < m ==> p == Begin(o, j)
        invariant forall k :: 0 <= k < j ==> ValidCuts(segs[k], Len(o, k)) && OptimalAt(v, formula, o, segs, k)
      {
        var n := counter.RawStringLength(j);
        assert Len(o, j) > 0;
        var seg := OptimizeSegment(sc, segs[j], p, n);
        segs := segs[j := seg];
        p := p + n + 1;
        j := j + 1;
      }
    }

    /** The counter's statistics that the update pass leaves alone. */
    ghost function Frozen(): (map<seq<nat>, real>, map<seq<nat>, real>, seq<real>, seq<real>, seq<real>, seq<nat>, real)
      reads counter, counter.trie
    {
      (counter.trie.hl, counter.trie.hr, counter.fAvgs, counter.hlAvgs, counter.hrAvgs, counter.strNums, counter.h1)
    }

    /** The state of the counter when the update pass reaches string j of the text (d, o):
        the trie counts `f1` with the pending words taken out, the preserve lengths laid out
        from the pending windows, and the other statistics `fr`. */
    ghost predicate Pass(prev: seq<seq<nat>>, segs: seq<seq<nat>>, first: bool, f1: map<seq<nat>, nat>, d: seq<nat>, o: seq<nat>, j: nat,
                         fr: (map<seq<nat>, real>, map<seq<nat>, real>, seq<real>, seq<real>, seq<real>, seq<nat>, real))
      reads this, counter, counter.trie, counter.sa, counter.sa.text
    {
      Valid() && counter.Fitted() && counter.sa.text.data == d && counter.sa.text.offsets == o && Frozen() == fr
      && AllCut(o, prev) && AllCut(o, segs) && Bounded(f1) && j <= |o|
      && counter.trie.f == WalkedEach(f1, Pending(d, o, prev, segs, first, j), false)
      && counter.countMinLens == Tile(Layout(o, prev, segs, first, j))
    }

    /** The counting and EM part of `fit_and_segment` on the tokens that are kept (runs of
        CJK characters, never empty): the counter is fitted on them; then each pass segments
        every raw string under the current counts and stops when nothing changed, or else
        trades the words of the previous segmentation for the new ones in the counter. At
        most `maxIters` passes run. The returned cuts are the last segmentation counted (no
        cuts at all when no pass completed); `fitted` is what fitting left in the trie,
        `passes` the number of completed update passes, and `converged` whether the last
        segmentation was reproduced by segmenting under its own counts. */
    method Fit(tokens: seq<seq<nat>>, entropy: multiset<nat> -> real, formula: StringCounters.Stats -> real)
      returns (cuts: seq<seq<nat>>, ghost fitted: map<seq<nat>, nat>, ghost passes: nat, ghost converged: bool)
      requires Valid() && forall t :: 0 <= t < |tokens| ==> |tokens[t]| > 0
      modifies counter, counter.trie, counter.sa, counter.sa.text
      ensures Counted(cuts, passes == 0, fitted, counter.sa.text.data, counter.sa.text.offsets)
      ensures counter.sa.text.data == old(counter.sa.text.data) + SuffixArrays.Concat(old(counter.sa.text.idMap), tokens)
      ensures |counter.sa.text.offsets| == |old(counter.sa.text.offsets)| + |tokens|
      ensures SuffixArrays.LensKept(old(counter.sa.text.offsets), counter.sa.text.offsets, tokens, |tokens|)
      ensures StringCounters.SweepOk(old(counter.trie.f), fitted, counter.sa.text.data, counter.sa.sa, counter.maxLen)
      ensures passes <= maxIters && (converged <==> passes < maxIters)
      ensures passes == 0 ==> cuts == seq(|counter.sa.text.offsets|, _ => [])
      ensures converged ==>
        forall k :: 0 <= k < |cuts| ==> OptimalAt(counter.Snapshot(), formula, counter.sa.text.offsets, cuts, k)
    {
      ghost var totals;
      fitted, totals := FitCounter(tokens, entropy);
      cuts, passes, converged := Iterate(formula, fitted, counter.sa.text.data, counter.sa.text.offsets);
    }

    /** `fit_and_segment`: every string is read through the byte tokenizer; the counter is
        fitted on the CJK tokens of all strings, in order, and the passes run on them; then
        each string becomes a word list in which every CJK token is cut as the last counted
        segmentation says, every other token except whitespace is one word, and whitespace
        is dropped. Put back together, a string's words are its bytes without its
        whitespace tokens. A string that is not UTF-8 stops everything with the error of the
        first such string. Here every string is tokenized before the counter is fitted, so
        the error leaves the counter as it was; the source feeds the counter lazily from
        the tokenizer and would have appended the tokens read before the bad byte. */
    method FitAndSegment(sequences: seq<seq<Utf8.byte>>, alnum: Tokens.Class, space: Tokens.Class,
                         entropy: multiset<nat> -> real, formula: StringCounters.Stats -> real)
      returns (wordLists: seq<seq<seq<Utf8.byte>>>, err: Options.Option<Utf8.DecodeError>,
               ghost cuts: seq<seq<nat>>, ghost fitted: map<seq<nat>, nat>, ghost passes: nat, ghost converged: bool)
      requires Valid() && counter.sa.text.offsets == []
      modifies counter, counter.trie, counter.sa, counter.sa.text
      ensures err == SegmentWords.FirstError(sequences)
      ensures err.Some? ==> wordLists == [] && unchanged(counter, counter.trie, counter.sa, counter.sa.text)
      ensures err.None? ==> |wordLists| == |sequences|
      ensures err.None? ==> forall i :: 0 <= i < |sequences| ==>
        && SegmentWords.Join(wordLists[i]) == SegmentWords.KeptBytes(sequences[i], alnum, space)
        && SegmentWords.NonEmpty(wordLists[i])
      ensures err.None? ==> SegmentWords.SegmentedAll(sequences, alnum, space, SegmentWords.AllTokens(sequences, alnum, space), cuts, wordLists)
      ensures err.None? ==> Valid() && counter.Fitted()
      ensures err.None? ==> (counter.sa.text.data == old(counter.sa.text.data) +
        SuffixArrays.Concat(old(counter.sa.text.idMap), SegmentWords.KeptAll(SegmentWords.AllTokens(sequences, alnum, space))))
      ensures err.None? ==> Counted(cuts, passes == 0, fitted, counter.sa.text.data, counter.sa.text.offsets)
      ensures err.None? ==> passes <= maxIters && (converged <==> passes < maxIters)
      ensures err.None? && passes == 0 ==> cuts == seq(|counter.sa.text.offsets|, _ => [])
      ensures err.None? && converged ==>
        forall k :: 0 <= k < |cuts| ==> OptimalAt(counter.Snapshot(), formula, counter.sa.text.offsets, cuts, k)
    {
      var lists, stopLists;
      lists, stopLists, err := SegmentWords.TokenizeAll(sequences, alnum, space);
      if err.Some? {
        return [], err, [], map[], 0, false;
      }
      SegmentWords.TokenizedAll(sequences, alnum, space, lists, stopLists);
      wordLists, cuts, fitted, passes, converged := SegmentTokenized(sequences, alnum, space, lists, stopLists, entropy, formula);
    }

    /** The part of `fit_and_segment` after every string was tokenized: fitting and the
        passes on the CJK tokens of all strings, then the word lists, in which the CJK
        tokens take the cut lists of the last counted segmentation in order. */
    method SegmentTokenized(sequences: seq<seq<Utf8.byte>>, alnum: Tokens.Class, space: Tokens.Class,
                            lists: seq<seq<seq<nat>>>, stopLists: seq<seq<nat>>,
                            entropy: multiset<nat> -> real, formula: StringCounters.Stats -> real)
      returns (wordLists: seq<seq<seq<Utf8.byte>>>,
               ghost cuts: seq<seq<nat>>, ghost fitted: map<seq<nat>, nat>, ghost passes: nat, ghost converged: bool)
      requires Valid() && counter.sa.text.offsets == []
      requires |lists| == |stopLists| == |sequences|
      requires forall t :: 0 <= t < |sequences| ==> SegmentWords.Tokenized(sequences[t], alnum, space, lists[t], stopLists[t])
      modifies counter, counter.trie, counter.sa, counter.sa.text
      ensures |wordLists| == |sequences|
      ensures forall i :: 0 <= i < |sequences| ==>
        && SegmentWords.Join(wordLists[i]) == SegmentWords.KeptBytes(sequences[i], alnum, space)
        && SegmentWords.NonEmpty(wordLists[i])
      ensures SegmentWords.SegmentedAll(sequences, alnum, space, lists, cuts, wordLists)
      ensures Valid() && counter.Fitted()
      ensures counter.sa.text.data == old(counter.sa.text.data) + SuffixArrays.Concat(old(counter.sa.text.idMap), SegmentWords.KeptAll(lists))
      ensures Counted(cuts, passes == 0, fitted, counter.sa.text.data, counter.sa.text.offsets)
      ensures passes <= maxIters && (converged <==> passes < maxIters)
      ensures passes == 0 ==> cuts == seq(|counter.sa.text.offsets|, _ => [])
      ensures converged ==>
        forall k :: 0 <= k < |cuts| ==> OptimalAt(counter.Snapshot(), formula, counter.sa.text.offsets, cuts, k)
    {
      var tokens := SegmentWords.KeptAll(lists);
      var last;
      last, fitted, passes, converged := FitFresh(tokens, entropy, formula);
      cuts := last;
      ghost var v := counter.Snapshot();
      CutsFromFresh(lists, last);
      wordLists := SegmentWords.WordLists(sequences, alnum, space, lists, stopLists, last);
      assert counter.Snapshot() == v;
    }

    /** `Fit` on a counter that held nothing: the last counted segmentation has one cut list
        per token, each fitting its token. */
    method FitFresh(tokens: seq<seq<nat>>, entropy: multiset<nat> -> real, formula: StringCounters.Stats -> real)
      returns (cuts: seq<seq<nat>>, ghost fitted: map<seq<nat>, nat>, ghost passes: nat, ghost converged: bool)
      requires Valid() && counter.sa.text.offsets == [] && forall t :: 0 <= t < |tokens| ==> |tokens[t]| > 0
      modifies counter, counter.trie, counter.sa, counter.sa.text
      ensures |tokens| <= |cuts| && forall k :: 0 <= k < |tokens| ==> ValidCuts(cuts[k], |tokens[k]|)
      ensures Valid() && counter.Fitted()
      ensures counter.sa.text.data == old(counter.sa.text.data) + SuffixArrays.Concat(old(counter.sa.text.idMap), tokens)
      ensures Counted(cuts, passes == 0, fitted, counter.sa.text.data, counter.sa.text.offsets)
      ensures passes <= maxIters && (converged <==> passes < maxIters)
      ensures passes == 0 ==> cuts == seq(|counter.sa.text.offsets|, _ => [])
      ensures converged ==>
        forall k :: 0 <= k < |cuts| ==> OptimalAt(counter.Snapshot(), formula, counter.sa.text.offsets, cuts, k)
    {
      cuts, fitted, passes, converged := Fit(tokens, entropy, formula);
      CutsFitKept(counter.sa.text.offsets, cuts, tokens);
    }

    /** The fitting part of `Fit`: the counter as `StringCounter.Fit` leaves it, with no
        word counted yet, `h1` the entropy of a single boundary, and the tables the averages
        of the sweep's totals `t`. */
    method FitCounter(tokens: seq<seq<nat>>, entropy: multiset<nat> -> real)
      returns (ghost fitted: map<seq<nat>, nat>, ghost t: Averages.Totals)
      requires Valid() && forall t :: 0 <= t < |tokens| ==> |tokens[t]| > 0
      modifies counter, counter.trie, counter.sa, counter.sa.text
      ensures counter.h1 == entropy(multiset{Boundary})
      ensures StringCounters.Tallied(t, counter.sa.text.data, counter.maxLen) && counter.strNums == t.nums
      ensures counter.Fitted()
      ensures StringCounters.TalliedSides(t, counter.sa.text.data, counter.sa.sa, counter.maxLen, counter.h1, entropy)
      ensures StringCounters.CompleteSides(counter.trie.hl, counter.trie.hr, counter.sa.text.data, counter.sa.sa,
                                           counter.maxLen, entropy)
      ensures var m := Averages.FirstZero(t.nums);
        counter.fAvgs == Averages.DividedBelow(t.f, t.nums, m)
        && counter.hlAvgs == Averages.DividedBelow(t.hl, t.nums, m)
        && counter.hrAvgs == Averages.DividedBelow(t.hr, t.nums, m)
      ensures Counted(seq(|counter.sa.text.offsets|, _ => []), true, fitted, counter.sa.text.data, counter.sa.text.offsets)
      ensures counter.sa.text.data == old(counter.sa.text.data) + SuffixArrays.Concat(old(counter.sa.text.idMap), tokens)
      ensures |counter.sa.text.offsets| == |old(counter.sa.text.offsets)| + |tokens|
      ensures SuffixArrays.LensKept(old(counter.sa.text.offsets), counter.sa.text.offsets, tokens, |tokens|)
      ensures StringCounters.SweepOk(old(counter.trie.f), fitted, counter.sa.text.data, counter.sa.sa, counter.maxLen)
      ensures StringCounters.HasNodes(fitted, counter.sa.text.data, counter.maxLen)
    {
      ghost var o0 := counter.sa.text.offsets;
      t := counter.Fit(tokens, entropy);
      NoEmptyKept(o0, counter.sa.text.offsets, tokens);
      fitted := counter.trie.f;
      FittedZeros(counter.sa.text.data, counter.sa.text.offsets);
    }

    /** The passes of `fit_and_segment` over a freshly fitted counter, as described at
        `Fit`. */
    method Iterate(formula: StringCounters.Stats -> real, ghost fitted: map<seq<nat>, nat>, ghost d: seq<nat>, ghost o: seq<nat>)
      returns (cuts: seq<seq<nat>>, ghost passes: nat, ghost converged: bool)
      requires Counted(seq(|o|, _ => []), true, fitted, d, o) && StringCounters.HasNodes(fitted, d, counter.maxLen)
      modifies counter, counter.trie
      ensures Counted(cuts, passes == 0, fitted, d, o)
      ensures passes <= maxIters && (converged <==> passes < maxIters)
      ensures passes == 0 ==> cuts == seq(|o|, _ => [])
      ensures converged ==> forall k :: 0 <= k < |cuts| ==> OptimalAt(counter.Snapshot(), formula, o, cuts, k)
    {
      var m := counter.RawStringCount();
      var prev: seq<seq<nat>> := seq(m, _ => []);
      var segs: seq<seq<nat>> := seq(m, _ => []);
      var i: nat := 0;
      converged := false;
      while i < maxIters
        invariant i <= maxIters && |segs| == m == |o|
        invariant Counted(prev, i == 0, fitted, d, o) && StringCounters.HasNodes(fitted, d, counter.maxLen)
        invariant i == 0 ==> prev == seq(m, _ => [])
      {
        CountedIndexed(prev, i == 0, fitted, d, o);
        segs := SegmentAll(segs, formula);
        if prev == segs {
          converged := true;
          break;
        }
        UpdateAll(prev, segs, i == 0, fitted, d, o);
        prev, segs := segs, prev;
        i := i + 1;
      }
      cuts, passes := prev, i;
    }

    /** Right after fitting, the preserve lengths are the layout of zero windows. */
    static lemma FittedZeros(d: seq<nat>, o: seq<nat>)
      requires EndOffsets(d, o)
      ensures seq(|d|, _ => 0) == Tile(ZeroWindows(o))
    {
      EndOffsetsAscending(d, o);
      TileZeros(o, |o|);
      assert ZeroWindows(o)[..|o|] == ZeroWindows(o);
    }

    /** The counter holds the counts `f1` with the words of `cuts` taken out (of none when
        `none`) and the preserve lengths of `cuts` (all 0 when `none`), over the text (d, o). */
    ghost predicate Counted(cuts: seq<seq<nat>>, none: bool, f1: map<seq<nat>, nat>, d: seq<nat>, o: seq<nat>)
      reads this, counter, counter.trie, counter.sa, counter.sa.text
    {
      Valid() && counter.Fitted() && counter.sa.text.data == d && counter.sa.text.offsets == o
      && AllCut(o, cuts) && Bounded(f1)
      && (none ==> counter.trie.f == f1 && counter.countMinLens == Tile(ZeroWindows(o)))
      && (!none ==> counter.trie.f == WalkedEach(f1, AllWords(d, o, cuts), false)
                    && counter.countMinLens == Tile(Windows(o, cuts)))
    }

    /** Taking words out of the counts or putting them back keeps every node: the counter
        stays indexed as fitting left it. */
    lemma CountedIndexed(cuts: seq<seq<nat>>, none: bool, f1: map<seq<nat>, nat>, d: seq<nat>, o: seq<nat>)
      requires Counted(cuts, none, f1, d, o) && StringCounters.HasNodes(f1, d, counter.maxLen)
      ensures counter.Indexed()
    {
      assert counter.trie.f.Keys == f1.Keys;
    }

    /** The second inner loop of one pass: for every raw string, the words of its previous
        cuts go back into the counts (not on the first pass, where the preserve lengths are
        still all 0) and those of its new cuts are taken out, and its preserve lengths
        become those of the new cuts. */
    method UpdateAll(prev: seq<seq<nat>>, segs: seq<seq<nat>>, first: bool, ghost f1: map<seq<nat>, nat>,
                     ghost d: seq<nat>, ghost o: seq<nat>)
      requires Counted(prev, first, f1, d, o) && AllCut(o, segs)
      modifies counter, counter.trie
      ensures Counted(segs, false, f1, d, o)
      ensures Frozen() == old(Frozen())
    {
      ghost var fr := Frozen();
      var m := counter.RawStringCount();
      UpdateEnds(d, o, prev, segs, first, f1);
      EndOffsetsAscending(d, o);
      assert m == |o| && Ascending(o);
      var j, p := 0, 0;
      while j < m
        invariant j <= m
        invariant j < m ==> p == Begin(o, j)
        invariant Pass(prev, segs, first, f1, d, o, j, fr)
      {
        var n := UpdateOne(prev, segs, first, f1, d, o, fr, j, p);
        NextBegin(o, j);
        p := p + n + 1;
        j := j + 1;
      }
    }

    /** The update of raw string j, which starts at p; n is its length. */
    method UpdateOne(prev: seq<seq<nat>>, segs: seq<seq<nat>>, first: bool, ghost f1: map<seq<nat>, nat>,
                     ghost d: seq<nat>, ghost o: seq<nat>,
                     ghost fr: (map<seq<nat>, real>, map<seq<nat>, real>, seq<real>, seq<real>, seq<real>, seq<nat>, real),
                     j: nat, p: nat) returns (n: nat)
      requires Pass(prev, segs, first, f1, d, o, j, fr) && j < |o| && p == Begin(o, j)
      modifies counter, counter.trie
      ensures Pass(prev, segs, first, f1, d, o, j + 1, fr) && n == Len(o, j)
    {
      n := counter.RawStringLength(j);
      UpdateStepCounts(d, o, prev, segs, first, f1, j);
      UpdateStepLens(d, o, prev, segs, first, j);
      assert n == Len(o, j) > 0;
      Retake(prev[j], segs[j], p, n, !first);
    }

    /** `unset_pres` of the old cuts (when `clear`), then `set_pres` of the new ones, on
        the raw string at p of length n. */
    method Retake(before: seq<nat>, after: seq<nat>, p: nat, n: nat, clear: bool)
      requires Valid() && counter.Fitted() && ValidCuts(before, n) && ValidCuts(after, n)
      requires 1 <= n && p + n <= |counter.countMinLens|
      modifies counter, counter.trie
      ensures counter.sa.text.data == old(counter.sa.text.data) && counter.sa.text.offsets == old(counter.sa.text.offsets)
      ensures Valid() && counter.Fitted()
      ensures counter.trie.f == Retaken(old(counter.trie.f), Words(counter.sa.text.data, p, before, n), Words(counter.sa.text.data, p, after, n), clear)
      ensures counter.countMinLens == Rewritten(old(counter.countMinLens), after, p, n, clear)
      ensures Frozen() == old(Frozen())
    {
      if clear {
        counter.UnsetPres(before, p, n);
      }
      counter.SetPres(after, p, n);
    }
  }
}
