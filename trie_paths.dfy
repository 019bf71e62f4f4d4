/** Frequency tries as path maps. A trie node is named by the path of term ids from the root
    to it; a trie is the prefix-closed set of its paths, and each per-node counter is a map
    from paths to values. The counting walks of `increase` and `decrease` are defined here
    once and shared by the trie classes. Node counters are `size_t`, so they wrap modulo
    2^64. */
module TriePaths {

  /** Number of values of `size_t`. */
  const Word: nat := 0x1_0000_0000_0000_0000

  /** `x` reduced into `size_t` range (the wrap-around of `++`, `--` and friends). */
  function Wrap(x: int): (r: nat)
    ensures r < Word
    ensures 0 <= x < Word ==> r == x
  {
    x % Word
  }

  /** Every counter is a `size_t` value. */
  predicate Bounded(f: map<seq<nat>, nat>)
  {
    forall p :: p in f ==> f[p] < Word
  }

  /** Every path's parent is a path too, and the root (the empty path) is present. */
  ghost predicate PrefixClosed(keys: set<seq<nat>>)
  {
    [] in keys && forall p :: ParentIn(keys, p)
  }

  /** If `p` is a non-root path of the set, so is its parent. */
  ghost predicate ParentIn(keys: set<seq<nat>>, p: seq<nat>)
  {
    p in keys && p != [] ==> p[..|p| - 1] in keys
  }

  /** Every prefix of a path of a prefix-closed set is in the set. */
  lemma {:induction false} PrefixIn(keys: set<seq<nat>>, q: seq<nat>, n: nat)
    requires PrefixClosed(keys) && q in keys && n <= |q|
    ensures q[..n] in keys
    decreases |q| - n
  {
    if n < |q| {
      assert ParentIn(keys, q);
      var parent := q[..|q| - 1];
      assert parent[..n] == q[..n];
      PrefixIn(keys, parent, n);
    } else {
      assert q[..n] == q;
    }
  }

  /** The walk from start i of range `r` reaches path `p`: `p` occurs in `r` at i, is a node,
      is not the root, and is not the node of the whole range (which is skipped). */
  predicate Hit(keys: set<seq<nat>>, r: seq<nat>, i: nat, p: seq<nat>)
  {
    1 <= |p| && i + |p| <= |r| && r[i..i + |p|] == p && p in keys && !(i == 0 && |p| == |r|)
  }

  /** Number of starts below i whose walk reaches `p`. */
  function HitsBelow(keys: set<seq<nat>>, r: seq<nat>, p: seq<nat>, i: nat): nat
  {
    if i == 0 then 0 else HitsBelow(keys, r, p, i - 1) + (if Hit(keys, r, i - 1, p) then 1 else 0)
  }

  /** How many times one `increase(r)` or `decrease(r)` steps the counter of `p`. */
  function Touches(keys: set<seq<nat>>, r: seq<nat>, p: seq<nat>): nat
  {
    HitsBelow(keys, r, p, |r|)
  }

  /** The counter of `p` after being stepped k times up or down. */
  function Stepped(x: nat, k: nat, up: bool): nat
  {
    if up then Wrap(x + k) else Wrap(x - k)
  }

  /** The counters after one `increase(r)` (`up`) or `decrease(r)`: every node's counter moves
      by the number of walks that reach it; no node is added or removed. */
  function Walked(f: map<seq<nat>, nat>, r: seq<nat>, up: bool): (g: map<seq<nat>, nat>)
    ensures g.Keys == f.Keys && Bounded(g)
  {
    map p | p in f :: Stepped(f[p], Touches(f.Keys, r, p), up)
  }

  /** `decrease(r)` undoes `increase(r)` and vice versa, on counters already in range. */
  lemma WalkedRoundTrip(f: map<seq<nat>, nat>, r: seq<nat>, up: bool)
    requires Bounded(f)
    ensures Walked(Walked(f, r, up), r, !up) == f
  {
    var g := Walked(f, r, up);
    forall p | p in f
      ensures Walked(g, r, !up)[p] == f[p]
    {
      var k := Touches(f.Keys, r, p);
      WrapCancel(f[p], k, up);
    }
  }

  /** The counters after one walk per range of `rs`, in order (the per-word `increase` or
      `decrease` calls of the preserve-length updates). */
  function WalkedEach(f: map<seq<nat>, nat>, rs: seq<seq<nat>>, up: bool): (g: map<seq<nat>, nat>)
    ensures g.Keys == f.Keys
    ensures Bounded(f) ==> Bounded(g)
  {
    if |rs| == 0 then f else Walked(WalkedEach(f, rs[..|rs| - 1], up), rs[|rs| - 1], up)
  }

  /** One more range: the walk of `rs[k]` after those of `rs[..k]`. */
  lemma WalkedEachSnoc(f: map<seq<nat>, nat>, rs: seq<seq<nat>>, k: nat, up: bool)
    requires k < |rs|
    ensures WalkedEach(f, rs[..k + 1], up) == Walked(WalkedEach(f, rs[..k], up), rs[k], up)
  {
    assert rs[..k + 1][..k] == rs[..k];
  }

  /** How many times the walks of all ranges of `rs` step the counter of `p`. */
  function TouchesEach(keys: set<seq<nat>>, rs: seq<seq<nat>>, p: seq<nat>): nat
  {
    if |rs| == 0 then 0 else TouchesEach(keys, rs[..|rs| - 1], p) + Touches(keys, rs[|rs| - 1], p)
  }

  /** Walking the ranges one after another steps each counter by the total of their
      touches. */
  lemma {:induction false} WalkedEachSteps(f: map<seq<nat>, nat>, rs: seq<seq<nat>>, up: bool, p: seq<nat>)
    requires Bounded(f) && p in f
    ensures WalkedEach(f, rs, up)[p] == Stepped(f[p], TouchesEach(f.Keys, rs, p), up)
  {
    if |rs| > 0 {
      var init := rs[..|rs| - 1];
      WalkedEachSteps(f, init, up, p);
      SteppedAdd(f[p], TouchesEach(f.Keys, init, p), Touches(f.Keys, rs[|rs| - 1], p), up);
    }
  }

  /** Undoing the walks of every range of `rs` restores every counter: the per-word
      `decrease` calls of `set_pres` are undone by the `increase` calls of `unset_pres`. */
  lemma WalkedEachRoundTrip(f: map<seq<nat>, nat>, rs: seq<seq<nat>>, up: bool)
    requires Bounded(f)
    ensures WalkedEach(WalkedEach(f, rs, up), rs, !up) == f
  {
    var g := WalkedEach(f, rs, up);
    forall p | p in f
      ensures WalkedEach(g, rs, !up)[p] == f[p]
    {
      WalkedEachSteps(f, rs, up, p);
      WalkedEachSteps(g, rs, !up, p);
      WrapCancel(f[p], TouchesEach(f.Keys, rs, p), up);
    }
  }

  /** Walking the ranges of `a`, then those of `b`, is walking those of `a + b`. */
  lemma {:induction false} WalkedEachAppend(f: map<seq<nat>, nat>, a: seq<seq<nat>>, b: seq<seq<nat>>, up: bool)
    ensures WalkedEach(WalkedEach(f, a, up), b, up) == WalkedEach(f, a + b, up)
    decreases |b|
  {
    if |b| == 0 {
      assert a + b == a;
    } else {
      var b' := b[..|b| - 1];
      WalkedEachAppend(f, a, b', up);
      assert (a + b)[..|a + b| - 1] == a + b';
    }
  }

  /** Two lists of walks can be taken in either order. */
  lemma WalkedEachCommute(f: map<seq<nat>, nat>, r: seq<seq<nat>>, u: bool, s: seq<seq<nat>>, v: bool)
    requires Bounded(f)
    ensures WalkedEach(WalkedEach(f, r, u), s, v) == WalkedEach(WalkedEach(f, s, v), r, u)
  {
    var g1 := WalkedEach(WalkedEach(f, r, u), s, v);
    var g2 := WalkedEach(WalkedEach(f, s, v), r, u);
    forall p | p in f
      ensures g1[p] == g2[p]
    {
      CommuteAt(f, r, u, s, v, p);
    }
    assert g1.Keys == g2.Keys;
  }

  lemma CommuteAt(f: map<seq<nat>, nat>, r: seq<seq<nat>>, u: bool, s: seq<seq<nat>>, v: bool, p: seq<nat>)
    requires Bounded(f) && p in f
    ensures WalkedEach(WalkedEach(f, r, u), s, v)[p] == WalkedEach(WalkedEach(f, s, v), r, u)[p]
  {
    var tr, ts := TouchesEach(f.Keys, r, p), TouchesEach(f.Keys, s, p);
    WalkedEachSteps(f, r, u, p);
    WalkedEachSteps(WalkedEach(f, r, u), s, v, p);
    WalkedEachSteps(f, s, v, p);
    WalkedEachSteps(WalkedEach(f, s, v), r, u, p);
    SteppedCommute(f[p], tr, u, ts, v);
  }

  /** Steps in two directions can be taken in either order. */
  lemma SteppedCommute(x: nat, a: nat, u: bool, b: nat, v: bool)
    ensures Stepped(Stepped(x, a, u), b, v) == Stepped(Stepped(x, b, v), a, u)
  {
    var da, db := Shift(a, u), Shift(b, v);
    var w1, w2 := Stepped(x, a, u), Stepped(x, b, v);
    SteppedIsShift(x, a, u);
    SteppedIsShift(w1, b, v);
    SteppedIsShift(x, b, v);
    SteppedIsShift(w2, a, u);
    WrapShift(x + da, db);
    WrapShift(x + db, da);
    assert x + da + db == x + db + da;
  }

  /** The signed change of k steps up or down. */
  function Shift(k: nat, up: bool): int
  {
    if up then k else -(k as int)
  }

  lemma SteppedIsShift(x: nat, k: nat, up: bool)
    ensures Stepped(x, k, up) == Wrap(x + Shift(k, up))
  {
  }

  /** Reducing before or after a shift gives the same `size_t` value. */
  lemma WrapShift(y: int, d: int)
    ensures Wrap(Wrap(y) + d) == Wrap(y + d)
  {
    assert Wrap(y) == y - Word * (y / Word);
    ModShift2(y + d, -(y / Word));
  }

  /** Trading the words `b` of one string for `b'` among the words walked down: walking `b`
      back up, then `b'` down, leaves the counters as if `b'` had been walked instead. */
  lemma WalkedEachSwap(f: map<seq<nat>, nat>, a: seq<seq<nat>>, b: seq<seq<nat>>, c: seq<seq<nat>>, b': seq<seq<nat>>)
    requires Bounded(f)
    ensures WalkedEach(WalkedEach(WalkedEach(f, a + b + c, false), b, true), b', false)
         == WalkedEach(f, a + b' + c, false)
  {
    var fa := WalkedEach(f, a, false);
    var fac := WalkedEach(f, a + c, false);
    WalkedEachAppend(f, a + b, c, false);
    WalkedEachAppend(f, a, b, false);
    WalkedEachCommute(fa, b, false, c, false);
    WalkedEachAppend(f, a, c, false);
    assert WalkedEach(f, a + b + c, false) == WalkedEach(fac, b, false);
    WalkedEachRoundTrip(fac, b, false);
    WalkedEachAppend(f, a + b', c, false);
    WalkedEachAppend(f, a, b', false);
    WalkedEachCommute(fa, b', false, c, false);
  }

  lemma SteppedAdd(x: nat, a: nat, b: nat, up: bool)
    ensures Stepped(Stepped(x, a, up), b, up) == Stepped(x, a + b, up)
  {
    var y: int := if up then x + a else x as int - a;
    var z: int := if up then b else -(b as int);
    assert Stepped(x, a, up) == y - Word * (y / Word);
    ModShift2(y + z, -(y / Word));
  }

  lemma WrapCancel(x: nat, k: nat, up: bool)
    requires x < Word
    ensures Stepped(Stepped(x, k, up), k, !up) == x
  {
    if up {
      assert Wrap(x + k) - k == x + k - Word * ((x + k) / Word) - k;
      ModShift(x, -((x + k) / Word));
    } else {
      assert Wrap(x - k) + k == x - k - Word * ((x - k) / Word) + k;
      ModShift(x, -((x - k) / Word));
    }
  }

  lemma ModShift(x: nat, q: int)
    requires x < Word
    ensures Wrap(x + Word * q) == x
  {
  }

  /** One `++` (`up`) or `--` on a `size_t` counter. */
  function Step(x: nat, up: bool): nat
  {
    if up then Wrap(x + 1) else Wrap(x as int - 1)
  }

  /** One more step of the counter. */
  lemma SteppedNext(x: nat, k: nat, up: bool)
    ensures Step(Stepped(x, k, up), up) == Stepped(x, k + 1, up)
  {
    var y := if up then x + k else x - k;
    var s := if up then 1 else -1;
    assert Stepped(x, k, up) == y - Word * (y / Word);
    ModShift2(y + s, -(y / Word));
  }

  lemma ModShift2(y: int, q: int)
    ensures Wrap(y + Word * q) == Wrap(y)
  {
  }

  /** Only substrings of `r` are touched, and never the root or the whole range. */
  lemma TouchesOnlySubstrings(keys: set<seq<nat>>, r: seq<nat>, p: seq<nat>)
    ensures Touches(keys, r, p) > 0 ==> 1 <= |p| < |r|
    ensures (p !in keys || p == [] || p == r) ==> Touches(keys, r, p) == 0
  {
    NoHits(keys, r, p, |r|);
  }

  lemma {:induction false} NoHits(keys: set<seq<nat>>, r: seq<nat>, p: seq<nat>, i: nat)
    requires i <= |r|
    ensures HitsBelow(keys, r, p, i) > 0 ==> 1 <= |p| < |r|
    ensures (p !in keys || p == [] || p == r) ==> HitsBelow(keys, r, p, i) == 0
  {
    if i > 0 {
      NoHits(keys, r, p, i - 1);
    }
  }

  /** The walks that start at i: after the walk has reached depth `d` (path `r[i..i+d]`),
      the counter of `p` has moved for the starts below i, plus once more if the walk from
      i reaches `p` within depth `d`. */
  predicate WalkedTo(f0: map<seq<nat>, nat>, f: map<seq<nat>, nat>, r: seq<nat>, up: bool, i: nat, d: nat)
  {
    f.Keys == f0.Keys && forall p :: p in f ==> NodeWalked(f0, f[p], r, up, i, d, p)
  }

  /** The counter x of node p as `WalkedTo` describes it. */
  predicate NodeWalked(f0: map<seq<nat>, nat>, x: nat, r: seq<nat>, up: bool, i: nat, d: nat, p: seq<nat>)
  {
    p in f0 && x == Stepped(f0[p], HitsBelow(f0.Keys, r, p, i) + (if Hit(f0.Keys, r, i, p) && |p| <= d then 1 else 0), up)
  }

  /** The nested walk loops of `increase` / `decrease` on a prefix-closed trie: for every
      start, step down the range from the root, skip the node of the whole range, stop at the
      first missing child, and step each reached counter by one. */
  method Walk(f0: map<seq<nat>, nat>, r: seq<nat>, up: bool) returns (f: map<seq<nat>, nat>)
    requires PrefixClosed(f0.Keys) && Bounded(f0)
    ensures f == Walked(f0, r, up)
  {
    f := f0;
    assert WalkedTo(f0, f, r, up, 0, 0) by {
      forall p | p in f
        ensures NodeWalked(f0, f[p], r, up, 0, 0, p)
      {
        assert f[p] == Stepped(f0[p], 0, up);
      }
    }
    var i := 0;
    while i < |r|
      invariant 0 <= i <= |r|
      invariant WalkedTo(f0, f, r, up, i, 0)
    {
      f := WalkFrom(f0, f, r, up, i);
      i := i + 1;
    }
    WalkedAll(f0, f, r, up);
  }

  lemma WalkedAll(f0: map<seq<nat>, nat>, f: map<seq<nat>, nat>, r: seq<nat>, up: bool)
    requires WalkedTo(f0, f, r, up, |r|, 0)
    ensures f == Walked(f0, r, up)
  {
    var w := Walked(f0, r, up);
    assert f.Keys == w.Keys;
    forall p | p in f
      ensures f[p] == w[p]
    {
      assert NodeWalked(f0, f[p], r, up, |r|, 0, p);
      assert !Hit(f0.Keys, r, |r|, p) || |p| > 0;
    }
  }

  /** The inner loop: the walk from start i. */
  method WalkFrom(f0: map<seq<nat>, nat>, f1: map<seq<nat>, nat>, r: seq<nat>, up: bool, i: nat)
    returns (f: map<seq<nat>, nat>)
    requires PrefixClosed(f0.Keys) && i < |r|
    requires WalkedTo(f0, f1, r, up, i, 0)
    ensures WalkedTo(f0, f, r, up, i + 1, 0)
  {
    f := f1;
    var j := i;
    while j < |r|
      invariant i <= j <= |r|
      invariant WalkedTo(f0, f, r, up, i, j - i)
    {
      if i == 0 && j + 1 == |r| {
        EndStops(f0.Keys, r, i, j);
        WalkDone(f0, f, r, up, i, j);
        return;
      }
      var next := r[i..j + 1];
      if next !in f {
        KeysOf(f0, f, r, up, i, j - i);
        MissingStops(f0.Keys, r, i, j);
        WalkDone(f0, f, r, up, i, j);
        return;
      }
      StepOne(f0, f, r, up, i, j);
      f := f[next := Step(f[next], up)];
      j := j + 1;
    }
    EndStops(f0.Keys, r, i, j);
    WalkDone(f0, f, r, up, i, j);
  }

  lemma KeysOf(f0: map<seq<nat>, nat>, f: map<seq<nat>, nat>, r: seq<nat>, up: bool, i: nat, d: nat)
    requires WalkedTo(f0, f, r, up, i, d)
    ensures f.Keys == f0.Keys
  {
  }

  /** The walk from i cannot go past the end of the range, nor, from start 0, onto the
      node of the whole range. */
  lemma EndStops(keys: set<seq<nat>>, r: seq<nat>, i: nat, j: nat)
    requires i <= j <= |r|
    requires j == |r| || (i == 0 && j + 1 == |r|)
    ensures forall p :: Hit(keys, r, i, p) ==> |p| <= j - i
  {
  }

  /** One step of the walk from i, to the node `r[i..j+1]`. */
  lemma StepOne(f0: map<seq<nat>, nat>, f: map<seq<nat>, nat>, r: seq<nat>, up: bool, i: nat, j: nat)
    requires i <= j < |r| && r[i..j + 1] in f
    requires WalkedTo(f0, f, r, up, i, j - i)
    requires !(i == 0 && j + 1 == |r|)
    ensures var next := r[i..j + 1];
      WalkedTo(f0, f[next := Step(f[next], up)], r, up, i, j + 1 - i)
  {
    var next := r[i..j + 1];
    var g := f[next := Step(f[next], up)];
    forall p | p in g
      ensures NodeWalked(f0, g[p], r, up, i, j + 1 - i, p)
    {
      StepNode(f0, f[p], r, up, i, j, p);
    }
  }

  /** One step of the walk from i, seen from node p. */
  lemma StepNode(f0: map<seq<nat>, nat>, x: nat, r: seq<nat>, up: bool, i: nat, j: nat, p: seq<nat>)
    requires i <= j < |r| && !(i == 0 && j + 1 == |r|)
    requires NodeWalked(f0, x, r, up, i, j - i, p)
    ensures NodeWalked(f0, if p == r[i..j + 1] then Step(x, up) else x, r, up, i, j + 1 - i, p)
  {
    if p == r[i..j + 1] {
      assert Hit(f0.Keys, r, i, p);
      SteppedNext(f0[p], HitsBelow(f0.Keys, r, p, i), up);
    } else {
      assert !(Hit(f0.Keys, r, i, p) && |p| == j + 1 - i);
    }
  }

  /** The walk from i has reached every node it can once it stops at depth `j - i`. */
  lemma WalkDone(f0: map<seq<nat>, nat>, f: map<seq<nat>, nat>, r: seq<nat>, up: bool, i: nat, j: nat)
    requires i <= j <= |r|
    requires WalkedTo(f0, f, r, up, i, j - i)
    requires forall p :: Hit(f0.Keys, r, i, p) ==> |p| <= j - i
    ensures WalkedTo(f0, f, r, up, i + 1, 0)
  {
    forall p | p in f
      ensures NodeWalked(f0, f[p], r, up, i + 1, 0, p)
    {
      assert NodeWalked(f0, f[p], r, up, i, j - i, p);
    }
  }

  /** A walk stops for good at a missing child: no longer path from the same start is a node. */
  lemma MissingStops(keys: set<seq<nat>>, r: seq<nat>, i: nat, j: nat)
    requires PrefixClosed(keys) && i <= j < |r| && r[i..j + 1] !in keys
    ensures forall p :: Hit(keys, r, i, p) ==> |p| <= j - i
  {
    forall p | Hit(keys, r, i, p)
      ensures |p| <= j - i
    {
      if |p| > j - i {
        assert p[..j + 1 - i] == r[i..j + 1];
        PrefixIn(keys, p, j + 1 - i);
      }
    }
  }
}
