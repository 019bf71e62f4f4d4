/** `FreqTrie` of src/trie.cpp (declared in include/trie.hpp). Unlike the `freq_trie`
    revisions, its `increase` creates the nodes it walks through, stops at `max_depth`,
    and keeps per-node tallies of the term before (`sp1l`) and after (`sp1r`) every counted
    occurrence. Nodes are named by their paths, as in module TriePaths. */
module Tries {
  import Options
  import opened TriePaths
  import FreqTries

  /** The fields of one `FreqTrieNode` besides its children. */
  datatype NodeStats = NodeStats(f: nat, sp1l: map<nat, nat>, sp1r: map<nat, nat>, hl: real, hr: real, iv: real)

  /** A new node: every counter zero and no tally. */
  const Fresh: NodeStats := NodeStats(0, map[], map[], 0.0, 0.0, 0.0)

  /** A tally entry; `operator[]` on an absent key starts it at 0. */
  function Get0(m: map<nat, nat>, x: nat): nat
  {
    if x in m then m[x] else 0
  }

  /** The node's stats, or those of a new node when it does not exist yet. */
  function Base(n: map<seq<nat>, NodeStats>, p: seq<nat>): NodeStats
  {
    if p in n then n[p] else Fresh
  }

  /** Every `size_t` counter and tally entry is in range. */
  predicate Sane(n: map<seq<nat>, NodeStats>)
  {
    forall p :: p in n ==>
      n[p].f < Word && (forall x :: x in n[p].sp1l ==> n[p].sp1l[x] < Word)
      && (forall y :: y in n[p].sp1r ==> n[p].sp1r[y] < Word)
  }

  /** The arguments of one `increase` or `decrease` call with the trie's own settings. */
  datatype Pass = Pass(r: seq<nat>, maxDepth: nat, includeSelf: bool, boundary: nat)

  /** The walk from start i counts path `p`: it is the range's substring at i of length 1 to
      `max_depth`, and not the whole range when `include_self` is false. */
  predicate Counted(w: Pass, i: nat, p: seq<nat>)
  {
    1 <= |p| <= w.maxDepth && i + |p| <= |w.r| && w.r[i..i + |p|] == p
    && (w.includeSelf || !(i == 0 && |p| == |w.r|))
  }

  /** The term before (`left`) or after the occurrence of length `len` at i, or the
      boundary at either end of the range. */
  function Neighbour(w: Pass, i: nat, len: nat, left: bool): nat
  {
    if left then (if 0 < i <= |w.r| then w.r[i - 1] else w.boundary)
    else (if i + len < |w.r| then w.r[i + len] else w.boundary)
  }

  /** Number of starts below k that count `p`. */
  function Occ(w: Pass, p: seq<nat>, k: nat): nat
  {
    if k == 0 then 0 else Occ(w, p, k - 1) + (if Counted(w, k - 1, p) then 1 else 0)
  }

  /** Number of starts below k that count `p` with neighbour `x` on the given side. */
  function OccSide(w: Pass, p: seq<nat>, x: nat, k: nat, left: bool): nat
  {
    if k == 0 then 0
    else OccSide(w, p, x, k - 1, left) + (if Counted(w, k - 1, p) && Neighbour(w, k - 1, |p|, left) == x then 1 else 0)
  }

  /** Paths counted from start i with length at most l. */
  function StartSet(w: Pass, i: nat, l: nat): set<seq<nat>>
    requires i + l <= |w.r|
  {
    if l == 0 then {}
    else StartSet(w, i, l - 1) + (if Counted(w, i, w.r[i..i + l]) then {w.r[i..i + l]} else {})
  }

  lemma {:induction false} StartSetMember(w: Pass, i: nat, l: nat)
    requires i + l <= |w.r|
    ensures forall p {:trigger p in StartSet(w, i, l)} :: p in StartSet(w, i, l) <==> Counted(w, i, p) && |p| <= l
  {
    if l > 0 {
      StartSetMember(w, i, l - 1);
    }
  }

  /** Paths counted from some start below k. */
  function Subs(w: Pass, k: nat): (s: set<seq<nat>>)
    requires k <= |w.r|
  {
    if k == 0 then {} else Subs(w, k - 1) + StartSet(w, k - 1, |w.r| - (k - 1))
  }

  lemma {:induction false} SubsMember(w: Pass, k: nat)
    requires k <= |w.r|
    ensures forall p {:trigger p in Subs(w, k)} :: p in Subs(w, k) <==> Occ(w, p, k) > 0
  {
    if k > 0 {
      SubsMember(w, k - 1);
      StartSetMember(w, k - 1, |w.r| - (k - 1));
    }
  }

  /** Neighbours seen on one side of the occurrences of `p` from starts below k. */
  function SideSet(w: Pass, p: seq<nat>, k: nat, left: bool): set<nat>
  {
    if k == 0 then {}
    else SideSet(w, p, k - 1, left) + (if Counted(w, k - 1, p) then {Neighbour(w, k - 1, |p|, left)} else {})
  }

  lemma {:induction false} SideSetMember(w: Pass, p: seq<nat>, k: nat, left: bool)
    ensures forall x :: x in SideSet(w, p, k, left) <==> OccSide(w, p, x, k, left) > 0
  {
    if k > 0 {
      SideSetMember(w, p, k - 1, left);
    }
  }

  /** Only occurrences of `p` carry neighbours. */
  lemma {:induction false} SideAtMost(w: Pass, p: seq<nat>, x: nat, k: nat, left: bool)
    ensures OccSide(w, p, x, k, left) <= Occ(w, p, k)
  {
    if k > 0 {
      SideAtMost(w, p, x, k - 1, left);
    }
  }

  /** A path counted from some start below k has a positive count. */
  lemma {:induction false} OccPositive(w: Pass, p: seq<nat>, i: nat, k: nat)
    requires Counted(w, i, p) && i < k
    ensures Occ(w, p, k) > 0
  {
    if i < k - 1 {
      OccPositive(w, p, i, k - 1);
    }
  }

  /** A tally after counting: every entry moved by the occurrences with that neighbour. */
  function Tally(m: map<nat, nat>, w: Pass, p: seq<nat>, left: bool): map<nat, nat>
  {
    map x | x in m.Keys + SideSet(w, p, |w.r|, left) :: Stepped(Get0(m, x), OccSide(w, p, x, |w.r|, left), true)
  }

  /** A node after one `increase`: `f` and both tallies move, the rest stays. */
  function AfterNode(s: NodeStats, w: Pass, p: seq<nat>): NodeStats
  {
    s.(f := Stepped(s.f, Occ(w, p, |w.r|), true), sp1l := Tally(s.sp1l, w, p, true), sp1r := Tally(s.sp1r, w, p, false))
  }

  /** The trie after `increase(r, include_self)`: every counted path exists, starting from a
      new node if it was missing, and is updated by its occurrences. */
  function Increased(o: map<seq<nat>, NodeStats>, w: Pass): (n: map<seq<nat>, NodeStats>)
    ensures n.Keys == o.Keys + Subs(w, |w.r|)
  {
    map p | p in o.Keys + Subs(w, |w.r|) :: AfterNode(Base(o, p), w, p)
  }

  /** The trie after `decrease(r, include_self)`: only `f` moves, and no node is added. */
  function Decreased(o: map<seq<nat>, NodeStats>, w: Pass): (n: map<seq<nat>, NodeStats>)
    ensures n.Keys == o.Keys
  {
    map p | p in o :: o[p].(f := Stepped(o[p].f, Occ(w, p, |w.r|), false))
  }

  /** The trie after the vector overload of `increase`: the sequences in order. */
  function IncreasedAll(o: map<seq<nat>, NodeStats>, rs: seq<seq<nat>>, maxDepth: nat, includeSelf: bool, boundary: nat): map<seq<nat>, NodeStats>
  {
    if |rs| == 0 then o
    else Increased(IncreasedAll(o, rs[..|rs| - 1], maxDepth, includeSelf, boundary), Pass(rs[|rs| - 1], maxDepth, includeSelf, boundary))
  }

  /** The trie after the vector overload of `decrease`. */
  function DecreasedAll(o: map<seq<nat>, NodeStats>, rs: seq<seq<nat>>, maxDepth: nat, includeSelf: bool, boundary: nat): map<seq<nat>, NodeStats>
  {
    if |rs| == 0 then o
    else Decreased(DecreasedAll(o, rs[..|rs| - 1], maxDepth, includeSelf, boundary), Pass(rs[|rs| - 1], maxDepth, includeSelf, boundary))
  }

  // ---------------------------------------------------------------------------------------
  // Properties of one pass

  /** Every node `increase` adds is a counted path: non-empty and at most `max_depth` long. */
  lemma IncreaseDepthBound(o: map<seq<nat>, NodeStats>, w: Pass, p: seq<nat>)
    requires p in Increased(o, w) && p !in o
    ensures 1 <= |p| <= w.maxDepth && Occ(w, p, |w.r|) > 0
  {
    SubsMember(w, |w.r|);
    if !(1 <= |p| <= w.maxDepth) {
      NotCounted(w, p, |w.r|);
    }
  }

  lemma {:induction false} NotCounted(w: Pass, p: seq<nat>, k: nat)
    requires !(1 <= |p| <= w.maxDepth)
    ensures Occ(w, p, k) == 0
  {
    if k > 0 {
      NotCounted(w, p, k - 1);
    }
  }

  /** `increase` creates the node of every substring of length 1 to `max_depth`, except the
      whole range when `include_self` is false. */
  lemma IncreaseCreates(o: map<seq<nat>, NodeStats>, w: Pass, i: nat, l: nat)
    requires 1 <= l <= w.maxDepth && i + l <= |w.r|
    requires w.includeSelf || !(i == 0 && l == |w.r|)
    ensures w.r[i..i + l] in Increased(o, w)
  {
    assert Counted(w, i, w.r[i..i + l]);
    OccPositive(w, w.r[i..i + l], i, |w.r|);
    SubsMember(w, |w.r|);
  }

  /** `decrease` after `increase` with the same arguments is allowed (every node it steps
      exists) and restores every `f`: old nodes get their old value back and the nodes the
      increase created return to 0. The tallies are not restored. */
  lemma IncreaseThenDecrease(o: map<seq<nat>, NodeStats>, w: Pass)
    requires Sane(o)
    ensures forall p :: Occ(w, p, |w.r|) > 0 ==> p in Increased(o, w)
    ensures var m := Decreased(Increased(o, w), w);
      m.Keys == o.Keys + Subs(w, |w.r|)
      && (forall p :: p in o ==> m[p].f == o[p].f)
      && (forall p :: p in m && p !in o ==> m[p].f == 0)
  {
    SubsMember(w, |w.r|);
    var n := Increased(o, w);
    var m := Decreased(n, w);
    forall p | p in m
      ensures m[p].f == Base(o, p).f
    {
      WrapCancel(Base(o, p).f, Occ(w, p, |w.r|), true);
    }
  }

  // ---------------------------------------------------------------------------------------
  // The walk of `increase`, step by step

  /** Occurrences of `p` seen once the walk from start i has reached depth d. */
  function Hits(w: Pass, p: seq<nat>, i: nat, d: nat): nat
  {
    Occ(w, p, i) + (if Counted(w, i, p) && |p| <= d then 1 else 0)
  }

  /** The same, restricted to one neighbour on one side. */
  function HitsSide(w: Pass, p: seq<nat>, x: nat, i: nat, d: nat, left: bool): nat
  {
    OccSide(w, p, x, i, left) + (if Counted(w, i, p) && |p| <= d && Neighbour(w, i, |p|, left) == x then 1 else 0)
  }

  /** Paths seen once the walk from start i has reached depth d. */
  function Seen(w: Pass, i: nat, d: nat): set<seq<nat>>
    requires i + d <= |w.r|
  {
    Subs(w, i) + StartSet(w, i, d)
  }

  /** Neighbours seen on one side of `p` once the walk from start i has reached depth d. */
  function SideSeen(w: Pass, p: seq<nat>, i: nat, d: nat, left: bool): set<nat>
  {
    SideSet(w, p, i, left) + (if Counted(w, i, p) && |p| <= d then {Neighbour(w, i, |p|, left)} else {})
  }

  /** Tally entry x has moved by the occurrences seen with neighbour x. */
  ghost predicate EntryAt(m0: map<nat, nat>, m: map<nat, nat>, w: Pass, p: seq<nat>, i: nat, d: nat, left: bool, x: nat)
  {
    x in m ==> m[x] == Stepped(Get0(m0, x), HitsSide(w, p, x, i, d, left), true)
  }

  ghost predicate TallyAt(m0: map<nat, nat>, m: map<nat, nat>, w: Pass, p: seq<nat>, i: nat, d: nat, left: bool)
  {
    m.Keys == m0.Keys + SideSeen(w, p, i, d, left)
    && forall x :: EntryAt(m0, m, w, p, i, d, left, x)
  }

  ghost predicate NodeAt(s: NodeStats, t: NodeStats, w: Pass, p: seq<nat>, i: nat, d: nat)
  {
    t.f == Stepped(s.f, Hits(w, p, i, d), true) && t.hl == s.hl && t.hr == s.hr && t.iv == s.iv
    && TallyAt(s.sp1l, t.sp1l, w, p, i, d, true) && TallyAt(s.sp1r, t.sp1r, w, p, i, d, false)
  }

  /** The trie `n` after every walk from the starts below i, and the walk from i down to
      depth d, starting from `o`. */
  ghost predicate StateAt(o: map<seq<nat>, NodeStats>, n: map<seq<nat>, NodeStats>, w: Pass, i: nat, d: nat)
  {
    i + d <= |w.r| && PrefixClosed(n.Keys) && n.Keys == o.Keys + Seen(w, i, d)
    && forall p :: NodeOk(o, n, w, p, i, d)
  }

  /** Node `p`, if present, has moved by the occurrences seen so far. */
  ghost predicate NodeOk(o: map<seq<nat>, NodeStats>, n: map<seq<nat>, NodeStats>, w: Pass, p: seq<nat>, i: nat, d: nat)
  {
    p in n ==> NodeAt(Base(o, p), n[p], w, p, i, d)
  }

  /** One counted visit: `f++`, `sp1l[x]++`, `sp1r[y]++`. */
  function Bump(s: NodeStats, x: nat, y: nat): NodeStats
  {
    s.(f := Step(s.f, true), sp1l := s.sp1l[x := Step(Get0(s.sp1l, x), true)], sp1r := s.sp1r[y := Step(Get0(s.sp1r, y), true)])
  }

  lemma IncStart(o: map<seq<nat>, NodeStats>, w: Pass)
    requires Sane(o) && PrefixClosed(o.Keys)
    ensures StateAt(o, o, w, 0, 0)
  {
    assert Seen(w, 0, 0) == {};
    forall p
      ensures NodeOk(o, o, w, p, 0, 0)
    {
      if p in o {
        var t := o[p];
        assert SideSeen(w, p, 0, 0, true) == {} && SideSeen(w, p, 0, 0, false) == {};
        forall x
          ensures EntryAt(t.sp1l, t.sp1l, w, p, 0, 0, true, x) && EntryAt(t.sp1r, t.sp1r, w, p, 0, 0, false, x)
        {
        }
      }
    }
  }

  /** Paths other than the one just reached keep their counts. */
  lemma OtherHits(w: Pass, p: seq<nat>, q: seq<nat>, i: nat, d: nat)
    requires Counted(w, i, q) && |q| == d + 1 && p != q
    ensures Hits(w, p, i, d + 1) == Hits(w, p, i, d)
    ensures forall x, left :: HitsSide(w, p, x, i, d + 1, left) == HitsSide(w, p, x, i, d, left)
    ensures forall left :: SideSeen(w, p, i, d + 1, left) == SideSeen(w, p, i, d, left)
  {
  }

  /** A tally entry read with `operator[]`. */
  lemma TallyGet(m0: map<nat, nat>, m: map<nat, nat>, w: Pass, p: seq<nat>, i: nat, d: nat, left: bool, x: nat)
    requires TallyAt(m0, m, w, p, i, d, left)
    requires x !in m ==> HitsSide(w, p, x, i, d, left) == 0
    ensures Get0(m, x) == Stepped(Get0(m0, x), HitsSide(w, p, x, i, d, left), true)
  {
    assert EntryAt(m0, m, w, p, i, d, left, x);
  }

  lemma TallyBump(m0: map<nat, nat>, m: map<nat, nat>, w: Pass, p: seq<nat>, i: nat, d: nat, left: bool, z: nat)
    requires TallyAt(m0, m, w, p, i, d, left)
    requires Counted(w, i, p) && |p| == d + 1 && z == Neighbour(w, i, |p|, left)
    ensures TallyAt(m0, m[z := Step(Get0(m, z), true)], w, p, i, d + 1, left)
  {
    if z !in m {
      SideSetMember(w, p, i, left);
    }
    TallyGet(m0, m, w, p, i, d, left, z);
    SteppedNext(Get0(m0, z), HitsSide(w, p, z, i, d, left), true);
    var m' := m[z := Step(Get0(m, z), true)];
    var d' := d + 1;
    forall x
      ensures EntryAt(m0, m', w, p, i, d', left, x)
    {
      if x != z {
        assert EntryAt(m0, m, w, p, i, d, left, x);
      }
    }
  }

  /** A node that does not exist yet has seen no occurrence, so a new node is its state. */
  lemma FreshAt(w: Pass, q: seq<nat>, i: nat, d: nat)
    requires Hits(w, q, i, d) == 0
    ensures NodeAt(Fresh, Fresh, w, q, i, d)
  {
    SideSetMember(w, q, i, true);
    SideSetMember(w, q, i, false);
    forall x
      ensures x !in SideSet(w, q, i, true) && x !in SideSet(w, q, i, false)
      ensures EntryAt(map[], map[], w, q, i, d, true, x) && EntryAt(map[], map[], w, q, i, d, false, x)
    {
      SideAtMost(w, q, x, i, true);
      SideAtMost(w, q, x, i, false);
    }
  }

  /** The stats a node has so far, whether or not it exists yet. */
  lemma BaseAt(o: map<seq<nat>, NodeStats>, n: map<seq<nat>, NodeStats>, w: Pass, q: seq<nat>, i: nat, d: nat)
    requires StateAt(o, n, w, i, d)
    ensures NodeAt(Base(o, q), Base(n, q), w, q, i, d)
  {
    if q !in n {
      SubsMember(w, i);
      StartSetMember(w, i, d);
      FreshAt(w, q, i, d);
    } else {
      assert NodeOk(o, n, w, q, i, d);
    }
  }

  /** The node just reached is bumped once. */
  lemma BumpNode(s: NodeStats, t: NodeStats, w: Pass, q: seq<nat>, i: nat, d: nat)
    requires Counted(w, i, q) && |q| == d + 1
    requires NodeAt(s, t, w, q, i, d)
    ensures NodeAt(s, Bump(t, Neighbour(w, i, |q|, true), Neighbour(w, i, |q|, false)), w, q, i, d + 1)
  {
    SteppedNext(s.f, Hits(w, q, i, d), true);
    TallyBump(s.sp1l, t.sp1l, w, q, i, d, true, Neighbour(w, i, |q|, true));
    TallyBump(s.sp1r, t.sp1r, w, q, i, d, false, Neighbour(w, i, |q|, false));
  }

  /** A tally whose counts do not change between two points of the walk. */
  lemma TallySame(m0: map<nat, nat>, m: map<nat, nat>, w: Pass, p: seq<nat>, i: nat, d: nat, i': nat, d': nat, left: bool)
    requires TallyAt(m0, m, w, p, i, d, left)
    requires SideSeen(w, p, i', d', left) == SideSeen(w, p, i, d, left)
    requires forall x :: HitsSide(w, p, x, i', d', left) == HitsSide(w, p, x, i, d, left)
    ensures TallyAt(m0, m, w, p, i', d', left)
  {
    forall x
      ensures EntryAt(m0, m, w, p, i', d', left, x)
    {
      assert EntryAt(m0, m, w, p, i, d, left, x);
    }
  }

  /** A node whose counts do not change between two points of the walk. */
  lemma NodeSame(s: NodeStats, t: NodeStats, w: Pass, p: seq<nat>, i: nat, d: nat, i': nat, d': nat)
    requires NodeAt(s, t, w, p, i, d)
    requires Hits(w, p, i', d') == Hits(w, p, i, d)
    requires forall left :: SideSeen(w, p, i', d', left) == SideSeen(w, p, i, d, left)
    requires forall x, left :: HitsSide(w, p, x, i', d', left) == HitsSide(w, p, x, i, d, left)
    ensures NodeAt(s, t, w, p, i', d')
  {
    TallySame(s.sp1l, t.sp1l, w, p, i, d, i', d', true);
    TallySame(s.sp1r, t.sp1r, w, p, i, d, i', d', false);
  }

  /** One step of the walk from i: the node of `r[i..j+1]` is fetched or created, and
      bumped. */
  lemma IncStep(o: map<seq<nat>, NodeStats>, n: map<seq<nat>, NodeStats>, w: Pass, i: nat, j: nat)
    requires i <= j < |w.r| && j - i < w.maxDepth && (w.includeSelf || !(i == 0 && j == |w.r| - 1))
    requires StateAt(o, n, w, i, j - i) && w.r[i..j] in n
    ensures var q := w.r[i..j + 1];
      StateAt(o, n[q := Bump(Base(n, q), Neighbour(w, i, |q|, true), Neighbour(w, i, |q|, false))], w, i, j + 1 - i)
  {
    var q := w.r[i..j + 1];
    var n' := n[q := Bump(Base(n, q), Neighbour(w, i, |q|, true), Neighbour(w, i, |q|, false))];
    StepKeys(o, n, n', w, i, j);
    StepNodes(o, n, n', w, i, j, j + 1 - i);
  }

  lemma StepKeys(o: map<seq<nat>, NodeStats>, n: map<seq<nat>, NodeStats>, n': map<seq<nat>, NodeStats>, w: Pass, i: nat, j: nat)
    requires i <= j < |w.r| && j - i < w.maxDepth && (w.includeSelf || !(i == 0 && j == |w.r| - 1))
    requires PrefixClosed(n.Keys) && n.Keys == o.Keys + Seen(w, i, j - i) && w.r[i..j] in n
    requires n'.Keys == n.Keys + {w.r[i..j + 1]}
    ensures PrefixClosed(n'.Keys) && n'.Keys == o.Keys + Seen(w, i, j + 1 - i)
  {
    SeenStep(w, i, j);
    ChildClosed(n.Keys, w.r, i, j);
  }

  lemma StepNodes(o: map<seq<nat>, NodeStats>, n: map<seq<nat>, NodeStats>, n': map<seq<nat>, NodeStats>, w: Pass, i: nat, j: nat, d': nat)
    requires i <= j < |w.r| && d' == j + 1 - i && j - i < w.maxDepth && (w.includeSelf || !(i == 0 && j == |w.r| - 1))
    requires StateAt(o, n, w, i, j - i)
    requires var q := w.r[i..j + 1];
      n' == n[q := Bump(Base(n, q), Neighbour(w, i, |q|, true), Neighbour(w, i, |q|, false))]
    ensures forall p :: NodeOk(o, n', w, p, i, d')
  {
    var d := j - i;
    var q := w.r[i..j + 1];
    assert Counted(w, i, q);
    BaseAt(o, n, w, q, i, d);
    BumpNode(Base(o, q), Base(n, q), w, q, i, d);
    assert NodeOk(o, n', w, q, i, d');
    forall p | p != q
      ensures NodeOk(o, n', w, p, i, d')
    {
      OtherNodeOk(o, n, n', w, p, q, i, d);
    }
  }

  /** One step deeper, the walk from i has seen one more path. */
  lemma SeenStep(w: Pass, i: nat, j: nat)
    requires i <= j < |w.r| && j - i < w.maxDepth && (w.includeSelf || !(i == 0 && j == |w.r| - 1))
    ensures Counted(w, i, w.r[i..j + 1])
    ensures Seen(w, i, j + 1 - i) == Seen(w, i, j - i) + {w.r[i..j + 1]}
  {
  }

  /** Adding the child `r[i..j+1]` of a node keeps the trie prefix-closed. */
  lemma ChildClosed(keys: set<seq<nat>>, r: seq<nat>, i: nat, j: nat)
    requires i <= j < |r| && PrefixClosed(keys) && r[i..j] in keys
    ensures PrefixClosed(keys + {r[i..j + 1]})
  {
    assert r[i..j + 1] == r[i..j] + [r[j]];
    FreqTries.AddChildClosed(keys, r[i..j], r[j]);
  }

  /** A node other than the one just reached keeps its state one step deeper. */
  lemma OtherNodeOk(o: map<seq<nat>, NodeStats>, n: map<seq<nat>, NodeStats>, n': map<seq<nat>, NodeStats>,
                    w: Pass, p: seq<nat>, q: seq<nat>, i: nat, d: nat)
    requires Counted(w, i, q) && |q| == d + 1 && p != q
    requires NodeOk(o, n, w, p, i, d)
    requires p in n' ==> p in n && n'[p] == n[p]
    ensures NodeOk(o, n', w, p, i, d + 1)
  {
    if p in n' {
      OtherHits(w, p, q, i, d);
      NodeSame(Base(o, p), n[p], w, p, i, d, i, d + 1);
    }
  }

  /** The whole range from start 0 is skipped when `include_self` is false. */
  lemma SkipSelf(o: map<seq<nat>, NodeStats>, n: map<seq<nat>, NodeStats>, w: Pass, d: nat)
    requires !w.includeSelf && d + 1 == |w.r|
    requires StateAt(o, n, w, 0, d)
    ensures StateAt(o, n, w, 0, d + 1)
  {
    var d' := d + 1;
    assert Seen(w, 0, d') == Seen(w, 0, d);
    forall p
      ensures NodeOk(o, n, w, p, 0, d')
    {
      if p in n {
        assert NodeOk(o, n, w, p, 0, d);
        assert forall x, left :: HitsSide(w, p, x, 0, d', left) == HitsSide(w, p, x, 0, d, left);
        assert forall left :: SideSeen(w, p, 0, d', left) == SideSeen(w, p, 0, d, left);
        NodeSame(Base(o, p), n[p], w, p, 0, d, 0, d');
      }
    }
  }

  /** The walk from i stops at the end of the range or at depth `max_depth`, having reached
      every path it counts. */
  lemma HitsNext(w: Pass, p: seq<nat>, i: nat, d: nat)
    requires i < |w.r| && (i + d == |w.r| || d == w.maxDepth)
    ensures Hits(w, p, i, d) == Hits(w, p, i + 1, 0)
    ensures forall x, left :: HitsSide(w, p, x, i, d, left) == HitsSide(w, p, x, i + 1, 0, left)
    ensures forall left :: SideSeen(w, p, i, d, left) == SideSeen(w, p, i + 1, 0, left)
  {
  }

  lemma IncNext(o: map<seq<nat>, NodeStats>, n: map<seq<nat>, NodeStats>, w: Pass, i: nat, d: nat)
    requires i < |w.r| && (i + d == |w.r| || d == w.maxDepth)
    requires StateAt(o, n, w, i, d)
    ensures StateAt(o, n, w, i + 1, 0)
  {
    var i' := i + 1;
    SeenNext(w, i, d);
    forall p
      ensures NodeOk(o, n, w, p, i', 0)
    {
      NodeOkNext(o, n, w, p, i, d);
    }
  }

  /** Once the walk from i stops, it has seen what the walks from the starts up to i count. */
  lemma SeenNext(w: Pass, i: nat, d: nat)
    requires i < |w.r| && (i + d == |w.r| || d == w.maxDepth) && i + d <= |w.r|
    ensures Seen(w, i, d) == Seen(w, i + 1, 0)
  {
    StartSetMember(w, i, d);
    StartSetMember(w, i, |w.r| - i);
    assert StartSet(w, i, d) == StartSet(w, i, |w.r| - i);
  }

  lemma NodeOkNext(o: map<seq<nat>, NodeStats>, n: map<seq<nat>, NodeStats>, w: Pass, p: seq<nat>, i: nat, d: nat)
    requires i < |w.r| && (i + d == |w.r| || d == w.maxDepth)
    requires NodeOk(o, n, w, p, i, d)
    ensures NodeOk(o, n, w, p, i + 1, 0)
  {
    if p in n {
      HitsNext(w, p, i, d);
      NodeSame(Base(o, p), n[p], w, p, i, d, i + 1, 0);
    }
  }

  lemma TallyFinal(m0: map<nat, nat>, m: map<nat, nat>, w: Pass, p: seq<nat>, left: bool)
    requires TallyAt(m0, m, w, p, |w.r|, 0, left)
    ensures m == Tally(m0, w, p, left)
  {
    var t := Tally(m0, w, p, left);
    assert m.Keys == t.Keys;
    forall x | x in m
      ensures m[x] == t[x]
    {
      assert EntryAt(m0, m, w, p, |w.r|, 0, left, x);
    }
  }

  lemma NodeFinal(s: NodeStats, t: NodeStats, w: Pass, p: seq<nat>)
    requires NodeAt(s, t, w, p, |w.r|, 0)
    ensures t == AfterNode(s, w, p)
  {
    TallyFinal(s.sp1l, t.sp1l, w, p, true);
    TallyFinal(s.sp1r, t.sp1r, w, p, false);
  }

  lemma IncFinal(o: map<seq<nat>, NodeStats>, n: map<seq<nat>, NodeStats>, w: Pass)
    requires StateAt(o, n, w, |w.r|, 0)
    ensures n == Increased(o, w)
  {
    var g := Increased(o, w);
    assert n.Keys == g.Keys;
    forall p | p in n
      ensures n[p] == g[p]
    {
      assert NodeOk(o, n, w, p, |w.r|, 0);
      NodeFinal(Base(o, p), n[p], w, p);
    }
  }

  /** `increase(r, include_self)` as the nested loops of src/trie.cpp. */
  method IncreaseWalk(o: map<seq<nat>, NodeStats>, w: Pass) returns (n: map<seq<nat>, NodeStats>)
    requires Sane(o) && PrefixClosed(o.Keys)
    ensures n == Increased(o, w)
  {
    n := o;
    IncStart(o, w);
    var i := 0;
    while i < |w.r|
      invariant 0 <= i <= |w.r| && StateAt(o, n, w, i, 0)
    {
      n := IncreaseFrom(o, n, w, i);
      i := i + 1;
    }
    IncFinal(o, n, w);
  }

  /** The neighbours of the occurrence `r[i..j+1]`, as the inner loop of `increase` reads them. */
  lemma NeighboursAt(w: Pass, i: nat, j: nat)
    requires i <= j < |w.r|
    ensures Neighbour(w, i, j + 1 - i, true) == if i > 0 then w.r[i - 1] else w.boundary
    ensures Neighbour(w, i, j + 1 - i, false) == if j < |w.r| - 1 then w.r[j + 1] else w.boundary
  {
  }

  /** `IncStep` with the neighbours as the inner loop of `increase` reads them. */
  lemma IncStepAt(o: map<seq<nat>, NodeStats>, n: map<seq<nat>, NodeStats>, w: Pass, i: nat, j: nat, d: nat,
                  q: seq<nat>, x: nat, y: nat)
    requires i <= j < |w.r| && d == j - i < w.maxDepth && (w.includeSelf || !(i == 0 && j == |w.r| - 1))
    requires StateAt(o, n, w, i, d) && w.r[i..j] in n
    requires q == w.r[i..j + 1]
    requires x == (if i > 0 then w.r[i - 1] else w.boundary) && y == (if j < |w.r| - 1 then w.r[j + 1] else w.boundary)
    ensures StateAt(o, n[q := Bump(Base(n, q), x, y)], w, i, d + 1)
  {
    NeighboursAt(w, i, j);
    IncStep(o, n, w, i, j);
  }

  /** One step down the path of the occurrence at `i`: the node of `w.r[i..j + 1]` is
      fetched or created by `get(key, true)` and its counts are bumped, unless it is the
      whole string and the pass leaves the string itself out. */
  method Descend(o: map<seq<nat>, NodeStats>, n0: map<seq<nat>, NodeStats>, w: Pass, i: nat, j: nat, ghost d: nat,
                 node0: seq<nat>)
    returns (n: map<seq<nat>, NodeStats>, node: seq<nat>)
    requires i <= j < |w.r| && j - i < w.maxDepth && d == j - i && StateAt(o, n0, w, i, d)
    requires node0 == w.r[i..j] && node0 in n0
    ensures StateAt(o, n, w, i, d + 1)
    ensures j + 1 < |w.r| ==> node == w.r[i..j + 1] && node in n
  {
    if !w.includeSelf && i == 0 && j == |w.r| - 1 {
      SkipSelf(o, n0, w, d);
      return n0, node0;
    }
    var q := node0 + [w.r[j]];
    assert q == w.r[i..j + 1];
    var x := if i > 0 then w.r[i - 1] else w.boundary;
    var y := if j < |w.r| - 1 then w.r[j + 1] else w.boundary;
    IncStepAt(o, n0, w, i, j, d, q, x, y);
    // `get(key, true)`: the existing child, or a new one.
    var child := Base(n0, q);
    n := n0[q := Bump(child, x, y)];
    node := q;
  }

  /** The inner loop of `increase`: the walk from start i. */
  method IncreaseFrom(o: map<seq<nat>, NodeStats>, n0: map<seq<nat>, NodeStats>, w: Pass, i: nat)
    returns (n: map<seq<nat>, NodeStats>)
    requires i < |w.r| && StateAt(o, n0, w, i, 0)
    ensures StateAt(o, n, w, i + 1, 0)
  {
    n := n0;
    var node: seq<nat> := [];
    var j := i;
    ghost var d := 0;
    while j < |w.r| && j - i < w.maxDepth
      invariant i <= j <= |w.r| && j - i <= w.maxDepth && d == j - i && StateAt(o, n, w, i, d)
      invariant j < |w.r| ==> node == w.r[i..j] && node in n
    {
      n, node := Descend(o, n, w, i, j, d, node);
      j, d := j + 1, d + 1;
    }
    IncNext(o, n, w, i, d);
  }

  // ---------------------------------------------------------------------------------------
  // The walk of `decrease`

  ghost predicate DecAt(o: map<seq<nat>, NodeStats>, n: map<seq<nat>, NodeStats>, w: Pass, i: nat, d: nat)
  {
    n.Keys == o.Keys && forall p :: DecOk(o, n, w, p, i, d)
  }

  /** Node `p`, if present, has had `f` stepped down once per occurrence seen so far. */
  ghost predicate DecOk(o: map<seq<nat>, NodeStats>, n: map<seq<nat>, NodeStats>, w: Pass, p: seq<nat>, i: nat, d: nat)
  {
    p in n && p in o ==> n[p] == o[p].(f := Stepped(o[p].f, Hits(w, p, i, d), false))
  }

  lemma DecStep(o: map<seq<nat>, NodeStats>, n: map<seq<nat>, NodeStats>, w: Pass, i: nat, j: nat)
    requires i <= j < |w.r| && j - i < w.maxDepth && (w.includeSelf || !(i == 0 && j == |w.r| - 1))
    requires DecAt(o, n, w, i, j - i) && w.r[i..j + 1] in n
    ensures var q := w.r[i..j + 1];
      DecAt(o, n[q := n[q].(f := Step(n[q].f, false))], w, i, j + 1 - i)
  {
    var d := j - i;
    var d' := d + 1;
    var q := w.r[i..j + 1];
    var n' := n[q := n[q].(f := Step(n[q].f, false))];
    assert Counted(w, i, q);
    assert n'.Keys == n.Keys;
    assert DecOk(o, n, w, q, i, d);
    SteppedNext(o[q].f, Hits(w, q, i, d), false);
    forall p
      ensures DecOk(o, n', w, p, i, d')
    {
      if p != q {
        assert DecOk(o, n, w, p, i, d);
        OtherHits(w, p, q, i, d);
      }
    }
  }

  lemma DecNext(o: map<seq<nat>, NodeStats>, n: map<seq<nat>, NodeStats>, w: Pass, i: nat, d: nat)
    requires i < |w.r| && (i + d == |w.r| || d == w.maxDepth)
    requires DecAt(o, n, w, i, d)
    ensures DecAt(o, n, w, i + 1, 0)
  {
    var i' := i + 1;
    forall p
      ensures DecOk(o, n, w, p, i', 0)
    {
      assert DecOk(o, n, w, p, i, d);
      HitsNext(w, p, i, d);
    }
  }

  /** `decrease(r, include_self)` as the nested loops of src/trie.cpp. The source steps to
      a child with `children[...]`, which inserts a null child when the key is absent, so
      every counted path must already be a node. */
  method DecreaseWalk(o: map<seq<nat>, NodeStats>, w: Pass) returns (n: map<seq<nat>, NodeStats>)
    requires Sane(o)
    requires forall p :: Occ(w, p, |w.r|) > 0 ==> p in o
    ensures n == Decreased(o, w)
  {
    n := o;
    var i := 0;
    while i < |w.r|
      invariant 0 <= i <= |w.r| && DecAt(o, n, w, i, 0)
    {
      n := DecreaseFrom(o, n, w, i);
      i := i + 1;
    }
    DecFinal(o, n, w);
  }

  lemma DecSkip(o: map<seq<nat>, NodeStats>, n: map<seq<nat>, NodeStats>, w: Pass, d: nat)
    requires !w.includeSelf && d + 1 == |w.r|
    requires DecAt(o, n, w, 0, d)
    ensures DecAt(o, n, w, 0, d + 1)
  {
    var d' := d + 1;
    forall p
      ensures DecOk(o, n, w, p, 0, d')
    {
      assert DecOk(o, n, w, p, 0, d);
      assert Hits(w, p, 0, d') == Hits(w, p, 0, d);
    }
  }

  lemma DecFinal(o: map<seq<nat>, NodeStats>, n: map<seq<nat>, NodeStats>, w: Pass)
    requires DecAt(o, n, w, |w.r|, 0)
    ensures n == Decreased(o, w)
  {
    forall p | p in n
      ensures n[p] == Decreased(o, w)[p]
    {
      assert DecOk(o, n, w, p, |w.r|, 0);
      assert Hits(w, p, |w.r|, 0) == Occ(w, p, |w.r|);
    }
  }

  /** The inner loop of `decrease`: the walk from start i. */
  method DecreaseFrom(o: map<seq<nat>, NodeStats>, n0: map<seq<nat>, NodeStats>, w: Pass, i: nat)
    returns (n: map<seq<nat>, NodeStats>)
    requires i < |w.r| && DecAt(o, n0, w, i, 0)
    requires forall p :: Occ(w, p, |w.r|) > 0 ==> p in o
    ensures DecAt(o, n, w, i + 1, 0)
  {
    n := n0;
    var j := i;
    while j < |w.r| && j - i < w.maxDepth
      invariant i <= j <= |w.r| && j - i <= w.maxDepth && DecAt(o, n, w, i, j - i)
    {
      if !w.includeSelf && i == 0 && j == |w.r| - 1 {
        DecSkip(o, n, w, j);
        j := j + 1;
        continue;
      }
      var q := w.r[i..j + 1];
      assert Counted(w, i, q);
      OccPositive(w, q, i, |w.r|);
      DecStep(o, n, w, i, j);
      n := n[q := n[q].(f := Step(n[q].f, false))];
      j := j + 1;
    }
    DecNext(o, n, w, i, j - i);
  }

  // ---------------------------------------------------------------------------------------
  // `depth()`

  /** Paths strictly below `p`. */
  ghost function Below(keys: set<seq<nat>>, p: seq<nat>): set<seq<nat>>
  {
    set q | q in keys && |p| < |q| && q[..|p|] == p
  }

  /** Some node below `p` (or `p` itself) lies h levels down. */
  ghost predicate Reaches(keys: set<seq<nat>>, p: seq<nat>, h: nat)
  {
    exists q :: q in keys && |q| == |p| + h && q[..|p|] == p
  }

  /** No node below `p` lies more than h levels down. */
  ghost predicate Covers(keys: set<seq<nat>>, p: seq<nat>, h: nat)
  {
    forall q :: q in keys && |p| <= |q| && q[..|p|] == p ==> |q| <= |p| + h
  }

  /** The children of node `p`. */
  function Children(keys: set<seq<nat>>, p: seq<nat>): (kids: set<seq<nat>>)
    ensures forall c :: c in kids <==> c in keys && |c| == |p| + 1 && c[..|p|] == p
  {
    set c | c in keys && |c| == |p| + 1 && c[..|p|] == p
  }

  /** `FreqTrieNode::depth()`: 0 for a leaf, otherwise one more than the deepest child; that
      is, the length of the longest path below the node. */
  method NodeDepth(keys: set<seq<nat>>, p: seq<nat>) returns (h: nat)
    requires PrefixClosed(keys) && p in keys
    ensures Reaches(keys, p, h) && Covers(keys, p, h)
    decreases Below(keys, p)
  {
    var kids := Children(keys, p);
    if kids == {} {
      assert p[..|p|] == p;
      forall q | q in keys && |p| < |q| && q[..|p|] == p
        ensures false
      {
        ChildOf(keys, p, q);
      }
      return 0;
    }
    var best := 0;
    var rest := kids;
    while rest != {}
      invariant rest <= kids
      invariant rest != kids ==> Reaches(keys, p, best + 1)
      invariant rest == kids ==> best == 0
      invariant forall c :: c in kids && c !in rest ==> Covers(keys, c, best)
      decreases rest
    {
      var c :| c in rest;
      BelowShrinks(keys, p, c);
      var d := NodeDepth(keys, c);
      ChildReach(keys, p, c, d);
      if d > best {
        forall c' | c' in kids && c' !in rest
          ensures Covers(keys, c', d)
        {
          CoversMore(keys, c', best, d);
        }
        best := d;
      } else {
        CoversMore(keys, c, d, best);
      }
      rest := rest - {c};
    }
    h := best + 1;
    CoversFromKids(keys, p, best);
  }

  /** A node below `p` descends from one of its children. */
  lemma ChildOf(keys: set<seq<nat>>, p: seq<nat>, q: seq<nat>)
    requires PrefixClosed(keys) && q in keys && |p| < |q| && q[..|p|] == p
    ensures q[..|p| + 1] in Children(keys, p) && q[..|q[..|p| + 1]|] == q[..|p| + 1]
  {
    PrefixIn(keys, q, |p| + 1);
    assert q[..|p| + 1][..|p|] == p;
  }

  lemma CoversMore(keys: set<seq<nat>>, p: seq<nat>, h: nat, h': nat)
    requires Covers(keys, p, h) && h <= h'
    ensures Covers(keys, p, h')
  {
  }

  /** A node lies one level above the deepest of its children. */
  lemma CoversFromKids(keys: set<seq<nat>>, p: seq<nat>, h: nat)
    requires PrefixClosed(keys)
    requires forall c :: c in Children(keys, p) ==> Covers(keys, c, h)
    ensures Covers(keys, p, h + 1)
  {
    forall q | q in keys && |p| <= |q| && q[..|p|] == p
      ensures |q| <= |p| + h + 1
    {
      if |p| < |q| {
        ChildOf(keys, p, q);
        var c := q[..|p| + 1];
        assert Covers(keys, c, h);
      }
    }
  }

  lemma BelowShrinks(keys: set<seq<nat>>, p: seq<nat>, c: seq<nat>)
    requires c in keys && |c| == |p| + 1 && c[..|p|] == p
    ensures Below(keys, c) < Below(keys, p)
  {
    forall q | q in Below(keys, c)
      ensures q in Below(keys, p)
    {
      assert q[..|p|] == q[..|c|][..|p|];
    }
    assert c in Below(keys, p) && c !in Below(keys, c);
  }

  lemma ChildReach(keys: set<seq<nat>>, p: seq<nat>, c: seq<nat>, d: nat)
    requires |c| == |p| + 1 && c[..|p|] == p && Reaches(keys, c, d)
    ensures Reaches(keys, p, d + 1)
  {
    var q :| q in keys && |q| == |c| + d && q[..|c|] == c;
    assert q[..|p|] == q[..|c|][..|p|];
  }

  // ---------------------------------------------------------------------------------------
  // The scores a node holds

  /** The `hl` of the node for `r`, or -1 when there is none. */
  function HlAt(n: map<seq<nat>, NodeStats>, r: seq<nat>): real
  {
    if r in n then n[r].hl else -1.0
  }

  /** The `hr` of the node for `r`, or -1 when there is none. */
  function HrAt(n: map<seq<nat>, NodeStats>, r: seq<nat>): real
  {
    if r in n then n[r].hr else -1.0
  }

  /** The `iv` of the node for `r`, or -1 when there is none. */
  function IvAt(n: map<seq<nat>, NodeStats>, r: seq<nat>): real
  {
    if r in n then n[r].iv else -1.0
  }

  /** The trie after `clear()`: only the root is left, with its `f`, `hl`, `hr` and `iv`
      zeroed and its tallies kept. */
  function Cleared(n: map<seq<nat>, NodeStats>): (c: map<seq<nat>, NodeStats>)
    requires [] in n
    ensures c.Keys == {[]} && c[[]].f == 0 && c[[]].sp1l == n[[]].sp1l && c[[]].sp1r == n[[]].sp1r
  {
    map[[] := n[[]].(f := 0, hl := 0.0, hr := 0.0, iv := 0.0)]
  }

  /** `update_hsp1()`'s formula for one node, given the whole trie: the entropy of its left
      and right tallies, each divided by the average at the node's depth. */
  type Entropy = (map<seq<nat>, NodeStats>, seq<nat>) -> (real, real)

  /** `update_iv()`'s formula for one node, given the trie at the last `update_fm()`, the node
      and its `f`: `pow(f / freq_avg[depth - 1], depth)`. */
  type Intensity = (map<seq<nat>, NodeStats>, seq<nat>, nat) -> real

  /** The two tries have the same nodes with the same `f` and tallies: only scores differ. */
  predicate SameCounts(n: map<seq<nat>, NodeStats>, n': map<seq<nat>, NodeStats>)
  {
    && n'.Keys == n.Keys
    && forall p :: p in n ==> n'[p].f == n[p].f && n'[p].sp1l == n[p].sp1l && n'[p].sp1r == n[p].sp1r
  }

  /** The trie after `update_hsp1()`. */
  function WithHsp1(n: map<seq<nat>, NodeStats>, hsp1: Entropy): (n': map<seq<nat>, NodeStats>)
    ensures SameCounts(n, n') && (Sane(n) ==> Sane(n'))
    ensures [] in n ==> n'[[]] == n[[]]
  {
    map p | p in n :: if p == [] then n[p] else n[p].(hl := hsp1(n, p).0, hr := hsp1(n, p).1)
  }

  /** The trie after `update_iv()` with the averages of `fm`. */
  function WithIv(n: map<seq<nat>, NodeStats>, fm: map<seq<nat>, NodeStats>, iv: Intensity): (n': map<seq<nat>, NodeStats>)
    ensures SameCounts(n, n') && (Sane(n) ==> Sane(n'))
    ensures [] in n ==> n'[[]] == n[[]]
  {
    map p | p in n :: if p == [] then n[p] else n[p].(iv := iv(fm, p, n[p].f))
  }

  // ---------------------------------------------------------------------------------------
  // The trie

  /** `FreqTrie`: the node map, `max_depth`, `smooth` and `boundary`. */
  class FreqTrie {
    const maxDepth: nat
    const smooth: real
    const boundary: nat
    var nodes: map<seq<nat>, NodeStats>
    /** The node stats when `update_fm()` last ran, from which it takes the average `f` per
        depth (`freq_avg_`); none after `clear()` or before the first `update_fm()`. */
    var fm: Options.Option<map<seq<nat>, NodeStats>>

    ghost predicate Valid()
      reads this
    {
      PrefixClosed(nodes.Keys) && Sane(nodes)
    }

    /** A trie with a new root and the given settings. */
    constructor (maxDepth: nat, smooth: real, boundary: nat)
      ensures Valid()
      ensures this.maxDepth == maxDepth && this.smooth == smooth && this.boundary == boundary
      ensures nodes == map[[] := Fresh] && fm == Options.None
    {
      this.maxDepth := maxDepth;
      this.smooth := smooth;
      this.boundary := boundary;
      nodes := map[[] := Fresh];
      fm := Options.None;
    }

    /** The settings of a pass over `r`. */
    function PassOf(r: seq<nat>, includeSelf: bool): (w: Pass)
      reads this
      ensures w.r == r && w.maxDepth == maxDepth && w.includeSelf == includeSelf && w.boundary == boundary
    {
      Pass(r, maxDepth, includeSelf, boundary)
    }

    method Increase(r: seq<nat>, includeSelf: bool)
      requires Valid()
      modifies `nodes
      ensures Valid()
      ensures nodes == Increased(old(nodes), PassOf(r, includeSelf))
    {
      nodes := IncreaseWalk(nodes, PassOf(r, includeSelf));
      assert PrefixClosed(nodes.Keys) by {
        IncreasedClosed(old(nodes), PassOf(r, includeSelf));
      }
    }

    /** The vector overload: each sequence in order. */
    method IncreaseAll(rs: seq<seq<nat>>, includeSelf: bool)
      requires Valid()
      modifies `nodes
      ensures Valid()
      ensures nodes == IncreasedAll(old(nodes), rs, maxDepth, includeSelf, boundary)
    {
      var k := 0;
      while k < |rs|
        invariant 0 <= k <= |rs| && Valid()
        invariant nodes == IncreasedAll(old(nodes), rs[..k], maxDepth, includeSelf, boundary)
      {
        assert rs[..k + 1][..k] == rs[..k];
        Increase(rs[k], includeSelf);
        k := k + 1;
      }
      assert rs[..k] == rs;
    }

    method Decrease(r: seq<nat>, includeSelf: bool)
      requires Valid()
      requires forall p :: Occ(PassOf(r, includeSelf), p, |r|) > 0 ==> p in nodes
      modifies `nodes
      ensures Valid()
      ensures nodes == Decreased(old(nodes), PassOf(r, includeSelf))
    {
      nodes := DecreaseWalk(nodes, PassOf(r, includeSelf));
    }

    /** The vector overload: each sequence in order; `decrease` adds no node, so every
        counted path of every sequence must exist from the start. */
    method DecreaseAll(rs: seq<seq<nat>>, includeSelf: bool)
      requires Valid()
      requires forall k, p :: 0 <= k < |rs| && Occ(PassOf(rs[k], includeSelf), p, |rs[k]|) > 0 ==> p in nodes
      modifies `nodes
      ensures Valid()
      ensures nodes == DecreasedAll(old(nodes), rs, maxDepth, includeSelf, boundary)
    {
      var k := 0;
      while k < |rs|
        invariant 0 <= k <= |rs| && Valid() && nodes.Keys == old(nodes).Keys
        invariant nodes == DecreasedAll(old(nodes), rs[..k], maxDepth, includeSelf, boundary)
      {
        assert rs[..k + 1][..k] == rs[..k];
        Decrease(rs[k], includeSelf);
        k := k + 1;
      }
      assert rs[..k] == rs;
    }

    /** `find(r)`: the node of `r`, or null at the first missing child. */
    method Find(r: seq<nat>) returns (node: Options.Option<seq<nat>>)
      requires Valid()
      ensures node == if r in nodes then Options.Some(r) else Options.None
    {
      node := FreqTries.Lookup(nodes.Keys, r);
    }

    /** `node->get(key, create)`: the child, or null unless `create`, in which case a new
        node is added. */
    method Get(p: seq<nat>, key: nat, create: bool) returns (child: Options.Option<seq<nat>>)
      requires Valid() && p in nodes
      modifies `nodes
      ensures Valid()
      ensures p + [key] in old(nodes) ==> child == Options.Some(p + [key]) && nodes == old(nodes)
      ensures p + [key] !in old(nodes) && !create ==> child == Options.None && nodes == old(nodes)
      ensures p + [key] !in old(nodes) && create ==> child == Options.Some(p + [key]) && nodes == old(nodes)[p + [key] := Fresh]
    {
      var q := p + [key];
      if q in nodes {
        return Options.Some(q);
      } else if !create {
        return Options.None;
      }
      FreqTries.AddChildClosed(nodes.Keys, p, key);
      nodes := nodes[q := Fresh];
      assert nodes.Keys == old(nodes).Keys + {q};
      return Options.Some(q);
    }

    /** `get_hl(r)`: the node's `hl`, or -1 when there is no node for `r`. */
    function HlOf(r: seq<nat>): (v: real)
      reads this
      ensures r in nodes ==> v == nodes[r].hl
      ensures r !in nodes ==> v == -1.0
    {
      HlAt(nodes, r)
    }

    /** `get_hr(r)`: the node's `hr`, or -1. */
    function HrOf(r: seq<nat>): (v: real)
      reads this
      ensures r in nodes ==> v == nodes[r].hr
      ensures r !in nodes ==> v == -1.0
    {
      HrAt(nodes, r)
    }

    /** `get_iv(r)`: the node's `iv`, or -1. */
    function IvOf(r: seq<nat>): (v: real)
      reads this
      ensures r in nodes ==> v == nodes[r].iv
      ensures r !in nodes ==> v == -1.0
    {
      IvAt(nodes, r)
    }

    /** `depth()`: the depth of the root, the length of the longest path. */
    method Depth() returns (h: nat)
      requires Valid()
      ensures Reaches(nodes.Keys, [], h) && Covers(nodes.Keys, [], h)
    {
      h := NodeDepth(nodes.Keys, []);
    }

    /** `clear()`: the root's children are gone and its `f`, `hl`, `hr` and `iv` are 0; its
        tallies are kept. */
    method Clear()
      requires Valid()
      modifies this
      ensures Valid()
      ensures nodes == Cleared(old(nodes)) && fm == Options.None
    {
      nodes := map[[] := nodes[[]].(f := 0, hl := 0.0, hr := 0.0, iv := 0.0)];
      fm := Options.None;
    }

    /** `update_hsp1()`: every node the iterator visits, that is every node but the root,
        gets new `hl` and `hr` from `hsp1`; nothing else changes. */
    method UpdateHsp1(hsp1: Entropy)
      requires Valid()
      modifies `nodes
      ensures Valid() && nodes == WithHsp1(old(nodes), hsp1)
    {
      nodes := WithHsp1(nodes, hsp1);
      assert PrefixClosed(nodes.Keys) by {
        assert nodes.Keys == old(nodes).Keys;
      }
    }

    /** `update_fm()`: the averages of `f` per depth are taken from the trie as it is now. */
    method UpdateFm()
      modifies `fm
      ensures fm == Options.Some(nodes)
    {
      fm := Options.Some(nodes);
    }

    /** `update_iv()`: throws when `update_fm()` has not run since the last `clear()`;
        otherwise every node but the root gets a new `iv` from `iv`, its current `f` and the
        averages, and nothing else changes. */
    method UpdateIv(iv: Intensity) returns (ok: bool)
      requires Valid()
      modifies `nodes
      ensures Valid() && ok == fm.Some?
      ensures ok ==> nodes == WithIv(old(nodes), fm.value, iv)
      ensures !ok ==> nodes == old(nodes)
    {
      if fm.None? {
        return false;
      }
      nodes := WithIv(nodes, fm.value, iv);
      assert PrefixClosed(nodes.Keys) by {
        assert nodes.Keys == old(nodes).Keys;
      }
      return true;
    }
  }

  /** `increase` keeps the node set prefix-closed. */
  lemma IncreasedClosed(o: map<seq<nat>, NodeStats>, w: Pass)
    requires PrefixClosed(o.Keys)
    ensures PrefixClosed(Increased(o, w).Keys)
  {
    var subs := Subs(w, |w.r|);
    SubsMember(w, |w.r|);
    var keys := o.Keys + subs;
    forall p
      ensures ParentIn(keys, p)
    {
      if p in keys && p != [] {
        if p in o {
          assert ParentIn(o.Keys, p);
        } else {
          ParentCounted(w, p);
        }
      }
    }
  }

  /** The parent of a counted path is counted too, unless it is the root. */
  lemma ParentCounted(w: Pass, p: seq<nat>)
    requires Occ(w, p, |w.r|) > 0
    ensures |p| > 1 ==> Occ(w, p[..|p| - 1], |w.r|) > 0
    ensures |p| >= 1
  {
    var i := CountedAt(w, p, |w.r|);
    if |p| > 1 {
      assert Counted(w, i, p[..|p| - 1]);
      OccPositive(w, p[..|p| - 1], i, |w.r|);
    }
  }

  /** A start that counts `p`, when its count is positive. */
  lemma {:induction false} CountedAt(w: Pass, p: seq<nat>, k: nat) returns (i: nat)
    requires Occ(w, p, k) > 0
    ensures i < k && Counted(w, i, p)
  {
    if Counted(w, k - 1, p) {
      i := k - 1;
    } else {
      i := CountedAt(w, p, k - 1);
    }
  }
}
