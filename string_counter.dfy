/** The string counter of src/string_counter.cpp and src/string_counter.hpp: substring
    statistics over the suffix array of the raw strings, a frequency trie holding the
    counters of every repeated substring, the preserve lengths that exclude occurrences
    inside an already chosen word, and the case selection of `score`. The floating-point
    parts (the entropy of a histogram and the score formula) are parameters. */
module StringCounters {
  import opened Lex
  import opened SuffixSpec
  import opened TriePaths
  import opened Preserve
  import Averages
  import FreqTries
  import SuffixArrays
  import EncStr

  /** A constructor's outcome: the object, or the `invalid_argument` it throws. */
  datatype Made<T> = Made(value: T) | InvalidArgument(message: string)

  const LrvMessage: string := "The exponent parameter of LRV must be greater than or equal to 0."
  const SmoothMessage: string := "The smoothing parameter must be greater than or equal to 0."

  /** Which statistics `score(i, n)` uses: none (it returns minus infinity), those of the
      trie node of the substring, or the singleton values. */
  datatype ScoreCase = Excluded | FromTrie(path: seq<nat>) | Singleton

  /** The raw statistics `score` feeds into its formula: frequency, left and right entropy,
      and the three averages they are divided by. */
  datatype Stats = Stats(n: nat, f: real, hl: real, hr: real, fAvg: real, hlAvg: real, hrAvg: real)

  /** The value of `score`: minus infinity, a finite value, or the null node that the
      trie case would dereference when the sweep did not create the node. */
  datatype Scored = NegInf | Value(v: real) | NullNode

  /** `min(l, maxLen)`, the clipped LCP the sweep works with. */
  function Clip(l: nat, maxLen: nat): (r: nat)
    ensures r <= l && r <= maxLen && (r == l || r == maxLen)
  {
    if l < maxLen then l else maxLen
  }

  // -----------------------------------------------------------------------------------------
  // Repeated substrings and the LCP test of `score`

  /** `s[i..i+n]` holds no boundary and also starts at some other position. */
  ghost predicate Recurs(s: seq<nat>, i: nat, n: nat)
    requires i + n <= |s|
  {
    (forall k :: i <= k < i + n ==> s[k] != 0)
    && exists q: nat :: q != i && q <= |s| && IsPrefix(s[i..i + n], s[q..])
  }

  /** `Lcp0(a, b) >= n` says that a and b agree on their first n symbols, none of them a
      boundary. */
  lemma Lcp0AtLeast(a: seq<nat>, b: seq<nat>, n: nat)
    ensures Lcp0(a, b) >= n <==> n <= |a| && IsPrefix(a[..n], b) && forall k :: 0 <= k < n ==> a[k] != 0
  {
    Lcp0Spec(a, b);
    if n <= |a| && IsPrefix(a[..n], b) && (forall k :: 0 <= k < n ==> a[k] != 0) {
    }
  }

  /** The mirror of `Lex.Lcp0Sandwich`: a sequence between x and z shares at least their
      common prefix with x. */
  lemma {:induction false} Lcp0SandwichLeft(x: seq<nat>, y: seq<nat>, z: seq<nat>)
    requires Less(x, y) && Less(y, z)
    ensures Lcp0(x, z) <= Lcp0(x, y)
    decreases |x|
  {
    if Lcp0(x, z) > 0 {
      LessHead(x, y);
      LessHead(y, z);
      assert x[0] == y[0] == z[0];
      Lcp0SandwichLeft(x[1..], y[1..], z[1..]);
    }
  }

  /** The test of `score`: the suffix at i shares a boundary-free prefix of length n with a
      rank neighbour exactly when `s[i..i+n]` is boundary-free and occurs elsewhere too. */
  lemma SharedIffRecurs(s: seq<nat>, sa: seq<nat>, isa: seq<nat>, lcpa: seq<nat>, i: nat, n: nat)
    requires IsSuffixArray(s, sa, |s|) && IsInverse(sa, isa) && IsLcpArray(s, sa, lcpa)
    requires |lcpa| > 0 ==> lcpa[0] == 0
    requires 1 <= n && i + n <= |s|
    ensures var j := isa[i];
      lcpa[j] >= n || (j + 1 < |sa| && lcpa[j + 1] >= n) <==> Recurs(s, i, n)
  {
    InverseRoundTrip(s, sa, isa, |s|);
    var j := isa[i];
    assert sa[j] == i;
    Lcp0AtLeast(s[i..], s[i..], n);
    assert s[i..][..n] == s[i..i + n];
    if j > 0 && lcpa[j] >= n {
      SharedBelowRecurs(s, sa, isa, lcpa, i, n, j);
    } else if j + 1 < |sa| && lcpa[j + 1] >= n {
      SharedAboveRecurs(s, sa, isa, lcpa, i, n, j);
    }
    if Recurs(s, i, n) {
      RecursShared(s, sa, isa, lcpa, i, n, j);
    }
  }

  /** A rank neighbour below sharing n symbols makes `s[i..i+n]` recur. */
  lemma SharedBelowRecurs(s: seq<nat>, sa: seq<nat>, isa: seq<nat>, lcpa: seq<nat>, i: nat, n: nat, j: nat)
    requires IsSuffixArray(s, sa, |s|) && IsInverse(sa, isa) && IsLcpArray(s, sa, lcpa)
    requires 1 <= n && i + n <= |s| && 0 < j < |sa| && sa[j] == i && lcpa[j] >= n
    ensures Recurs(s, i, n)
  {
    assert LcpAt(s, sa, lcpa, j);
    Lcp0AtLeast(s[i..], s[sa[j - 1]..], n);
    assert isa[sa[j - 1]] == j - 1;
    assert s[i..][..n] == s[i..i + n];
  }

  /** A rank neighbour above sharing n symbols makes `s[i..i+n]` recur. */
  lemma SharedAboveRecurs(s: seq<nat>, sa: seq<nat>, isa: seq<nat>, lcpa: seq<nat>, i: nat, n: nat, j: nat)
    requires IsSuffixArray(s, sa, |s|) && IsInverse(sa, isa) && IsLcpArray(s, sa, lcpa)
    requires 1 <= n && i + n <= |s| && j + 1 < |sa| && sa[j] == i && lcpa[j + 1] >= n
    ensures Recurs(s, i, n)
  {
    assert LcpAt(s, sa, lcpa, j + 1);
    Lcp0Symmetric(s[sa[j + 1]..], s[i..]);
    Lcp0AtLeast(s[i..], s[sa[j + 1]..], n);
    assert isa[sa[j + 1]] == j + 1;
    assert s[i..][..n] == s[i..i + n];
  }

  /** If `s[i..i+n]` recurs, a rank neighbour of i shares n symbols with it. */
  lemma RecursShared(s: seq<nat>, sa: seq<nat>, isa: seq<nat>, lcpa: seq<nat>, i: nat, n: nat, j: nat)
    requires IsSuffixArray(s, sa, |s|) && IsInverse(sa, isa) && IsLcpArray(s, sa, lcpa)
    requires |lcpa| > 0 ==> lcpa[0] == 0
    requires 1 <= n && i + n <= |s| && j < |sa| && sa[j] == i && isa[i] == j
    requires forall p :: 0 <= p < |s| ==> isa[p] < |s| && sa[isa[p]] == p
    requires Recurs(s, i, n)
    ensures lcpa[j] >= n || (j + 1 < |sa| && lcpa[j + 1] >= n)
  {
    var q: nat :| q != i && q <= |s| && IsPrefix(s[i..i + n], s[q..]);
    assert s[i..][..n] == s[i..i + n];
    assert q < |s|;
    var r := isa[q];
    assert sa[r] == q;
    Lcp0AtLeast(s[i..], s[q..], n);
    if r < j {
      assert LcpAt(s, sa, lcpa, j);
      if r < j - 1 {
        assert RankLess(s, sa, r, j - 1) && RankLess(s, sa, j - 1, j);
        Lcp0Sandwich(s[q..], s[sa[j - 1]..], s[i..]);
      }
    } else {
      assert r != j;
      assert LcpAt(s, sa, lcpa, j + 1);
      if r > j + 1 {
        assert RankLess(s, sa, j, j + 1) && RankLess(s, sa, j + 1, r);
        Lcp0SandwichLeft(s[i..], s[sa[j + 1]..], s[q..]);
      }
      Lcp0Symmetric(s[sa[j + 1]..], s[i..]);
    }
  }

  // -----------------------------------------------------------------------------------------
  // The LCP-interval sweep of `calc_avg`

  /** A sorted text with its LCP array, as the sweep reads them; a non-empty text ends with
      a boundary. */
  ghost predicate Arrays(s: seq<nat>, sa: seq<nat>, lcpa: seq<nat>)
  {
    IsSuffixArray(s, sa, |s|) && IsLcpArray(s, sa, lcpa) && (|lcpa| > 0 ==> lcpa[0] == 0)
    && (|s| > 0 ==> s[|s| - 1] == 0)
  }

  /** The first boundary at or after p, or the end of the text. */
  function NextBoundary(s: seq<nat>, p: nat): (z: nat)
    requires p <= |s|
    ensures p <= z <= |s|
    ensures forall k :: p <= k < z ==> s[k] != 0
    ensures z < |s| ==> s[z] == 0
    decreases |s| - p
  {
    if p == |s| || s[p] == 0 then p else NextBoundary(s, p + 1)
  }

  /** In a text that ends with a boundary, every position before the end has one ahead. */
  lemma BoundaryAhead(s: seq<nat>, p: nat)
    requires p < |s| && s[|s| - 1] == 0
    ensures NextBoundary(s, p) < |s|
  {
  }

  /** A boundary-free common prefix stays before the next boundary. */
  lemma Lcp0WithinRun(s: seq<nat>, p: nat, x: seq<nat>)
    requires p <= |s|
    ensures p + Lcp0(s[p..], x) <= NextBoundary(s, p)
    ensures p + Lcp0(x, s[p..]) <= NextBoundary(s, p)
  {
    Lcp0Spec(s[p..], x);
    Lcp0Symmetric(s[p..], x);
  }

  /** The number of ranks below hi whose suffix starts with `p`: the number of positions
      where `p` occurs, since a suffix array lists every position once. */
  ghost function RankCount(s: seq<nat>, sa: seq<nat>, p: seq<nat>, hi: nat): nat
    requires hi <= |sa| && forall k :: 0 <= k < |sa| ==> sa[k] <= |s|
  {
    if hi == 0 then 0 else RankCount(s, sa, p, hi - 1) + (if IsPrefix(p, s[sa[hi - 1]..]) then 1 else 0)
  }

  /** Ranks with a given prefix form the interval `[st, i]`, so there are i - st + 1. */
  lemma {:induction false} RankCountInterval(s: seq<nat>, sa: seq<nat>, p: seq<nat>, st: nat, i: nat, hi: nat)
    requires hi <= |sa| && forall k :: 0 <= k < |sa| ==> sa[k] <= |s|
    requires st <= i < |sa|
    requires forall k :: 0 <= k < |sa| ==> (st <= k <= i <==> IsPrefix(p, s[sa[k]..]))
    ensures RankCount(s, sa, p, hi) == if hi <= st then 0 else if hi > i + 1 then i + 1 - st else hi - st
  {
    if hi > 0 {
      RankCountInterval(s, sa, p, st, i, hi - 1);
    }
  }

  /** A counter the sweep has written: the node of a boundary-free string of length 1 to
      `maxLen` holds the number of its occurrences (modulo 2^64). */
  ghost predicate Counted(s: seq<nat>, sa: seq<nat>, maxLen: nat, p: seq<nat>, fv: nat)
    requires forall k :: 0 <= k < |sa| ==> sa[k] <= |s|
  {
    1 <= |p| <= maxLen && (forall k :: 0 <= k < |p| ==> p[k] != 0) && fv == Wrap(RankCount(s, sa, p, |sa|))
  }

  /** What the sweep does to the frequencies of `f0`: every node keeps its counter, is a
      new node with counter 0, or holds its exact occurrence count. */
  ghost predicate SweepOk(f0: map<seq<nat>, nat>, f: map<seq<nat>, nat>, s: seq<nat>, sa: seq<nat>, maxLen: nat)
    requires forall k :: 0 <= k < |sa| ==> sa[k] <= |s|
  {
    f0.Keys <= f.Keys
    && forall p :: p in f ==> (p in f0 && f[p] == f0[p]) || (p !in f0 && f[p] == 0) || Counted(s, sa, maxLen, p, f[p])
  }

  /** Every rank in `(st, i]` has a clipped LCP of at least l with the rank before it. */
  ghost predicate SharesFrom(lcpa: seq<nat>, maxLen: nat, st: nat, i: nat, l: nat)
  {
    forall k :: st < k <= i && k < |lcpa| ==> Clip(lcpa[k], maxLen) >= l
  }

  /** The stack of open LCP intervals at rank i: `(0, 0)` at the bottom, lengths strictly
      increasing upwards, every interval opened before i, its ranks sharing its length up
      to i, and its first rank sharing no more than the interval below it. */
  ghost predicate StackOk(stack: seq<(nat, nat)>, lcpa: seq<nat>, maxLen: nat, i: nat)
  {
    |stack| >= 1 && stack[0] == (0, 0)
    && (forall a, b :: 0 <= a < b < |stack| ==> stack[a].1 < stack[b].1)
    && (forall d :: 0 <= d < |stack| ==> SharesFrom(lcpa, maxLen, stack[d].0, i, stack[d].1))
    && (forall d :: 0 < d < |stack| ==> stack[d].0 < i && stack[d].0 < |lcpa| && Clip(lcpa[stack[d].0], maxLen) <= stack[d - 1].1)
  }

  /** Ranks `st .. i` all start with the first m symbols of the suffix at rank i, which
      are boundary-free. */
  lemma IntervalInside(s: seq<nat>, sa: seq<nat>, lcpa: seq<nat>, maxLen: nat, st: nat, i: nat, m: nat)
    requires Arrays(s, sa, lcpa) && st < i < |sa| && 1 <= m <= maxLen
    requires SharesFrom(lcpa, maxLen, st, i, m)
    ensures sa[i] + m <= |s| && forall k :: sa[i] <= k < sa[i] + m ==> s[k] != 0
    ensures forall k :: st <= k <= i ==> IsPrefix(s[sa[i]..sa[i] + m], s[sa[k]..])
  {
    assert LcpAt(s, sa, lcpa, i);
    Lcp0AtLeast(s[sa[i]..], s[sa[i - 1]..], m);
    assert s[sa[i]..][..m] == s[sa[i]..sa[i] + m];
    var t := s[sa[i]..sa[i] + m];
    var k := i;
    while k > st
      invariant st <= k <= i
      invariant forall q :: k <= q <= i ==> IsPrefix(t, s[sa[q]..])
    {
      assert LcpAt(s, sa, lcpa, k);
      Lcp0AtLeast(s[sa[k]..], s[sa[k - 1]..], m);
      assert s[sa[k]..][..m] == t;
      k := k - 1;
    }
  }

  /** No rank after i starts with them when rank i + 1 shares fewer than m symbols. */
  lemma IntervalAbove(s: seq<nat>, sa: seq<nat>, lcpa: seq<nat>, maxLen: nat, i: nat, m: nat, q: nat)
    requires Arrays(s, sa, lcpa) && i < q < |sa| && 1 <= m <= maxLen
    requires sa[i] + m <= |s| && forall k :: sa[i] <= k < sa[i] + m ==> s[k] != 0
    requires Clip(lcpa[i + 1], maxLen) < m
    ensures !IsPrefix(s[sa[i]..sa[i] + m], s[sa[q]..])
  {
    var t := s[sa[i]..sa[i] + m];
    assert s[sa[i]..][..m] == t;
    assert LcpAt(s, sa, lcpa, i + 1);
    if IsPrefix(t, s[sa[q]..]) {
      Lcp0AtLeast(s[sa[i]..], s[sa[q]..], m);
      if q > i + 1 {
        assert RankLess(s, sa, i, i + 1) && RankLess(s, sa, i + 1, q);
        Lcp0SandwichLeft(s[sa[i]..], s[sa[i + 1]..], s[sa[q]..]);
      }
      Lcp0Symmetric(s[sa[i + 1]..], s[sa[i]..]);
    }
  }

  /** No rank before st starts with them when rank st shares fewer than m symbols with
      rank st - 1. */
  lemma IntervalBelow(s: seq<nat>, sa: seq<nat>, lcpa: seq<nat>, maxLen: nat, st: nat, m: nat, q: nat, t: seq<nat>)
    requires Arrays(s, sa, lcpa) && q < st < |sa| && 1 <= m <= maxLen && |t| == m
    requires forall k :: 0 <= k < m ==> t[k] != 0
    requires IsPrefix(t, s[sa[st]..])
    requires Clip(lcpa[st], maxLen) < m
    ensures !IsPrefix(t, s[sa[q]..])
  {
    assert s[sa[st]..][..m] == t;
    assert LcpAt(s, sa, lcpa, st);
    if IsPrefix(t, s[sa[q]..]) {
      Lcp0AtLeast(s[sa[st]..], s[sa[q]..], m);
      assert Lcp0(s[sa[st]..], s[sa[q]..]) >= m;
      if q < st - 1 {
        assert RankLess(s, sa, q, st - 1) && RankLess(s, sa, st - 1, st);
        Lcp0Sandwich(s[sa[q]..], s[sa[st - 1]..], s[sa[st]..]);
      }
      assert false;
    }
  }

  /** An interval popped from the stack: the ranks whose suffix starts with the first m
      symbols of the suffix at rank i are exactly `st .. i`. */
  lemma IntervalRanks(s: seq<nat>, sa: seq<nat>, lcpa: seq<nat>, maxLen: nat, st: nat, i: nat, m: nat)
    requires Arrays(s, sa, lcpa) && st < i < |sa| && 1 <= m <= maxLen
    requires SharesFrom(lcpa, maxLen, st, i, m)
    requires st > 0 ==> Clip(lcpa[st], maxLen) < m
    requires i + 1 < |sa| ==> Clip(lcpa[i + 1], maxLen) < m
    ensures sa[i] + m <= |s| && forall k :: sa[i] <= k < sa[i] + m ==> s[k] != 0
    ensures forall q :: 0 <= q < |sa| ==> (st <= q <= i <==> IsPrefix(s[sa[i]..sa[i] + m], s[sa[q]..]))
  {
    IntervalInside(s, sa, lcpa, maxLen, st, i, m);
    var t := s[sa[i]..sa[i] + m];
    forall q | 0 <= q < |sa| && !(st <= q <= i)
      ensures !IsPrefix(t, s[sa[q]..])
    {
      if q > i {
        IntervalAbove(s, sa, lcpa, maxLen, i, m, q);
      } else {
        IntervalBelow(s, sa, lcpa, maxLen, st, m, q, t);
      }
    }
  }

  /** An iteration `calc_avg` skips: when the suffix at rank i + 1 starts with a boundary,
      so does the one at rank i, both LCPs are 0 and the stack holds only its bottom. */
  lemma SkipStep(s: seq<nat>, sa: seq<nat>, lcpa: seq<nat>, maxLen: nat, i: nat, stack: seq<(nat, nat)>)
    requires Arrays(s, sa, lcpa) && i + 1 < |sa| && s[sa[i + 1]] == 0
    requires StackOk(stack, lcpa, maxLen, i) && stack[|stack| - 1].1 == Clip(lcpa[i], maxLen)
    ensures Clip(lcpa[i], maxLen) == 0 && Clip(lcpa[i + 1], maxLen) == 0
    ensures stack == [(0, 0)] && StackOk(stack, lcpa, maxLen, i + 1)
    ensures sa[i] < |s| && s[sa[i]] == 0
  {
    assert s[sa[i + 1]..][0] == 0;
    assert LcpAt(s, sa, lcpa, i + 1);
    assert RankLess(s, sa, i, i + 1);
    assert Less(s[sa[i]..], s[sa[i + 1]..]);
    LessHead(s[sa[i]..], s[sa[i + 1]..]);
    assert s[sa[i]..][0] == 0;
    if i > 0 {
      assert LcpAt(s, sa, lcpa, i);
    }
  }

  /** Moving to rank i + 1 with the stack topped by at most the next LCP. */
  lemma StackAdvance(stack: seq<(nat, nat)>, lcpa: seq<nat>, maxLen: nat, i: nat, lcp: nat)
    requires StackOk(stack, lcpa, maxLen, i) && stack[|stack| - 1].1 <= lcp
    requires i + 1 < |lcpa| ==> Clip(lcpa[i + 1], maxLen) == lcp
    ensures StackOk(stack, lcpa, maxLen, i + 1)
  {
    forall d | 0 <= d < |stack|
      ensures SharesFrom(lcpa, maxLen, stack[d].0, i + 1, stack[d].1)
    {
      if d < |stack| - 1 {
        assert stack[d].1 < stack[|stack| - 1].1;
      }
    }
  }

  /** Opening the interval `(i, lcp)` above a top that equals the LCP at rank i. */
  lemma StackPush(stack: seq<(nat, nat)>, lcpa: seq<nat>, maxLen: nat, i: nat, lcp: nat)
    requires StackOk(stack, lcpa, maxLen, i + 1) && stack[|stack| - 1].1 < lcp
    requires i < |lcpa| && Clip(lcpa[i], maxLen) <= stack[|stack| - 1].1
    requires i + 1 < |lcpa| ==> Clip(lcpa[i + 1], maxLen) == lcp
    ensures StackOk(stack + [(i, lcp)], lcpa, maxLen, i + 1)
  {
    var st := stack + [(i, lcp)];
    forall a, b | 0 <= a < b < |st|
      ensures st[a].1 < st[b].1
    {
      if b == |stack| && a < |stack| - 1 {
        assert stack[a].1 < stack[|stack| - 1].1;
      }
    }
  }

  /** Popping the top interval, and reopening it with the shorter length lcp when that
      still exceeds the interval below. */
  lemma StackPop(stack: seq<(nat, nat)>, lcpa: seq<nat>, maxLen: nat, i: nat, lcp: nat)
    requires StackOk(stack, lcpa, maxLen, i) && |stack| > 1 && lcp < stack[|stack| - 1].1
    ensures var rest := stack[..|stack| - 1];
      StackOk(rest, lcpa, maxLen, i)
      && (lcp > rest[|rest| - 1].1 ==> StackOk(rest + [(stack[|stack| - 1].0, lcp)], lcpa, maxLen, i))
  {
    var rest := stack[..|stack| - 1];
    assert StackOk(rest, lcpa, maxLen, i);
    if lcp > rest[|rest| - 1].1 {
      var st := rest + [(stack[|stack| - 1].0, lcp)];
      forall a, b | 0 <= a < b < |st|
        ensures st[a].1 < st[b].1
      {
        if b == |rest| && a < |rest| - 1 {
          assert rest[a].1 < rest[|rest| - 1].1;
        }
      }
    }
  }

  /** `SweepOk` composes along a run of updates. */
  lemma SweepOkTrans(f0: map<seq<nat>, nat>, f1: map<seq<nat>, nat>, f2: map<seq<nat>, nat>, s: seq<nat>, sa: seq<nat>, maxLen: nat)
    requires forall k :: 0 <= k < |sa| ==> sa[k] <= |s|
    requires SweepOk(f0, f1, s, sa, maxLen) && SweepOk(f1, f2, s, sa, maxLen)
    ensures SweepOk(f0, f2, s, sa, maxLen)
  {
  }

  /** The symbol before the suffix at each rank of `[lo, hi)`, the boundary before
      position 0 (`sp1l`). */
  function LeftSymbols(s: seq<nat>, sa: seq<nat>, lo: nat, hi: nat): (r: multiset<nat>)
    requires lo <= hi <= |sa| && forall k :: 0 <= k < |sa| ==> sa[k] <= |s|
    ensures |r| == hi - lo
    decreases hi - lo
  {
    if lo == hi then multiset{}
    else
      var p := sa[hi - 1];
      LeftSymbols(s, sa, lo, hi - 1) + multiset{if p > 0 then s[p - 1] else EncStr.Boundary}
  }

  /** The symbol d after the start of the suffix at each rank of `[lo, hi)`, the boundary
      past the end of the text (`sp1r`). */
  function RightSymbols(s: seq<nat>, sa: seq<nat>, d: nat, lo: nat, hi: nat): (r: multiset<nat>)
    requires lo <= hi <= |sa|
    ensures |r| == hi - lo
    decreases hi - lo
  {
    if lo == hi then multiset{}
    else
      var idx := sa[hi - 1] + d;
      RightSymbols(s, sa, d, lo, hi - 1) + multiset{if idx < |s| then s[idx] else EncStr.Boundary}
  }

  /** The `sp1l` loop over the ranks `top.first .. i`. */
  method LeftCounts(s: seq<nat>, sa: seq<nat>, st: nat, i: nat) returns (sp1l: multiset<nat>)
    requires st <= i < |sa| && forall k :: 0 <= k < |sa| ==> sa[k] <= |s|
    ensures sp1l == LeftSymbols(s, sa, st, i + 1)
  {
    sp1l := multiset{};
    var k := st;
    while k <= i
      invariant st <= k <= i + 1 && sp1l == LeftSymbols(s, sa, st, k)
    {
      var c := if sa[k] > 0 then s[sa[k] - 1] else EncStr.Boundary;
      sp1l := sp1l + multiset{c};
      k := k + 1;
    }
  }

  /** The `sp1r` loop over the ranks `top.first .. i` for the strings of length d. */
  method RightCounts(s: seq<nat>, sa: seq<nat>, st: nat, i: nat, d: nat) returns (sp1r: multiset<nat>)
    requires st <= i < |sa|
    ensures sp1r == RightSymbols(s, sa, d, st, i + 1)
  {
    sp1r := multiset{};
    var k := st;
    while k <= i
      invariant st <= k <= i + 1 && sp1r == RightSymbols(s, sa, d, st, k)
    {
      var idx := sa[k] + d;
      var c := if idx < |s| then s[idx] else EncStr.Boundary;
      sp1r := sp1r + multiset{c};
      k := k + 1;
    }
  }

  /** Adds one string of length j + 1 with these statistics to the totals. */
  function AddString(t: Averages.Totals, j: nat, f: real, hl: real, hr: real): (r: Averages.Totals)
    requires t.Sized(|t.f|) && j < |t.f|
    ensures r.Sized(|t.f|)
    ensures r.nums[j] == t.nums[j] + 1 && r.f[j] == t.f[j] + f && r.hl[j] == t.hl[j] + hl && r.hr[j] == t.hr[j] + hr
    ensures forall k :: 0 <= k < |t.f| && k != j ==>
              r.nums[k] == t.nums[k] && r.f[k] == t.f[k] && r.hl[k] == t.hl[k] && r.hr[k] == t.hr[k]
  {
    Averages.Totals(t.f[j := t.f[j] + f], t.hl[j := t.hl[j] + hl], t.hr[j := t.hr[j] + hr], t.nums[j := t.nums[j] + 1])
  }

  /** The singleton loop of `calc_avg` for the suffix at `pos`: every length from `j0 + 1`
      up to `maxLen` that stays before the next boundary gains one string of frequency 1
      with entropy `h1` on both sides. */
  method Singletons(s: seq<nat>, pos: nat, j0: nat, maxLen: nat, h1: real, t0: Averages.Totals) returns (t: Averages.Totals)
    requires pos < |s| && pos + j0 <= NextBoundary(s, pos) < |s|
    requires t0.Sized(maxLen)
    ensures t.Sized(maxLen)
    ensures forall j :: 0 <= j < maxLen ==>
              var hit := j0 <= j < NextBoundary(s, pos) - pos;
              && t.nums[j] == t0.nums[j] + (if hit then 1 else 0)
              && t.f[j] == t0.f[j] + (if hit then 1.0 else 0.0)
              && t.hl[j] == t0.hl[j] + (if hit then h1 else 0.0)
              && t.hr[j] == t0.hr[j] + (if hit then h1 else 0.0)
  {
    t := t0;
    var j := j0;
    var idx := pos + j0;
    while j < maxLen && s[idx] != EncStr.Boundary
      invariant j0 <= j && idx == pos + j && idx <= NextBoundary(s, pos)
      invariant t.Sized(maxLen)
      invariant forall k :: 0 <= k < maxLen ==>
                  var hit := j0 <= k < j;
                  && t.nums[k] == t0.nums[k] + (if hit then 1 else 0)
                  && t.f[k] == t0.f[k] + (if hit then 1.0 else 0.0)
                  && t.hl[k] == t0.hl[k] + (if hit then h1 else 0.0)
                  && t.hr[k] == t0.hr[k] + (if hit then h1 else 0.0)
    {
      t := AddString(t, j, 1.0, h1, h1);
      j := j + 1;
      idx := idx + 1;
    }
  }

  /** The totals t are t0 with one string of frequency c added at each length `lo + 1 .. hi`. */
  ghost predicate AddedFlat(t0: Averages.Totals, t: Averages.Totals, maxLen: nat, lo: nat, hi: nat, c: real)
  {
    t0.Sized(maxLen) && t.Sized(maxLen)
    && forall k :: 0 <= k < maxLen ==>
         var hit := lo <= k < hi;
         && t.nums[k] == t0.nums[k] + (if hit then 1 else 0)
         && t.f[k] == t0.f[k] + (if hit then c else 0.0)
  }

  /** The totals t are t0 with the string of each length `lo + 1 .. hi` at rank i added,
      each with its occurrence count. */
  ghost predicate AddedCounts(t0: Averages.Totals, t: Averages.Totals, s: seq<nat>, sa: seq<nat>, maxLen: nat, i: nat, lo: nat, hi: nat)
    requires forall k :: 0 <= k < |sa| ==> sa[k] <= |s|
  {
    t0.Sized(maxLen) && t.Sized(maxLen)
    && forall k :: 0 <= k < maxLen ==>
         var hit := lo <= k < hi;
         && t.nums[k] == t0.nums[k] + (if hit then 1 else 0)
         && t.f[k] == t0.f[k] + (if hit then CountAt(s, sa, i, k + 1) as real else 0.0)
  }

  /** The strings of each length `lo + 1 .. hi` at rank i occur c times. */
  ghost predicate CountsAre(s: seq<nat>, sa: seq<nat>, i: nat, lo: nat, hi: nat, c: nat)
    requires forall k :: 0 <= k < |sa| ==> sa[k] <= |s|
  {
    forall m :: lo < m <= hi ==> CountAt(s, sa, i, m) == c
  }

  /** The nodes of the strings of each length `lo + 1 .. hi` at rank i hold their counts. */
  ghost predicate WrittenRange(f: map<seq<nat>, nat>, s: seq<nat>, sa: seq<nat>, maxLen: nat, i: nat, lo: nat, hi: nat)
    requires forall k :: 0 <= k < |sa| ==> sa[k] <= |s|
  {
    forall m :: lo < m <= hi ==> WrittenAt(f, s, sa, maxLen, i, m)
  }

  /** One more length for `AddedFlat`. */
  lemma AddedFlatStep(t0: Averages.Totals, t: Averages.Totals, maxLen: nat, lo: nat, j: nat, c: real, hl: real, hr: real)
    requires AddedFlat(t0, t, maxLen, lo, j, c) && lo <= j < maxLen
    ensures AddedFlat(t0, AddString(t, j, c, hl, hr), maxLen, lo, j + 1, c)
  {
  }

  /** One more written length, with the nodes already written kept. */
  lemma WrittenRangeStep(f1: map<seq<nat>, nat>, f2: map<seq<nat>, nat>, s: seq<nat>, sa: seq<nat>, maxLen: nat, i: nat, lo: nat, j: nat)
    requires forall k :: 0 <= k < |sa| ==> sa[k] <= |s|
    requires WrittenRange(f1, s, sa, maxLen, i, lo, j) && SweepOk(f1, f2, s, sa, maxLen)
    requires WrittenAt(f2, s, sa, maxLen, i, j + 1)
    ensures WrittenRange(f2, s, sa, maxLen, i, lo, j + 1)
  {
    WrittenKept(f1, f2, s, sa, maxLen);
  }

  /** Closing the lengths `lo + 1 .. hi` below those already added. */
  lemma AddedCountsJoin(t0: Averages.Totals, t1: Averages.Totals, t2: Averages.Totals, s: seq<nat>, sa: seq<nat>, maxLen: nat,
                        i: nat, lo: nat, hi: nat, top: nat, c: nat)
    requires forall k :: 0 <= k < |sa| ==> sa[k] <= |s|
    requires lo <= hi <= top
    requires AddedCounts(t0, t1, s, sa, maxLen, i, hi, top) && AddedFlat(t1, t2, maxLen, lo, hi, c as real)
    requires CountsAre(s, sa, i, lo, hi, c)
    ensures AddedCounts(t0, t2, s, sa, maxLen, i, lo, top)
  {
  }

  /** Closed lengths `lo + 1 .. hi` below written ones. */
  lemma WrittenRangeJoin(f1: map<seq<nat>, nat>, f2: map<seq<nat>, nat>, s: seq<nat>, sa: seq<nat>, maxLen: nat,
                         i: nat, lo: nat, hi: nat, top: nat)
    requires forall k :: 0 <= k < |sa| ==> sa[k] <= |s|
    requires lo <= hi
    requires WrittenRange(f1, s, sa, maxLen, i, hi, top) && SweepOk(f1, f2, s, sa, maxLen)
    requires WrittenRange(f2, s, sa, maxLen, i, lo, hi)
    ensures WrittenRange(f2, s, sa, maxLen, i, lo, top)
  {
    WrittenKept(f1, f2, s, sa, maxLen);
  }

  /** The lengths `lo + 1 .. hi` of a popped interval `[st, i]`: each string gets the
      interval's frequency `i - st + 1`, which is its occurrence count, its left entropy hl
      and the entropy of its right neighbours, in the totals and in its trie node (created
      if missing). */
  method WriteLengths(trie: FreqTries.SharedTrie, s: seq<nat>, sa: seq<nat>, lcpa: seq<nat>, maxLen: nat,
                      st: nat, i: nat, lo: nat, hi: nat, hl: real, t0: Averages.Totals,
                      ghost h1: real, entropy: multiset<nat> -> real) returns (t: Averages.Totals)
    requires forall k :: 0 <= k < |sa| ==> sa[k] <= |s|
    requires st < i < |sa| && hi <= maxLen
    requires IntervalReady(s, sa, maxLen, st, i, lo, hi, hl, h1, entropy)
    requires trie.Valid() && t0.Sized(maxLen)
    modifies trie
    ensures trie.Valid() && CountsAre(s, sa, i, lo, hi, i - st + 1)
    ensures LengthsWritten(old(trie.f), old(trie.hl), old(trie.hr), trie.f, trie.hl, trie.hr, t0, t, s, sa, maxLen,
                           h1, entropy, i, (i - st + 1) as real, lo, hi)
  {
    forall m | lo < m <= hi
      ensures CountAt(s, sa, i, m) == i - st + 1
    {
      assert NodeReady(s, sa, maxLen, st, i, m, hl, h1, entropy);
    }
    t := t0;
    var j := lo;
    while j < hi
      invariant j == lo || lo < j <= hi
      invariant trie.Valid()
      invariant LengthsWritten(old(trie.f), old(trie.hl), old(trie.hr), trie.f, trie.hl, trie.hr, t0, t, s, sa, maxLen,
                               h1, entropy, i, (i - st + 1) as real, lo, j)
    {
      ghost var f1, hl1, hr1 := trie.f, trie.hl, trie.hr;
      var hr := WriteLength(trie, s, sa, maxLen, st, i, j, hl, h1, entropy);
      LengthWrittenStep(old(trie.f), old(trie.hl), old(trie.hr), f1, hl1, hr1, trie.f, trie.hl, trie.hr, t0, t, s, sa, maxLen,
                        h1, entropy, i, (i - st + 1) as real, lo, j, hl, hr);
      t := AddString(t, j, (i - st + 1) as real, hl, hr);
      j := j + 1;
    }
  }

  /** What `WriteLengths` has done by length j: every node is kept, new or written, the
      totals have the strings of the lengths `lo + 1 .. j` at rank i added with frequency c
      and their entropies, and their nodes hold their counts and entropies. */
  ghost predicate LengthsWritten(f0: map<seq<nat>, nat>, hl0: map<seq<nat>, real>, hr0: map<seq<nat>, real>,
                                 f: map<seq<nat>, nat>, hl: map<seq<nat>, real>, hr: map<seq<nat>, real>,
                                 t0: Averages.Totals, t: Averages.Totals, s: seq<nat>, sa: seq<nat>, maxLen: nat,
                                 h1: real, entropy: multiset<nat> -> real, i: nat, c: real, lo: nat, j: nat)
    requires forall k :: 0 <= k < |sa| ==> sa[k] <= |s|
  {
    SweepOk(f0, f, s, sa, maxLen) && SidesOk(hl0, hr0, hl, hr, s, sa, entropy)
    && AddedFlat(t0, t, maxLen, lo, j, c) && AddedSides(t0, t, s, sa, maxLen, h1, entropy, i, lo, j)
    && WrittenRange(f, s, sa, maxLen, i, lo, j) && SidesRange(hl, hr, s, sa, i, lo, j, entropy)
  }

  /** One more length for `LengthsWritten`. */
  lemma LengthWrittenStep(f0: map<seq<nat>, nat>, hl0: map<seq<nat>, real>, hr0: map<seq<nat>, real>,
                          f1: map<seq<nat>, nat>, hl1: map<seq<nat>, real>, hr1: map<seq<nat>, real>,
                          f2: map<seq<nat>, nat>, hl2: map<seq<nat>, real>, hr2: map<seq<nat>, real>,
                          t0: Averages.Totals, t: Averages.Totals, s: seq<nat>, sa: seq<nat>, maxLen: nat,
                          h1: real, entropy: multiset<nat> -> real, i: nat, c: real, lo: nat, j: nat, hl: real, hr: real)
    requires forall k :: 0 <= k < |sa| ==> sa[k] <= |s|
    requires LengthsWritten(f0, hl0, hr0, f1, hl1, hr1, t0, t, s, sa, maxLen, h1, entropy, i, c, lo, j)
    requires lo <= j < maxLen && hl1.Keys == hr1.Keys
    requires SweepOk(f1, f2, s, sa, maxLen) && SidesOk(hl1, hr1, hl2, hr2, s, sa, entropy)
    requires WrittenAt(f2, s, sa, maxLen, i, j + 1) && SidesAt(hl2, hr2, s, sa, i, j + 1, entropy)
    requires hl == SideAt(s, sa, i, j + 1, Left, h1, entropy) && hr == SideAt(s, sa, i, j + 1, Right, h1, entropy)
    ensures LengthsWritten(f0, hl0, hr0, f2, hl2, hr2, t0, AddString(t, j, c, hl, hr), s, sa, maxLen, h1, entropy, i, c, lo, j + 1)
  {
    AddedFlatStep(t0, t, maxLen, lo, j, c, hl, hr);
    AddedSidesStep(t0, t, s, sa, maxLen, h1, entropy, i, lo, j, hl, hr, c);
    SweepOkTrans(f0, f1, f2, s, sa, maxLen);
    WrittenRangeStep(f1, f2, s, sa, maxLen, i, lo, j);
    SidesOkTrans(hl0, hr0, hl1, hr1, hl2, hr2, s, sa, entropy);
    SidesRangeStep(hl1, hr1, hl2, hr2, s, sa, entropy, i, lo, j);
  }

  /** One length j + 1 of `WriteLengths`: the entropy of the right neighbours, and the
      node written with the interval's frequency. */
  method WriteLength(trie: FreqTries.SharedTrie, s: seq<nat>, sa: seq<nat>, maxLen: nat,
                     st: nat, i: nat, j: nat, hl: real, ghost h1: real, entropy: multiset<nat> -> real) returns (hr: real)
    requires forall k :: 0 <= k < |sa| ==> sa[k] <= |s|
    requires st < i < |sa| && NodeReady(s, sa, maxLen, st, i, j + 1, hl, h1, entropy)
    requires trie.Valid()
    modifies trie
    ensures trie.Valid() && SweepOk(old(trie.f), trie.f, s, sa, maxLen)
    ensures hr == entropy(RightSymbols(s, sa, j + 1, st, i + 1))
    ensures hl == SideAt(s, sa, i, j + 1, Left, h1, entropy) && hr == SideAt(s, sa, i, j + 1, Right, h1, entropy)
    ensures WrittenAt(trie.f, s, sa, maxLen, i, j + 1)
    ensures SidesOk(old(trie.hl), old(trie.hr), trie.hl, trie.hr, s, sa, entropy)
    ensures SidesAt(trie.hl, trie.hr, s, sa, i, j + 1, entropy)
  {
    var sp1r := RightCounts(s, sa, st, i, j + 1);
    hr := entropy(sp1r);
    var path := s[sa[i]..sa[i] + (j + 1)];
    ghost var f0, hl0, hr0 := trie.f, trie.hl, trie.hr;
    var node := trie.Insert(path);
    ghost var f1, hl1, hr1 := trie.f, trie.hl, trie.hr;
    assert SweepOk(f0, f1, s, sa, maxLen);
    assert SidesOk(hl0, hr0, hl1, hr1, s, sa, entropy);
    trie.SetCounters(node, Wrap(i - st + 1), hl, hr);
    SweepOkSet(f0, f1, s, sa, maxLen, path, Wrap(i - st + 1));
    SidesOkSet(hl0, hr0, hl1, hr1, s, sa, entropy, path, hl, hr);
  }

  /** What a popped interval `[st, i]` gives the string of length m at rank i: it occurs
      `i - st + 1` times, and hl and the entropy of the right neighbour counts are its
      neighbour entropies. */
  ghost predicate NodeReady(s: seq<nat>, sa: seq<nat>, maxLen: nat, st: nat, i: nat, m: nat,
                            hl: real, h1: real, entropy: multiset<nat> -> real)
    requires forall k :: 0 <= k < |sa| ==> sa[k] <= |s|
  {
    st <= i < |sa| && sa[i] + m <= |s|
    && Counted(s, sa, maxLen, s[sa[i]..sa[i] + m], Wrap(i - st + 1)) && CountAt(s, sa, i, m) == i - st + 1
    && hl == entropy(Neighbours(s, sa, s[sa[i]..sa[i] + m], Left, |sa|)) && hl == SideAt(s, sa, i, m, Left, h1, entropy)
    && entropy(RightSymbols(s, sa, m, st, i + 1)) == entropy(Neighbours(s, sa, s[sa[i]..sa[i] + m], Right, |sa|))
    && entropy(RightSymbols(s, sa, m, st, i + 1)) == SideAt(s, sa, i, m, Right, h1, entropy)
  }

  /** `NodeReady` for every length `lo + 1 .. hi` of the interval. */
  ghost predicate IntervalReady(s: seq<nat>, sa: seq<nat>, maxLen: nat, st: nat, i: nat, lo: nat, hi: nat,
                                hl: real, h1: real, entropy: multiset<nat> -> real)
    requires forall k :: 0 <= k < |sa| ==> sa[k] <= |s|
  {
    forall m :: lo < m <= hi ==> NodeReady(s, sa, maxLen, st, i, m, hl, h1, entropy)
  }

  /** A popped interval whose strings of lengths `lo + 1 .. hi` are shared by ranks
      `st .. i` and no others is ready for writing, with hl its left neighbour entropy. */
  lemma IntervalReadyFor(s: seq<nat>, sa: seq<nat>, lcpa: seq<nat>, maxLen: nat, st: nat, i: nat, lo: nat, hi: nat,
                         hl: real, h1: real, entropy: multiset<nat> -> real)
    requires Arrays(s, sa, lcpa) && st < i < |sa| && hi <= maxLen
    requires SharesFrom(lcpa, maxLen, st, i, hi)
    requires st > 0 ==> Clip(lcpa[st], maxLen) <= lo
    requires i + 1 < |sa| ==> Clip(lcpa[i + 1], maxLen) <= lo
    requires hl == entropy(LeftSymbols(s, sa, st, i + 1))
    ensures IntervalReady(s, sa, maxLen, st, i, lo, hi, hl, h1, entropy)
  {
    forall m | lo < m <= hi
      ensures NodeReady(s, sa, maxLen, st, i, m, hl, h1, entropy)
    {
      NodeReadyAt(s, sa, lcpa, maxLen, st, i, m, hl, h1, entropy);
    }
  }

  /** One length of `IntervalReadyFor`. */
  lemma NodeReadyAt(s: seq<nat>, sa: seq<nat>, lcpa: seq<nat>, maxLen: nat, st: nat, i: nat, m: nat,
                    hl: real, h1: real, entropy: multiset<nat> -> real)
    requires Arrays(s, sa, lcpa) && st < i < |sa| && 1 <= m <= maxLen
    requires SharesFrom(lcpa, maxLen, st, i, m)
    requires st > 0 ==> Clip(lcpa[st], maxLen) < m
    requires i + 1 < |sa| ==> Clip(lcpa[i + 1], maxLen) < m
    requires hl == entropy(LeftSymbols(s, sa, st, i + 1))
    ensures NodeReady(s, sa, maxLen, st, i, m, hl, h1, entropy)
  {
    IntervalCounted(s, sa, lcpa, maxLen, st, i, m);
    IntervalCount(s, sa, lcpa, maxLen, st, i, m);
    IntervalEntropies(s, sa, lcpa, maxLen, st, i, m, hl, h1, entropy);
  }

  /** The entropies of a popped interval's neighbour counts are those of the string of
      length m at rank i. */
  lemma IntervalEntropies(s: seq<nat>, sa: seq<nat>, lcpa: seq<nat>, maxLen: nat, st: nat, i: nat, m: nat,
                          hl: real, h1: real, entropy: multiset<nat> -> real)
    requires Arrays(s, sa, lcpa) && st < i < |sa| && 1 <= m <= maxLen
    requires SharesFrom(lcpa, maxLen, st, i, m)
    requires st > 0 ==> Clip(lcpa[st], maxLen) < m
    requires i + 1 < |sa| ==> Clip(lcpa[i + 1], maxLen) < m
    requires hl == entropy(LeftSymbols(s, sa, st, i + 1))
    ensures sa[i] + m <= |s|
    ensures hl == entropy(Neighbours(s, sa, s[sa[i]..sa[i] + m], Left, |sa|)) && hl == SideAt(s, sa, i, m, Left, h1, entropy)
    ensures var hr := entropy(RightSymbols(s, sa, m, st, i + 1));
      hr == entropy(Neighbours(s, sa, s[sa[i]..sa[i] + m], Right, |sa|)) && hr == SideAt(s, sa, i, m, Right, h1, entropy)
  {
    IntervalRanks(s, sa, lcpa, maxLen, st, i, m);
    IntervalSides(s, sa, st, i, m, h1, entropy);
  }

  /** Writing the entropies of a node's neighbours into it keeps `SidesOk`. */
  lemma SidesOkSet(hl0: map<seq<nat>, real>, hr0: map<seq<nat>, real>, hl1: map<seq<nat>, real>, hr1: map<seq<nat>, real>,
                   s: seq<nat>, sa: seq<nat>, entropy: multiset<nat> -> real, p: seq<nat>, a: real, b: real)
    requires forall k :: 0 <= k < |sa| ==> sa[k] <= |s|
    requires SidesOk(hl0, hr0, hl1, hr1, s, sa, entropy) && p in hl1 && p in hr1
    requires a == entropy(Neighbours(s, sa, p, Left, |sa|)) && b == entropy(Neighbours(s, sa, p, Right, |sa|))
    ensures SidesOk(hl0, hr0, hl1[p := a], hr1[p := b], s, sa, entropy)
    ensures Sided(hl1[p := a], hr1[p := b], s, sa, p, entropy)
  {
    var hl2, hr2 := hl1[p := a], hr1[p := b];
    forall q | q in hl2 && q in hr2
      ensures (q in hl0 && q in hr0 && hl2[q] == hl0[q] && hr2[q] == hr0[q])
              || (q !in hl0 && hl2[q] == 0.0 && hr2[q] == 0.0)
              || Sided(hl2, hr2, s, sa, q, entropy)
    {
      if q != p {
        assert q in hl1 && q in hr1;
      }
    }
  }

  /** The string of length m at rank i of a closed interval `[st, i]` occurs i - st + 1
      times. */
  lemma IntervalCounted(s: seq<nat>, sa: seq<nat>, lcpa: seq<nat>, maxLen: nat, st: nat, i: nat, m: nat)
    requires Arrays(s, sa, lcpa) && st < i < |sa| && 1 <= m <= maxLen
    requires SharesFrom(lcpa, maxLen, st, i, m)
    requires st > 0 ==> Clip(lcpa[st], maxLen) < m
    requires i + 1 < |sa| ==> Clip(lcpa[i + 1], maxLen) < m
    ensures sa[i] + m <= |s| && Counted(s, sa, maxLen, s[sa[i]..sa[i] + m], Wrap(i - st + 1))
  {
    IntervalRanks(s, sa, lcpa, maxLen, st, i, m);
    RankCountInterval(s, sa, s[sa[i]..sa[i] + m], st, i, |sa|);
  }

  /** The same count, as the totals take it. */
  lemma IntervalCount(s: seq<nat>, sa: seq<nat>, lcpa: seq<nat>, maxLen: nat, st: nat, i: nat, m: nat)
    requires Arrays(s, sa, lcpa) && st < i < |sa| && 1 <= m <= maxLen
    requires SharesFrom(lcpa, maxLen, st, i, m)
    requires st > 0 ==> Clip(lcpa[st], maxLen) < m
    requires i + 1 < |sa| ==> Clip(lcpa[i + 1], maxLen) < m
    ensures CountAt(s, sa, i, m) == i - st + 1
  {
    IntervalRanks(s, sa, lcpa, maxLen, st, i, m);
    RankCountInterval(s, sa, s[sa[i]..sa[i] + m], st, i, |sa|);
  }

  /** Writing a counted value into a node keeps `SweepOk`. */
  lemma SweepOkSet(f0: map<seq<nat>, nat>, f1: map<seq<nat>, nat>, s: seq<nat>, sa: seq<nat>, maxLen: nat, p: seq<nat>, v: nat)
    requires forall k :: 0 <= k < |sa| ==> sa[k] <= |s|
    requires SweepOk(f0, f1, s, sa, maxLen) && p in f1 && Counted(s, sa, maxLen, p, v)
    ensures SweepOk(f0, f1[p := v], s, sa, maxLen)
  {
  }

  /** The pop loop of `calc_avg` at rank i: every open interval longer than the next LCP
      is closed and its lengths written; an interval that still exceeds the one below is
      reopened with the shorter length. */
  method PopIntervals(trie: FreqTries.SharedTrie, s: seq<nat>, sa: seq<nat>, lcpa: seq<nat>, maxLen: nat,
                      i: nat, lcp: nat, stack0: seq<(nat, nat)>, t0: Averages.Totals,
                      ghost h1: real, entropy: multiset<nat> -> real) returns (stack: seq<(nat, nat)>, t: Averages.Totals)
    requires Arrays(s, sa, lcpa) && i < |sa|
    requires StackOk(stack0, lcpa, maxLen, i) && stack0[|stack0| - 1].1 == Clip(lcpa[i], maxLen)
    requires if i + 1 < |sa| then lcp == Clip(lcpa[i + 1], maxLen) else lcp == 0
    requires trie.Valid() && t0.Sized(maxLen)
    modifies trie
    ensures trie.Valid() && SweepOk(old(trie.f), trie.f, s, sa, maxLen)
    ensures t.Sized(maxLen)
    ensures StackOk(stack, lcpa, maxLen, i) && stack[|stack| - 1].1 <= lcp
    ensures stack == stack0 || stack[|stack| - 1].1 == lcp
    ensures AddedCounts(t0, t, s, sa, maxLen, i, lcp, Clip(lcpa[i], maxLen))
    ensures WrittenRange(trie.f, s, sa, maxLen, i, lcp, Clip(lcpa[i], maxLen))
    ensures SidesOk(old(trie.hl), old(trie.hr), trie.hl, trie.hr, s, sa, entropy)
    ensures AddedSides(t0, t, s, sa, maxLen, h1, entropy, i, lcp, Clip(lcpa[i], maxLen))
    ensures SidesRange(trie.hl, trie.hr, s, sa, i, lcp, Clip(lcpa[i], maxLen), entropy)
  {
    stack, t := stack0, t0;
    while lcp < stack[|stack| - 1].1
      invariant StackOk(stack, lcpa, maxLen, i) && stack[|stack| - 1].1 <= Clip(lcpa[i], maxLen)
      invariant stack == stack0 || stack[|stack| - 1].1 >= lcp
      invariant trie.Valid() && SweepOk(old(trie.f), trie.f, s, sa, maxLen)
      invariant AddedCounts(t0, t, s, sa, maxLen, i, stack[|stack| - 1].1, Clip(lcpa[i], maxLen))
      invariant WrittenRange(trie.f, s, sa, maxLen, i, stack[|stack| - 1].1, Clip(lcpa[i], maxLen))
      invariant SidesOk(old(trie.hl), old(trie.hr), trie.hl, trie.hr, s, sa, entropy)
      invariant AddedSides(t0, t, s, sa, maxLen, h1, entropy, i, stack[|stack| - 1].1, Clip(lcpa[i], maxLen))
      invariant SidesRange(trie.hl, trie.hr, s, sa, i, stack[|stack| - 1].1, Clip(lcpa[i], maxLen), entropy)
      decreases |stack|, stack[|stack| - 1].1
    {
      ghost var f1, hl1, hr1 := trie.f, trie.hl, trie.hr;
      stack, t := PopTop(trie, s, sa, lcpa, maxLen, i, lcp, stack, t0, t, h1, entropy);
      SweepOkTrans(old(trie.f), f1, trie.f, s, sa, maxLen);
      SidesOkTrans(old(trie.hl), old(trie.hr), hl1, hr1, trie.hl, trie.hr, s, sa, entropy);
    }
    if stack == stack0 {
      assert AddedCounts(t0, t, s, sa, maxLen, i, lcp, Clip(lcpa[i], maxLen));
      assert AddedSides(t0, t, s, sa, maxLen, h1, entropy, i, lcp, Clip(lcpa[i], maxLen));
    }
  }

  /** One pass of the pop loop: the top interval is popped, reopened with the length lcp if
      that still exceeds the interval below, and its lengths above the new top are written. */
  method PopTop(trie: FreqTries.SharedTrie, s: seq<nat>, sa: seq<nat>, lcpa: seq<nat>, maxLen: nat,
                i: nat, lcp: nat, stack0: seq<(nat, nat)>, ghost t0: Averages.Totals, t1: Averages.Totals,
                ghost h1: real, entropy: multiset<nat> -> real) returns (stack: seq<(nat, nat)>, t: Averages.Totals)
    requires Arrays(s, sa, lcpa) && i < |sa|
    requires if i + 1 < |sa| then lcp == Clip(lcpa[i + 1], maxLen) else lcp == 0
    requires StackOk(stack0, lcpa, maxLen, i) && lcp < stack0[|stack0| - 1].1 <= Clip(lcpa[i], maxLen)
    requires trie.Valid()
    requires AddedCounts(t0, t1, s, sa, maxLen, i, stack0[|stack0| - 1].1, Clip(lcpa[i], maxLen))
    requires WrittenRange(trie.f, s, sa, maxLen, i, stack0[|stack0| - 1].1, Clip(lcpa[i], maxLen))
    requires AddedSides(t0, t1, s, sa, maxLen, h1, entropy, i, stack0[|stack0| - 1].1, Clip(lcpa[i], maxLen))
    requires SidesRange(trie.hl, trie.hr, s, sa, i, stack0[|stack0| - 1].1, Clip(lcpa[i], maxLen), entropy)
    modifies trie
    ensures StackOk(stack, lcpa, maxLen, i) && lcp <= stack[|stack| - 1].1 < stack0[|stack0| - 1].1
    ensures |stack| < |stack0| || (|stack| == |stack0| && stack[|stack| - 1].1 == lcp)
    ensures trie.Valid() && SweepOk(old(trie.f), trie.f, s, sa, maxLen)
    ensures AddedCounts(t0, t, s, sa, maxLen, i, stack[|stack| - 1].1, Clip(lcpa[i], maxLen))
    ensures WrittenRange(trie.f, s, sa, maxLen, i, stack[|stack| - 1].1, Clip(lcpa[i], maxLen))
    ensures SidesOk(old(trie.hl), old(trie.hr), trie.hl, trie.hr, s, sa, entropy)
    ensures AddedSides(t0, t, s, sa, maxLen, h1, entropy, i, stack[|stack| - 1].1, Clip(lcpa[i], maxLen))
    ensures SidesRange(trie.hl, trie.hr, s, sa, i, stack[|stack| - 1].1, Clip(lcpa[i], maxLen), entropy)
  {
    var top := stack0[|stack0| - 1];
    if |stack0| == 1 {
      assert false;
    }
    StackPop(stack0, lcpa, maxLen, i, lcp);
    stack := stack0[..|stack0| - 1];
    if lcp > stack[|stack| - 1].1 {
      stack := stack + [(top.0, lcp)];
    }
    t := CloseInterval(trie, s, sa, lcpa, maxLen, top.0, i, stack[|stack| - 1].1, top.1, Clip(lcpa[i], maxLen), t0, t1, h1, entropy);
  }

  /** One popped interval `[st, i]` of `PopIntervals`: the left entropy of its strings,
      and its lengths `lo + 1 .. hi` written on top of the longer ones already closed at i. */
  method CloseInterval(trie: FreqTries.SharedTrie, s: seq<nat>, sa: seq<nat>, lcpa: seq<nat>, maxLen: nat,
                       st: nat, i: nat, lo: nat, hi: nat, top: nat, ghost t0: Averages.Totals,
                       t1: Averages.Totals, ghost h1: real, entropy: multiset<nat> -> real) returns (t: Averages.Totals)
    requires Arrays(s, sa, lcpa) && st < i < |sa| && lo <= hi <= top <= maxLen
    requires SharesFrom(lcpa, maxLen, st, i, hi)
    requires st > 0 ==> Clip(lcpa[st], maxLen) <= lo
    requires i + 1 < |sa| ==> Clip(lcpa[i + 1], maxLen) <= lo
    requires trie.Valid() && t1.Sized(maxLen)
    requires AddedCounts(t0, t1, s, sa, maxLen, i, hi, top) && WrittenRange(trie.f, s, sa, maxLen, i, hi, top)
    requires AddedSides(t0, t1, s, sa, maxLen, h1, entropy, i, hi, top) && SidesRange(trie.hl, trie.hr, s, sa, i, hi, top, entropy)
    modifies trie
    ensures trie.Valid() && SweepOk(old(trie.f), trie.f, s, sa, maxLen)
    ensures AddedCounts(t0, t, s, sa, maxLen, i, lo, top) && WrittenRange(trie.f, s, sa, maxLen, i, lo, top)
    ensures SidesOk(old(trie.hl), old(trie.hr), trie.hl, trie.hr, s, sa, entropy)
    ensures AddedSides(t0, t, s, sa, maxLen, h1, entropy, i, lo, top) && SidesRange(trie.hl, trie.hr, s, sa, i, lo, top, entropy)
  {
    var sp1l := LeftCounts(s, sa, st, i);
    var hl := entropy(sp1l);
    IntervalReadyFor(s, sa, lcpa, maxLen, st, i, lo, hi, hl, h1, entropy);
    t := WriteLengths(trie, s, sa, lcpa, maxLen, st, i, lo, hi, hl, t1, h1, entropy);
    AddedCountsJoin(t0, t1, t, s, sa, maxLen, i, lo, hi, top, i - st + 1);
    WrittenRangeJoin(old(trie.f), trie.f, s, sa, maxLen, i, lo, hi, top);
    AddedSidesJoin(t0, t1, t, s, sa, maxLen, h1, entropy, i, lo, hi, top);
    SidesRangeJoin(old(trie.hl), old(trie.hr), trie.hl, trie.hr, s, sa, entropy, i, lo, hi, top);
  }

  /** The rank loop of `calc_avg`: from a zero table, every rank adds the lengths only
      its suffix has (the singletons), closes the LCP intervals the next LCP ends, and opens
      the one it starts; a rank whose successor starts with a boundary is skipped. Every
      trie node it writes ends up holding the exact occurrence count of its string. */
  method SweepIntervals(trie: FreqTries.SharedTrie, s: seq<nat>, sa: seq<nat>, lcpa: seq<nat>, maxLen: nat,
                        h1: real, entropy: multiset<nat> -> real) returns (t: Averages.Totals)
    requires Arrays(s, sa, lcpa) && trie.Valid()
    modifies trie
    ensures trie.Valid() && SweepOk(old(trie.f), trie.f, s, sa, maxLen)
    ensures Tallied(t, s, maxLen) && Complete(trie.f, s, sa, maxLen)
    ensures SidesOk(old(trie.hl), old(trie.hr), trie.hl, trie.hr, s, sa, entropy)
    ensures TalliedSides(t, s, sa, maxLen, h1, entropy) && CompleteSides(trie.hl, trie.hr, s, sa, maxLen, entropy)
  {
    t := Averages.Totals(seq(maxLen, _ => 0.0), seq(maxLen, _ => 0.0), seq(maxLen, _ => 0.0), seq(maxLen, _ => 0));
    var stack: seq<(nat, nat)> := [(0, 0)];
    var n := |sa|;
    var prevLcp: nat := 0;
    var i := 0;
    while i < n
      invariant i <= n
      invariant trie.Valid() && SweepOk(old(trie.f), trie.f, s, sa, maxLen)
      invariant TotalsBelow(t, s, sa, lcpa, maxLen, i) && NodesBelow(trie.f, s, sa, lcpa, maxLen, i)
      invariant SidesOk(old(trie.hl), old(trie.hr), trie.hl, trie.hr, s, sa, entropy)
      invariant SidesBelow(t, s, sa, lcpa, maxLen, h1, entropy, i) && SideNodesBelow(trie.hl, trie.hr, s, sa, lcpa, maxLen, entropy, i)
      invariant i < n ==> StackOk(stack, lcpa, maxLen, i) && stack[|stack| - 1].1 == prevLcp == Clip(lcpa[i], maxLen)
    {
      ghost var f1, hl1, hr1 := trie.f, trie.hl, trie.hr;
      stack, t, prevLcp := SweepRank(trie, s, sa, lcpa, maxLen, h1, entropy, i, prevLcp, stack, t);
      SweepOkTrans(old(trie.f), f1, trie.f, s, sa, maxLen);
      SidesOkTrans(old(trie.hl), old(trie.hr), hl1, hr1, trie.hl, trie.hr, s, sa, entropy);
      i := i + 1;
    }
    SweepTallied(t, s, sa, lcpa, maxLen);
    NodesComplete(trie.f, s, sa, lcpa, maxLen);
    SweepSidesTallied(t, s, sa, lcpa, maxLen, h1, entropy);
    SidesComplete(trie.hl, trie.hr, s, sa, lcpa, maxLen, entropy);
  }

  /** One pass of the rank loop: rank i is skipped when the suffix after it starts with a
      boundary, and counted otherwise. */
  method SweepRank(trie: FreqTries.SharedTrie, s: seq<nat>, sa: seq<nat>, lcpa: seq<nat>, maxLen: nat,
                   h1: real, entropy: multiset<nat> -> real, i: nat, prevLcp: nat,
                   stack0: seq<(nat, nat)>, t0: Averages.Totals) returns (stack: seq<(nat, nat)>, t: Averages.Totals, lcp: nat)
    requires Arrays(s, sa, lcpa) && i < |sa| && trie.Valid()
    requires TotalsBelow(t0, s, sa, lcpa, maxLen, i) && NodesBelow(trie.f, s, sa, lcpa, maxLen, i)
    requires SidesBelow(t0, s, sa, lcpa, maxLen, h1, entropy, i) && SideNodesBelow(trie.hl, trie.hr, s, sa, lcpa, maxLen, entropy, i)
    requires StackOk(stack0, lcpa, maxLen, i) && stack0[|stack0| - 1].1 == prevLcp == Clip(lcpa[i], maxLen)
    modifies trie
    ensures trie.Valid() && SweepOk(old(trie.f), trie.f, s, sa, maxLen)
    ensures TotalsBelow(t, s, sa, lcpa, maxLen, i + 1) && NodesBelow(trie.f, s, sa, lcpa, maxLen, i + 1)
    ensures SidesOk(old(trie.hl), old(trie.hr), trie.hl, trie.hr, s, sa, entropy)
    ensures SidesBelow(t, s, sa, lcpa, maxLen, h1, entropy, i + 1) && SideNodesBelow(trie.hl, trie.hr, s, sa, lcpa, maxLen, entropy, i + 1)
    ensures i + 1 < |sa| ==> StackOk(stack, lcpa, maxLen, i + 1) && stack[|stack| - 1].1 == lcp == Clip(lcpa[i + 1], maxLen)
  {
    lcp := 0;
    if i + 1 < |sa| {
      if s[sa[i + 1]] == EncStr.Boundary {
        SkipStep(s, sa, lcpa, maxLen, i, stack0);
        SkipBelow(t0, trie.f, s, sa, lcpa, maxLen, i);
        SkipSides(t0, trie.hl, trie.hr, s, sa, lcpa, maxLen, h1, entropy, i);
        return stack0, t0, 0;
      }
      lcp := Clip(lcpa[i + 1], maxLen);
    }
    stack, t := RankStep(trie, s, sa, lcpa, maxLen, h1, entropy, i, lcp, prevLcp, stack0, t0);
    RankBelow(t0, t, old(trie.f), trie.f, s, sa, lcpa, maxLen, i);
    RankSidesBelow(t0, t, old(trie.hl), old(trie.hr), trie.hl, trie.hr, s, sa, lcpa, maxLen, h1, entropy, i);
  }

  /** One rank of the sweep that is not skipped. */
  method RankStep(trie: FreqTries.SharedTrie, s: seq<nat>, sa: seq<nat>, lcpa: seq<nat>, maxLen: nat,
                  h1: real, entropy: multiset<nat> -> real, i: nat, lcp: nat, prevLcp: nat,
                  stack0: seq<(nat, nat)>, t0: Averages.Totals) returns (stack: seq<(nat, nat)>, t: Averages.Totals)
    requires Arrays(s, sa, lcpa) && i < |sa| && trie.Valid() && t0.Sized(maxLen)
    requires StackOk(stack0, lcpa, maxLen, i) && stack0[|stack0| - 1].1 == prevLcp == Clip(lcpa[i], maxLen)
    requires if i + 1 < |sa| then lcp == Clip(lcpa[i + 1], maxLen) else lcp == 0
    modifies trie
    ensures trie.Valid() && SweepOk(old(trie.f), trie.f, s, sa, maxLen) && t.Sized(maxLen)
    ensures StackOk(stack, lcpa, maxLen, i + 1) && stack[|stack| - 1].1 == lcp
    ensures RankAdded(t0, t, s, sa, lcpa, maxLen, i) && RankWritten(trie.f, s, sa, lcpa, maxLen, i)
    ensures SidesOk(old(trie.hl), old(trie.hr), trie.hl, trie.hr, s, sa, entropy)
    ensures RankSides(t0, t, s, sa, lcpa, maxLen, h1, entropy, i) && RankSidesWritten(trie.hl, trie.hr, s, sa, lcpa, maxLen, entropy, i)
  {
    var j0 := if lcp < prevLcp then prevLcp else lcp;
    SingletonStart(s, sa, lcpa, maxLen, i);
    var t1 := Singletons(s, sa[i], j0, maxLen, h1, t0);
    stack, t := PopIntervals(trie, s, sa, lcpa, maxLen, i, lcp, stack0, t1, h1, entropy);
    RankJoin(t0, t1, t, trie.f, trie.hl, trie.hr, s, sa, lcpa, maxLen, h1, entropy, i, lcp, j0);
    StackAdvance(stack, lcpa, maxLen, i, lcp);
    if lcp > stack[|stack| - 1].1 {
      StackPush(stack, lcpa, maxLen, i, lcp);
      var interval: (nat, nat) := (i, lcp);
      stack := stack + [interval];
    }
  }

  /** The singletons and the pops of rank i together add and write what rank i emits. */
  lemma RankJoin(t0: Averages.Totals, t1: Averages.Totals, t: Averages.Totals, f: map<seq<nat>, nat>,
                 hl: map<seq<nat>, real>, hr: map<seq<nat>, real>, s: seq<nat>, sa: seq<nat>, lcpa: seq<nat>,
                 maxLen: nat, h1: real, entropy: multiset<nat> -> real, i: nat, lcp: nat, j0: nat)
    requires Arrays(s, sa, lcpa) && i < |sa| && t0.Sized(maxLen) && t1.Sized(maxLen)
    requires if i + 1 < |sa| then lcp == Clip(lcpa[i + 1], maxLen) else lcp == 0
    requires j0 == if lcp < Clip(lcpa[i], maxLen) then Clip(lcpa[i], maxLen) else lcp
    requires sa[i] < |s|
    requires forall j :: 0 <= j < maxLen ==>
               var hit := j0 <= j < NextBoundary(s, sa[i]) - sa[i];
               && t1.nums[j] == t0.nums[j] + (if hit then 1 else 0)
               && t1.f[j] == t0.f[j] + (if hit then 1.0 else 0.0)
               && t1.hl[j] == t0.hl[j] + (if hit then h1 else 0.0)
               && t1.hr[j] == t0.hr[j] + (if hit then h1 else 0.0)
    requires AddedCounts(t1, t, s, sa, maxLen, i, lcp, Clip(lcpa[i], maxLen))
    requires WrittenRange(f, s, sa, maxLen, i, lcp, Clip(lcpa[i], maxLen))
    requires AddedSides(t1, t, s, sa, maxLen, h1, entropy, i, lcp, Clip(lcpa[i], maxLen))
    requires SidesRange(hl, hr, s, sa, i, lcp, Clip(lcpa[i], maxLen), entropy)
    ensures RankAdded(t0, t, s, sa, lcpa, maxLen, i) && RankWritten(f, s, sa, lcpa, maxLen, i)
    ensures RankSides(t0, t, s, sa, lcpa, maxLen, h1, entropy, i) && RankSidesWritten(hl, hr, s, sa, lcpa, maxLen, entropy, i)
  {
    assert NextLcp(lcpa, maxLen, i) == lcp;
    RankAddedJoin(t0, t1, t, s, sa, lcpa, maxLen, i);
    RankWrittenFrom(f, s, sa, lcpa, maxLen, i);
    RankSidesJoin(t0, t1, t, s, sa, lcpa, maxLen, h1, entropy, i);
    RankSidesFrom(hl, hr, s, sa, lcpa, maxLen, entropy, i);
  }

  /** The singleton loop of rank i starts within the run of its suffix: neither LCP with a
      neighbour reaches past the next boundary. */
  lemma SingletonStart(s: seq<nat>, sa: seq<nat>, lcpa: seq<nat>, maxLen: nat, i: nat)
    requires Arrays(s, sa, lcpa) && i < |sa|
    ensures sa[i] < |s| && NextBoundary(s, sa[i]) < |s|
    ensures sa[i] + Clip(lcpa[i], maxLen) <= NextBoundary(s, sa[i])
    ensures i + 1 < |sa| ==> sa[i] + Clip(lcpa[i + 1], maxLen) <= NextBoundary(s, sa[i])
  {
    BoundaryAhead(s, sa[i]);
    if i > 0 {
      assert LcpAt(s, sa, lcpa, i);
      Lcp0WithinRun(s, sa[i], s[sa[i - 1]..]);
    }
    if i + 1 < |sa| {
      assert LcpAt(s, sa, lcpa, i + 1);
      Lcp0WithinRun(s, sa[i], s[sa[i + 1]..]);
    }
  }

  // -----------------------------------------------------------------------------------------
  // What the sweep counts

  /** The clipped LCP of rank i with the rank after it; 0 at the last rank. */
  function NextLcp(lcpa: seq<nat>, maxLen: nat, i: nat): nat
  {
    if i + 1 < |lcpa| then Clip(lcpa[i + 1], maxLen) else 0
  }

  /** The string of length m that the suffix at rank i starts with lies before the next
      boundary. */
  ghost predicate Fits(s: seq<nat>, sa: seq<nat>, i: nat, m: nat)
  {
    i < |sa| && sa[i] <= |s| && sa[i] + m <= NextBoundary(s, sa[i])
  }

  /** The sweep counts the string of length j + 1 at rank i: it lies before the next
      boundary, it is no longer than `maxLen`, and no later rank starts with it. */
  ghost predicate Emits(s: seq<nat>, sa: seq<nat>, lcpa: seq<nat>, maxLen: nat, i: nat, j: nat)
  {
    Fits(s, sa, i, j + 1) && NextLcp(lcpa, maxLen, i) <= j < maxLen
  }

  /** The sweep writes the trie node of the string of length j + 1 at rank i: it counts the
      string there and the rank before shares it. */
  ghost predicate Closes(s: seq<nat>, sa: seq<nat>, lcpa: seq<nat>, maxLen: nat, i: nat, j: nat)
  {
    Emits(s, sa, lcpa, maxLen, i, j) && i < |lcpa| && j < Clip(lcpa[i], maxLen)
  }

  /** The occurrences of the string of length m at rank i (0 past the end of the text). */
  ghost function CountAt(s: seq<nat>, sa: seq<nat>, i: nat, m: nat): nat
    requires forall k :: 0 <= k < |sa| ==> sa[k] <= |s|
  {
    if i < |sa| && sa[i] + m <= |s| then RankCount(s, sa, s[sa[i]..sa[i] + m], |sa|) else 0
  }

  /** What rank i adds to the frequency total of length j + 1. */
  ghost function EmitCount(s: seq<nat>, sa: seq<nat>, lcpa: seq<nat>, maxLen: nat, i: nat, j: nat): nat
    requires forall k :: 0 <= k < |sa| ==> sa[k] <= |s|
  {
    if Emits(s, sa, lcpa, maxLen, i, j) then CountAt(s, sa, i, j + 1) else 0
  }

  /** The strings of length j + 1 the ranks below hi count. */
  ghost function NumsBelow(s: seq<nat>, sa: seq<nat>, lcpa: seq<nat>, maxLen: nat, hi: nat, j: nat): nat
  {
    if hi == 0 then 0 else NumsBelow(s, sa, lcpa, maxLen, hi - 1, j) + (if Emits(s, sa, lcpa, maxLen, hi - 1, j) then 1 else 0)
  }

  /** Their occurrences. */
  ghost function FreqBelow(s: seq<nat>, sa: seq<nat>, lcpa: seq<nat>, maxLen: nat, hi: nat, j: nat): nat
    requires forall k :: 0 <= k < |sa| ==> sa[k] <= |s|
  {
    if hi == 0 then 0 else FreqBelow(s, sa, lcpa, maxLen, hi - 1, j) + EmitCount(s, sa, lcpa, maxLen, hi - 1, j)
  }

  /** The totals after the ranks below hi. */
  ghost predicate TotalsBelow(t: Averages.Totals, s: seq<nat>, sa: seq<nat>, lcpa: seq<nat>, maxLen: nat, hi: nat)
    requires forall k :: 0 <= k < |sa| ==> sa[k] <= |s|
  {
    t.Sized(maxLen)
    && forall j :: 0 <= j < maxLen ==>
         t.nums[j] == NumsBelow(s, sa, lcpa, maxLen, hi, j) && t.f[j] == FreqBelow(s, sa, lcpa, maxLen, hi, j) as real
  }

  /** The node of the string of length m at rank i holds its occurrence count. */
  ghost predicate WrittenAt(f: map<seq<nat>, nat>, s: seq<nat>, sa: seq<nat>, maxLen: nat, i: nat, m: nat)
    requires forall k :: 0 <= k < |sa| ==> sa[k] <= |s|
  {
    i < |sa| && sa[i] + m <= |s| && s[sa[i]..sa[i] + m] in f && Counted(s, sa, maxLen, s[sa[i]..sa[i] + m], f[s[sa[i]..sa[i] + m]])
  }

  /** The nodes the ranks below hi write. */
  ghost predicate NodesBelow(f: map<seq<nat>, nat>, s: seq<nat>, sa: seq<nat>, lcpa: seq<nat>, maxLen: nat, hi: nat)
    requires forall k :: 0 <= k < |sa| ==> sa[k] <= |s|
  {
    forall r: nat, j: nat :: r < hi && Closes(s, sa, lcpa, maxLen, r, j) ==> WrittenAt(f, s, sa, maxLen, r, j + 1)
  }

  /** Every repeated boundary-free substring of length 1 to `maxLen` has a node holding its
      occurrence count. */
  ghost predicate Complete(f: map<seq<nat>, nat>, s: seq<nat>, sa: seq<nat>, maxLen: nat)
    requires forall k :: 0 <= k < |sa| ==> sa[k] <= |s|
  {
    forall p: nat, m: nat :: 1 <= m <= maxLen && p + m <= |s| && Recurs(s, p, m) ==>
      s[p..p + m] in f && Counted(s, sa, maxLen, s[p..p + m], f[s[p..p + m]])
  }

  /** Every repeated boundary-free substring of length 1 to `maxLen` has a node. */
  ghost predicate HasNodes(f: map<seq<nat>, nat>, s: seq<nat>, maxLen: nat)
  {
    forall p: nat, m: nat :: 1 <= m <= maxLen && p + m <= |s| && Recurs(s, p, m) ==> s[p..p + m] in f
  }

  /** The distinct boundary-free substrings of length m. */
  ghost function DistinctOf(s: seq<nat>, m: nat): set<seq<nat>>
  {
    set p | 0 <= p < |s| && p + m <= NextBoundary(s, p) :: s[p..p + m]
  }

  /** The positions where a boundary-free substring of length m starts. */
  ghost function Occurrences(s: seq<nat>, m: nat): set<nat>
  {
    set p | 0 <= p < |s| && p + m <= NextBoundary(s, p)
  }

  /** Complete nodes are in particular present. */
  lemma CompleteHasNodes(f: map<seq<nat>, nat>, s: seq<nat>, sa: seq<nat>, maxLen: nat)
    requires forall k :: 0 <= k < |sa| ==> sa[k] <= |s|
    requires Complete(f, s, sa, maxLen)
    ensures HasNodes(f, s, maxLen)
  {
  }

  /** A boundary-free stretch lies before the next boundary. */
  lemma RunCovers(s: seq<nat>, p: nat, m: nat)
    requires p + m <= |s| && forall k :: p <= k < p + m ==> s[k] != 0
    ensures p + m <= NextBoundary(s, p)
  {
  }

  /** A counted node keeps its counter through any later writes of the sweep. */
  lemma WrittenKept(f1: map<seq<nat>, nat>, f2: map<seq<nat>, nat>, s: seq<nat>, sa: seq<nat>, maxLen: nat)
    requires forall k :: 0 <= k < |sa| ==> sa[k] <= |s|
    requires SweepOk(f1, f2, s, sa, maxLen)
    ensures forall i: nat, m: nat :: WrittenAt(f1, s, sa, maxLen, i, m) ==> WrittenAt(f2, s, sa, maxLen, i, m)
  {
    forall i: nat, m: nat | WrittenAt(f1, s, sa, maxLen, i, m)
      ensures WrittenAt(f2, s, sa, maxLen, i, m)
    {
      var p := s[sa[i]..sa[i] + m];
      assert p in f2;
    }
  }

  /** A string of length m past both neighbours' LCPs occurs once. */
  lemma SingletonCount(s: seq<nat>, sa: seq<nat>, lcpa: seq<nat>, maxLen: nat, i: nat, m: nat)
    requires Arrays(s, sa, lcpa) && i < |sa| && 1 <= m <= maxLen
    requires sa[i] + m <= NextBoundary(s, sa[i])
    requires Clip(lcpa[i], maxLen) < m && NextLcp(lcpa, maxLen, i) < m
    ensures CountAt(s, sa, i, m) == 1
  {
    var t := s[sa[i]..sa[i] + m];
    assert s[sa[i]..][..m] == t;
    forall q | 0 <= q < |sa|
      ensures i <= q <= i <==> IsPrefix(t, s[sa[q]..])
    {
      if q > i {
        IntervalAbove(s, sa, lcpa, maxLen, i, m, q);
      } else if q < i {
        IntervalBelow(s, sa, lcpa, maxLen, i, m, q, t);
      }
    }
    RankCountInterval(s, sa, t, i, i, |sa|);
  }

  /** Two ranks that count strings of the same length count different strings. */
  lemma EmitsUnique(s: seq<nat>, sa: seq<nat>, lcpa: seq<nat>, maxLen: nat, a: nat, b: nat, j: nat)
    requires Arrays(s, sa, lcpa) && a < b
    requires Emits(s, sa, lcpa, maxLen, a, j) && Emits(s, sa, lcpa, maxLen, b, j)
    ensures s[sa[a]..sa[a] + j + 1] != s[sa[b]..sa[b] + j + 1]
  {
    IntervalAbove(s, sa, lcpa, maxLen, a, j + 1, b);
    assert s[sa[b]..][..j + 1] == s[sa[b]..sa[b] + j + 1];
  }

  /** From a rank whose suffix starts with a boundary-free string of length m, the ranks
      above that share it lead to one that counts it. */
  lemma {:induction false} LastRank(s: seq<nat>, sa: seq<nat>, lcpa: seq<nat>, maxLen: nat, k: nat, m: nat) returns (r: nat)
    requires Arrays(s, sa, lcpa) && 1 <= m <= maxLen && Fits(s, sa, k, m)
    ensures k <= r && Emits(s, sa, lcpa, maxLen, r, m - 1)
    ensures s[sa[r]..sa[r] + m] == s[sa[k]..sa[k] + m]
    decreases |sa| - k
  {
    if k + 1 < |sa| && Clip(lcpa[k + 1], maxLen) >= m {
      ShareNext(s, sa, lcpa, maxLen, k, m);
      r := LastRank(s, sa, lcpa, maxLen, k + 1, m);
    } else {
      r := k;
    }
  }

  /** One step of `LastRank`: the next rank shares the string when its LCP reaches m. */
  lemma ShareNext(s: seq<nat>, sa: seq<nat>, lcpa: seq<nat>, maxLen: nat, k: nat, m: nat)
    requires Arrays(s, sa, lcpa) && 1 <= m <= maxLen && Fits(s, sa, k, m)
    requires k + 1 < |sa| && Clip(lcpa[k + 1], maxLen) >= m
    ensures Fits(s, sa, k + 1, m) && s[sa[k + 1]..sa[k + 1] + m] == s[sa[k]..sa[k] + m]
  {
    assert LcpAt(s, sa, lcpa, k + 1);
    Lcp0AtLeast(s[sa[k + 1]..], s[sa[k]..], m);
    assert s[sa[k + 1]..][..m] == s[sa[k + 1]..sa[k + 1] + m];
    assert s[sa[k]..][..m] == s[sa[k]..sa[k] + m];
    RunCovers(s, sa[k + 1], m);
  }

  /** A lower rank sharing the string of length m at rank r makes the LCP at r at least m. */
  lemma LcpFromBelow(s: seq<nat>, sa: seq<nat>, lcpa: seq<nat>, q: nat, r: nat, m: nat)
    requires Arrays(s, sa, lcpa) && q < r < |sa| && sa[r] + m <= |s|
    requires forall k :: sa[r] <= k < sa[r] + m ==> s[k] != 0
    requires IsPrefix(s[sa[r]..sa[r] + m], s[sa[q]..])
    ensures lcpa[r] >= m
  {
    assert LcpAt(s, sa, lcpa, r);
    assert s[sa[r]..][..m] == s[sa[r]..sa[r] + m];
    Lcp0AtLeast(s[sa[r]..], s[sa[q]..], m);
    if q < r - 1 {
      assert RankLess(s, sa, q, r - 1) && RankLess(s, sa, r - 1, r);
      Lcp0Sandwich(s[sa[q]..], s[sa[r - 1]..], s[sa[r]..]);
    }
  }

  /** The nodes the whole sweep writes cover every repeated substring. */
  lemma NodesComplete(f: map<seq<nat>, nat>, s: seq<nat>, sa: seq<nat>, lcpa: seq<nat>, maxLen: nat)
    requires Arrays(s, sa, lcpa) && NodesBelow(f, s, sa, lcpa, maxLen, |sa|)
    ensures Complete(f, s, sa, maxLen)
  {
    forall p: nat, m: nat | 1 <= m <= maxLen && p + m <= |s| && Recurs(s, p, m)
      ensures s[p..p + m] in f && Counted(s, sa, maxLen, s[p..p + m], f[s[p..p + m]])
    {
      RecurringNode(f, s, sa, lcpa, maxLen, p, m);
    }
  }

  /** What rank i adds to the totals: one string and its occurrence count at every length
      it counts. */
  ghost predicate RankAdded(t0: Averages.Totals, t: Averages.Totals, s: seq<nat>, sa: seq<nat>, lcpa: seq<nat>, maxLen: nat, i: nat)
    requires forall k :: 0 <= k < |sa| ==> sa[k] <= |s|
  {
    t0.Sized(maxLen) && t.Sized(maxLen)
    && forall j :: 0 <= j < maxLen ==>
         t.nums[j] == t0.nums[j] + (if Emits(s, sa, lcpa, maxLen, i, j) then 1 else 0)
         && t.f[j] == t0.f[j] + EmitCount(s, sa, lcpa, maxLen, i, j) as real
  }

  /** The nodes rank i writes. */
  ghost predicate RankWritten(f: map<seq<nat>, nat>, s: seq<nat>, sa: seq<nat>, lcpa: seq<nat>, maxLen: nat, i: nat)
    requires forall k :: 0 <= k < |sa| ==> sa[k] <= |s|
  {
    forall j: nat :: Closes(s, sa, lcpa, maxLen, i, j) ==> WrittenAt(f, s, sa, maxLen, i, j + 1)
  }

  /** The per-length totals of the whole sweep: `nums[j]` is the number of distinct
      boundary-free substrings of length j + 1, `f[j]` the number of their occurrences. */
  ghost predicate Tallied(t: Averages.Totals, s: seq<nat>, maxLen: nat)
  {
    t.Sized(maxLen)
    && forall j :: 0 <= j < maxLen ==> t.nums[j] == |DistinctOf(s, j + 1)| && t.f[j] == |Occurrences(s, j + 1)| as real
  }

  /** The singletons of rank i and its closed intervals add exactly what the rank counts. */
  lemma RankAddedJoin(t0: Averages.Totals, t1: Averages.Totals, t: Averages.Totals, s: seq<nat>, sa: seq<nat>,
                      lcpa: seq<nat>, maxLen: nat, i: nat)
    requires Arrays(s, sa, lcpa) && i < |sa| && t0.Sized(maxLen) && t1.Sized(maxLen)
    requires forall j :: 0 <= j < maxLen ==>
               var hit := Clip(lcpa[i], maxLen) <= j && NextLcp(lcpa, maxLen, i) <= j && j < NextBoundary(s, sa[i]) - sa[i];
               && t1.nums[j] == t0.nums[j] + (if hit then 1 else 0)
               && t1.f[j] == t0.f[j] + (if hit then 1.0 else 0.0)
    requires AddedCounts(t1, t, s, sa, maxLen, i, NextLcp(lcpa, maxLen, i), Clip(lcpa[i], maxLen))
    ensures RankAdded(t0, t, s, sa, lcpa, maxLen, i)
  {
    SingletonStart(s, sa, lcpa, maxLen, i);
    forall j | 0 <= j < maxLen
      ensures t.nums[j] == t0.nums[j] + (if Emits(s, sa, lcpa, maxLen, i, j) then 1 else 0)
      ensures t.f[j] == t0.f[j] + EmitCount(s, sa, lcpa, maxLen, i, j) as real
    {
      if Clip(lcpa[i], maxLen) <= j && Emits(s, sa, lcpa, maxLen, i, j) {
        SingletonCount(s, sa, lcpa, maxLen, i, j + 1);
      }
    }
  }

  /** Rank i writes the lengths its pops cover, which are the ones it closes. */
  lemma RankWrittenFrom(f: map<seq<nat>, nat>, s: seq<nat>, sa: seq<nat>, lcpa: seq<nat>, maxLen: nat, i: nat)
    requires Arrays(s, sa, lcpa) && i < |sa|
    requires WrittenRange(f, s, sa, maxLen, i, NextLcp(lcpa, maxLen, i), Clip(lcpa[i], maxLen))
    ensures RankWritten(f, s, sa, lcpa, maxLen, i)
  {
    forall j: nat | Closes(s, sa, lcpa, maxLen, i, j)
      ensures WrittenAt(f, s, sa, maxLen, i, j + 1)
    {
    }
  }

  /** A rank whose suffix starts with a boundary counts nothing and writes nothing. */
  lemma SkipBelow(t: Averages.Totals, f: map<seq<nat>, nat>, s: seq<nat>, sa: seq<nat>, lcpa: seq<nat>, maxLen: nat, i: nat)
    requires Arrays(s, sa, lcpa) && i < |sa| && sa[i] < |s| && s[sa[i]] == 0
    requires TotalsBelow(t, s, sa, lcpa, maxLen, i) && NodesBelow(f, s, sa, lcpa, maxLen, i)
    ensures TotalsBelow(t, s, sa, lcpa, maxLen, i + 1) && NodesBelow(f, s, sa, lcpa, maxLen, i + 1)
  {
    assert NextBoundary(s, sa[i]) == sa[i];
    forall j | 0 <= j < maxLen
      ensures !Emits(s, sa, lcpa, maxLen, i, j)
    {
    }
  }

  /** One counted rank moves the sweep's totals and nodes on to the ranks below i + 1. */
  lemma RankBelow(t0: Averages.Totals, t: Averages.Totals, f0: map<seq<nat>, nat>, f: map<seq<nat>, nat>,
                  s: seq<nat>, sa: seq<nat>, lcpa: seq<nat>, maxLen: nat, i: nat)
    requires Arrays(s, sa, lcpa) && i < |sa|
    requires TotalsBelow(t0, s, sa, lcpa, maxLen, i) && RankAdded(t0, t, s, sa, lcpa, maxLen, i)
    requires NodesBelow(f0, s, sa, lcpa, maxLen, i) && SweepOk(f0, f, s, sa, maxLen)
    requires RankWritten(f, s, sa, lcpa, maxLen, i)
    ensures TotalsBelow(t, s, sa, lcpa, maxLen, i + 1) && NodesBelow(f, s, sa, lcpa, maxLen, i + 1)
  {
    WrittenKept(f0, f, s, sa, maxLen);
  }

  /** The totals after every rank are the tallies of the text. */
  lemma SweepTallied(t: Averages.Totals, s: seq<nat>, sa: seq<nat>, lcpa: seq<nat>, maxLen: nat)
    requires Arrays(s, sa, lcpa) && TotalsBelow(t, s, sa, lcpa, maxLen, |sa|)
    ensures Tallied(t, s, maxLen)
  {
    forall j | 0 <= j < maxLen
      ensures t.nums[j] == |DistinctOf(s, j + 1)| && t.f[j] == |Occurrences(s, j + 1)| as real
    {
      NumsDistinct(s, sa, lcpa, maxLen, j);
      FreqOccurrences(s, sa, lcpa, maxLen, j);
    }
  }

  /** One repeated substring of `NodesComplete`: its last rank writes its node. */
  lemma RecurringNode(f: map<seq<nat>, nat>, s: seq<nat>, sa: seq<nat>, lcpa: seq<nat>, maxLen: nat, p: nat, m: nat)
    requires Arrays(s, sa, lcpa) && NodesBelow(f, s, sa, lcpa, maxLen, |sa|)
    requires 1 <= m <= maxLen && p + m <= |s| && Recurs(s, p, m)
    ensures s[p..p + m] in f && Counted(s, sa, maxLen, s[p..p + m], f[s[p..p + m]])
  {
    var r := RecurringRank(s, sa, lcpa, maxLen, p, m);
    assert WrittenAt(f, s, sa, maxLen, r, m);
  }

  /** The last rank of a repeated substring closes it. */
  lemma RecurringRank(s: seq<nat>, sa: seq<nat>, lcpa: seq<nat>, maxLen: nat, p: nat, m: nat) returns (r: nat)
    requires Arrays(s, sa, lcpa)
    requires 1 <= m <= maxLen && p + m <= |s| && Recurs(s, p, m)
    ensures Closes(s, sa, lcpa, maxLen, r, m - 1) && s[sa[r]..sa[r] + m] == s[p..p + m]
  {
    var w := s[p..p + m];
    var q: nat :| q != p && q <= |s| && IsPrefix(w, s[q..]);
    assert Listed(sa, p) && Listed(sa, q);
    var kp :| 0 <= kp < |sa| && sa[kp] == p;
    var kq :| 0 <= kq < |sa| && sa[kq] == q;
    RunCovers(s, p, m);
    r := LastRank(s, sa, lcpa, maxLen, kp, m);
    assert s[sa[kp]..sa[kp] + m] == w;
    assert s[sa[r]..sa[r] + m] == w;
    assert s[p..][..m] == w;
    var lo := if kp < kq then kp else kq;
    assert kq <= r by {
      if kq > r {
        IntervalAbove(s, sa, lcpa, maxLen, r, m, kq);
        assert false;
      }
    }
    assert kp != kq && kp <= r;
    assert lo < r;
    assert IsPrefix(w, s[sa[lo]..]);
    LcpFromBelow(s, sa, lcpa, lo, r, m);
  }

  /** The strings that the ranks below hi count at length j + 1. */
  ghost function Emitted(s: seq<nat>, sa: seq<nat>, lcpa: seq<nat>, maxLen: nat, hi: nat, j: nat): set<seq<nat>>
  {
    if hi == 0 then {}
    else Emitted(s, sa, lcpa, maxLen, hi - 1, j)
         + if Emits(s, sa, lcpa, maxLen, hi - 1, j) then {s[sa[hi - 1]..sa[hi - 1] + j + 1]} else {}
  }

  /** No two ranks count the same string of length j + 1. */
  ghost predicate EmitsOnce(s: seq<nat>, sa: seq<nat>, lcpa: seq<nat>, maxLen: nat, j: nat)
  {
    forall a: nat, b: nat :: a < b && Emits(s, sa, lcpa, maxLen, a, j) && Emits(s, sa, lcpa, maxLen, b, j)
      ==> s[sa[a]..sa[a] + j + 1] != s[sa[b]..sa[b] + j + 1]
  }

  /** A suffix array counts each string once. */
  lemma EmitsOnceArrays(s: seq<nat>, sa: seq<nat>, lcpa: seq<nat>, maxLen: nat, j: nat)
    requires Arrays(s, sa, lcpa)
    ensures EmitsOnce(s, sa, lcpa, maxLen, j)
  {
    forall a: nat, b: nat | a < b && Emits(s, sa, lcpa, maxLen, a, j) && Emits(s, sa, lcpa, maxLen, b, j)
      ensures s[sa[a]..sa[a] + j + 1] != s[sa[b]..sa[b] + j + 1]
    {
      EmitsUnique(s, sa, lcpa, maxLen, a, b, j);
    }
  }

  /** A rank below hi that counts a string puts it in the set. */
  lemma {:induction false} EmittedHas(s: seq<nat>, sa: seq<nat>, lcpa: seq<nat>, maxLen: nat, hi: nat, j: nat, i: nat)
    requires i < hi && Emits(s, sa, lcpa, maxLen, i, j)
    ensures s[sa[i]..sa[i] + j + 1] in Emitted(s, sa, lcpa, maxLen, hi, j)
  {
    if i < hi - 1 {
      EmittedHas(s, sa, lcpa, maxLen, hi - 1, j, i);
    }
  }

  /** Every string in the set is counted by a rank below hi. */
  lemma {:induction false} EmittedFrom(s: seq<nat>, sa: seq<nat>, lcpa: seq<nat>, maxLen: nat, hi: nat, j: nat, w: seq<nat>)
    returns (i: nat)
    requires w in Emitted(s, sa, lcpa, maxLen, hi, j)
    ensures i < hi && Emits(s, sa, lcpa, maxLen, i, j) && w == s[sa[i]..sa[i] + j + 1]
  {
    if w in Emitted(s, sa, lcpa, maxLen, hi - 1, j) {
      i := EmittedFrom(s, sa, lcpa, maxLen, hi - 1, j, w);
    } else {
      i := hi - 1;
    }
  }

  /** The string a rank counts is not counted below it. */
  lemma EmittedFresh(s: seq<nat>, sa: seq<nat>, lcpa: seq<nat>, maxLen: nat, i: nat, j: nat)
    requires EmitsOnce(s, sa, lcpa, maxLen, j) && Emits(s, sa, lcpa, maxLen, i, j)
    ensures s[sa[i]..sa[i] + j + 1] !in Emitted(s, sa, lcpa, maxLen, i, j)
  {
    if s[sa[i]..sa[i] + j + 1] in Emitted(s, sa, lcpa, maxLen, i, j) {
      var a := EmittedFrom(s, sa, lcpa, maxLen, i, j, s[sa[i]..sa[i] + j + 1]);
      assert false;
    }
  }

  /** The ranks below hi count that many different strings. */
  lemma {:induction false} EmittedSize(s: seq<nat>, sa: seq<nat>, lcpa: seq<nat>, maxLen: nat, hi: nat, j: nat)
    requires EmitsOnce(s, sa, lcpa, maxLen, j)
    ensures |Emitted(s, sa, lcpa, maxLen, hi, j)| == NumsBelow(s, sa, lcpa, maxLen, hi, j)
  {
    if hi > 0 {
      EmittedSize(s, sa, lcpa, maxLen, hi - 1, j);
      var e := Emitted(s, sa, lcpa, maxLen, hi - 1, j);
      if Emits(s, sa, lcpa, maxLen, hi - 1, j) {
        var w := s[sa[hi - 1]..sa[hi - 1] + j + 1];
        EmittedFresh(s, sa, lcpa, maxLen, hi - 1, j);
        assert Emitted(s, sa, lcpa, maxLen, hi, j) == e + {w} && w !in e;
      } else {
        EmittedSkip(s, sa, lcpa, maxLen, hi - 1, j);
      }
    }
  }

  /** Every rank counts its strings once: they are the distinct boundary-free substrings. */
  lemma EmittedDistinct(s: seq<nat>, sa: seq<nat>, lcpa: seq<nat>, maxLen: nat, j: nat)
    requires Arrays(s, sa, lcpa) && j < maxLen
    ensures Emitted(s, sa, lcpa, maxLen, |sa|, j) == DistinctOf(s, j + 1)
  {
    forall w | w in DistinctOf(s, j + 1)
      ensures w in Emitted(s, sa, lcpa, maxLen, |sa|, j)
    {
      DistinctEmitted(s, sa, lcpa, maxLen, j, w);
    }
    forall w | w in Emitted(s, sa, lcpa, maxLen, |sa|, j)
      ensures w in DistinctOf(s, j + 1)
    {
      var i := EmittedFrom(s, sa, lcpa, maxLen, |sa|, j, w);
      assert sa[i] < |s|;
    }
  }

  /** A boundary-free substring of length j + 1 is counted by its last rank. */
  lemma DistinctEmitted(s: seq<nat>, sa: seq<nat>, lcpa: seq<nat>, maxLen: nat, j: nat, w: seq<nat>)
    requires Arrays(s, sa, lcpa) && j < maxLen && w in DistinctOf(s, j + 1)
    ensures w in Emitted(s, sa, lcpa, maxLen, |sa|, j)
  {
    var m := j + 1;
    var p :| 0 <= p < |s| && p + m <= NextBoundary(s, p) && w == s[p..p + m];
    var k := RankOf(s, sa, lcpa, p);
    var r := LastRank(s, sa, lcpa, maxLen, k, m);
    EmittedHas(s, sa, lcpa, maxLen, |sa|, j, r);
  }

  /** The rank of a position of the text. */
  lemma RankOf(s: seq<nat>, sa: seq<nat>, lcpa: seq<nat>, p: nat) returns (k: nat)
    requires Arrays(s, sa, lcpa) && p < |s|
    ensures k < |sa| && sa[k] == p
  {
    assert Listed(sa, p);
    k :| 0 <= k < |sa| && sa[k] == p;
  }

  /** `nums[j]` of the whole sweep: the distinct boundary-free substrings of length j + 1. */
  lemma NumsDistinct(s: seq<nat>, sa: seq<nat>, lcpa: seq<nat>, maxLen: nat, j: nat)
    requires Arrays(s, sa, lcpa) && j < maxLen
    ensures NumsBelow(s, sa, lcpa, maxLen, |sa|, j) == |DistinctOf(s, j + 1)|
  {
    EmitsOnceArrays(s, sa, lcpa, maxLen, j);
    EmittedSize(s, sa, lcpa, maxLen, |sa|, j);
    EmittedDistinct(s, sa, lcpa, maxLen, j);
  }

  /** Rank i counts the string of length j + 1 that the suffix at rank k starts with. */
  ghost predicate Hit(s: seq<nat>, sa: seq<nat>, lcpa: seq<nat>, maxLen: nat, i: nat, k: nat, j: nat)
  {
    Emits(s, sa, lcpa, maxLen, i, j) && k < |sa| && sa[k] <= |s| && IsPrefix(s[sa[i]..sa[i] + j + 1], s[sa[k]..])
  }

  /** The hits of rank i among the ranks below hi. */
  ghost function HitRow(s: seq<nat>, sa: seq<nat>, lcpa: seq<nat>, maxLen: nat, i: nat, hi: nat, j: nat): nat
  {
    if hi == 0 then 0 else HitRow(s, sa, lcpa, maxLen, i, hi - 1, j) + (if Hit(s, sa, lcpa, maxLen, i, hi - 1, j) then 1 else 0)
  }

  /** The hits on rank k from the ranks below hi. */
  ghost function HitCol(s: seq<nat>, sa: seq<nat>, lcpa: seq<nat>, maxLen: nat, k: nat, hi: nat, j: nat): nat
  {
    if hi == 0 then 0 else HitCol(s, sa, lcpa, maxLen, k, hi - 1, j) + (if Hit(s, sa, lcpa, maxLen, hi - 1, k, j) then 1 else 0)
  }

  /** The rows of the ranks below hi, each over the ranks below w. */
  ghost function HitRows(s: seq<nat>, sa: seq<nat>, lcpa: seq<nat>, maxLen: nat, hi: nat, w: nat, j: nat): nat
  {
    if hi == 0 then 0 else HitRows(s, sa, lcpa, maxLen, hi - 1, w, j) + HitRow(s, sa, lcpa, maxLen, hi - 1, w, j)
  }

  /** The columns of the ranks below w, each over the ranks below hi. */
  ghost function HitCols(s: seq<nat>, sa: seq<nat>, lcpa: seq<nat>, maxLen: nat, w: nat, hi: nat, j: nat): nat
  {
    if w == 0 then 0 else HitCols(s, sa, lcpa, maxLen, w - 1, hi, j) + HitCol(s, sa, lcpa, maxLen, w - 1, hi, j)
  }

  /** With no rows there are no hits. */
  lemma {:induction false} HitColsEmpty(s: seq<nat>, sa: seq<nat>, lcpa: seq<nat>, maxLen: nat, w: nat, j: nat)
    ensures HitCols(s, sa, lcpa, maxLen, w, 0, j) == 0
  {
    if w > 0 {
      HitColsEmpty(s, sa, lcpa, maxLen, w - 1, j);
    }
  }

  /** One more row adds its hits to the columns. */
  lemma {:induction false} HitColsStep(s: seq<nat>, sa: seq<nat>, lcpa: seq<nat>, maxLen: nat, w: nat, hi: nat, j: nat)
    ensures HitCols(s, sa, lcpa, maxLen, w, hi + 1, j)
            == HitCols(s, sa, lcpa, maxLen, w, hi, j) + HitRow(s, sa, lcpa, maxLen, hi, w, j)
  {
    if w > 0 {
      HitColsStep(s, sa, lcpa, maxLen, w - 1, hi, j);
    }
  }

  /** Counting the hits row by row or column by column gives the same total. */
  lemma {:induction false} HitSwap(s: seq<nat>, sa: seq<nat>, lcpa: seq<nat>, maxLen: nat, hi: nat, w: nat, j: nat)
    ensures HitRows(s, sa, lcpa, maxLen, hi, w, j) == HitCols(s, sa, lcpa, maxLen, w, hi, j)
  {
    if hi == 0 {
      HitColsEmpty(s, sa, lcpa, maxLen, w, j);
    } else {
      HitSwap(s, sa, lcpa, maxLen, hi - 1, w, j);
      HitColsStep(s, sa, lcpa, maxLen, w, hi - 1, j);
    }
  }

  /** A row holds the occurrences of the string its rank counts. */
  lemma {:induction false} HitRowCount(s: seq<nat>, sa: seq<nat>, lcpa: seq<nat>, maxLen: nat, i: nat, hi: nat, j: nat)
    requires Arrays(s, sa, lcpa) && hi <= |sa|
    ensures HitRow(s, sa, lcpa, maxLen, i, hi, j)
            == if Emits(s, sa, lcpa, maxLen, i, j) then RankCount(s, sa, s[sa[i]..sa[i] + j + 1], hi) else 0
  {
    if hi > 0 {
      HitRowCount(s, sa, lcpa, maxLen, i, hi - 1, j);
    }
  }

  /** A column whose hits all come from rank r holds one hit when r is below hi. */
  lemma {:induction false} HitColOne(s: seq<nat>, sa: seq<nat>, lcpa: seq<nat>, maxLen: nat, k: nat, hi: nat, j: nat, r: nat)
    requires forall i :: 0 <= i < hi ==> (Hit(s, sa, lcpa, maxLen, i, k, j) <==> i == r)
    ensures HitCol(s, sa, lcpa, maxLen, k, hi, j) == if r < hi then 1 else 0
  {
    if hi > 0 {
      HitColOne(s, sa, lcpa, maxLen, k, hi - 1, j, r);
    }
  }

  /** Exactly one rank counts the string of length j + 1 at rank k, when it fits. */
  lemma HitColFits(s: seq<nat>, sa: seq<nat>, lcpa: seq<nat>, maxLen: nat, k: nat, j: nat)
    requires Arrays(s, sa, lcpa) && k < |sa| && j < maxLen
    ensures HitCol(s, sa, lcpa, maxLen, k, |sa|, j) == if Fits(s, sa, k, j + 1) then 1 else 0
  {
    var m := j + 1;
    var x := s[sa[k]..];
    if Fits(s, sa, k, m) {
      var r := LastRank(s, sa, lcpa, maxLen, k, m);
      assert x[..m] == s[sa[k]..sa[k] + m];
      forall i | 0 <= i < |sa|
        ensures Hit(s, sa, lcpa, maxLen, i, k, j) <==> i == r
      {
        if Hit(s, sa, lcpa, maxLen, i, k, j) && i != r {
          if i < r {
            EmitsUnique(s, sa, lcpa, maxLen, i, r, j);
          } else {
            EmitsUnique(s, sa, lcpa, maxLen, r, i, j);
          }
        }
      }
      HitColOne(s, sa, lcpa, maxLen, k, |sa|, j, r);
    } else {
      forall i | 0 <= i < |sa|
        ensures !Hit(s, sa, lcpa, maxLen, i, k, j)
      {
        if Hit(s, sa, lcpa, maxLen, i, k, j) {
          assert x[..m] == s[sa[i]..sa[i] + m];
          forall t | sa[k] <= t < sa[k] + m
            ensures s[t] != 0
          {
            assert s[t] == s[sa[i]..sa[i] + m][t - sa[k]];
          }
          assert false;
        }
      }
      HitColOne(s, sa, lcpa, maxLen, k, |sa|, j, |sa|);
    }
  }

  /** The ranks below hi where a boundary-free string of length m starts. */
  ghost function FitCount(s: seq<nat>, sa: seq<nat>, hi: nat, m: nat): nat
  {
    if hi == 0 then 0 else FitCount(s, sa, hi - 1, m) + (if Fits(s, sa, hi - 1, m) then 1 else 0)
  }

  /** The frequency total is the rows' sum of hits. */
  lemma {:induction false} FreqRows(s: seq<nat>, sa: seq<nat>, lcpa: seq<nat>, maxLen: nat, hi: nat, j: nat)
    requires Arrays(s, sa, lcpa)
    ensures FreqBelow(s, sa, lcpa, maxLen, hi, j) == HitRows(s, sa, lcpa, maxLen, hi, |sa|, j)
  {
    if hi > 0 {
      FreqRows(s, sa, lcpa, maxLen, hi - 1, j);
      HitRowCount(s, sa, lcpa, maxLen, hi - 1, |sa|, j);
    }
  }

  /** The columns' sum of hits counts the ranks where a string of length j + 1 fits. */
  lemma {:induction false} ColsFit(s: seq<nat>, sa: seq<nat>, lcpa: seq<nat>, maxLen: nat, w: nat, j: nat)
    requires Arrays(s, sa, lcpa) && w <= |sa| && j < maxLen
    ensures HitCols(s, sa, lcpa, maxLen, w, |sa|, j) == FitCount(s, sa, w, j + 1)
  {
    if w > 0 {
      ColsFit(s, sa, lcpa, maxLen, w - 1, j);
      HitColFits(s, sa, lcpa, maxLen, w - 1, j);
    }
  }

  /** The positions of the ranks below hi where a string of length m fits. */
  ghost function FitPositions(s: seq<nat>, sa: seq<nat>, hi: nat, m: nat): set<nat>
    requires hi <= |sa|
  {
    if hi == 0 then {}
    else FitPositions(s, sa, hi - 1, m) + if Fits(s, sa, hi - 1, m) then {sa[hi - 1]} else {}
  }

  /** A rank below hi whose string fits puts its position in the set. */
  lemma {:induction false} FitPositionsHas(s: seq<nat>, sa: seq<nat>, hi: nat, m: nat, k: nat)
    requires hi <= |sa| && k < hi && Fits(s, sa, k, m)
    ensures sa[k] in FitPositions(s, sa, hi, m)
  {
    if k < hi - 1 {
      FitPositionsHas(s, sa, hi - 1, m, k);
    }
  }

  /** Every position in the set is that of a rank below hi whose string fits. */
  lemma {:induction false} FitPositionsFrom(s: seq<nat>, sa: seq<nat>, hi: nat, m: nat, p: nat) returns (k: nat)
    requires hi <= |sa| && p in FitPositions(s, sa, hi, m)
    ensures k < hi && Fits(s, sa, k, m) && p == sa[k]
  {
    if p in FitPositions(s, sa, hi - 1, m) {
      k := FitPositionsFrom(s, sa, hi - 1, m, p);
    } else {
      k := hi - 1;
    }
  }

  /** No position is listed at two ranks. */
  ghost predicate RanksDiffer(sa: seq<nat>)
  {
    forall a, b :: 0 <= a < b < |sa| ==> sa[a] != sa[b]
  }

  /** A suffix array lists each position once. */
  lemma RanksDifferArrays(s: seq<nat>, sa: seq<nat>, lcpa: seq<nat>)
    requires Arrays(s, sa, lcpa)
    ensures RanksDiffer(sa)
  {
    forall a, b | 0 <= a < b < |sa|
      ensures sa[a] != sa[b]
    {
      assert RankLess(s, sa, a, b);
      LessIrreflexive(s[sa[b]..]);
    }
  }

  /** The position of a rank is listed by no rank below it. */
  lemma FitPositionsFresh(s: seq<nat>, sa: seq<nat>, k: nat, m: nat)
    requires RanksDiffer(sa) && k < |sa|
    ensures sa[k] !in FitPositions(s, sa, k, m)
  {
    if sa[k] in FitPositions(s, sa, k, m) {
      var a := FitPositionsFrom(s, sa, k, m, sa[k]);
      assert false;
    }
  }

  /** Different ranks list different positions, so the count is the number of positions. */
  lemma {:induction false} FitPositionsSize(s: seq<nat>, sa: seq<nat>, hi: nat, m: nat)
    requires RanksDiffer(sa) && hi <= |sa|
    ensures |FitPositions(s, sa, hi, m)| == FitCount(s, sa, hi, m)
  {
    if hi > 0 {
      FitPositionsSize(s, sa, hi - 1, m);
      if Fits(s, sa, hi - 1, m) {
        FitPositionsFresh(s, sa, hi - 1, m);
      }
    }
  }

  /** The ranks list every position once. */
  lemma FitPositionsAll(s: seq<nat>, sa: seq<nat>, lcpa: seq<nat>, m: nat)
    requires Arrays(s, sa, lcpa)
    ensures FitPositions(s, sa, |sa|, m) == Occurrences(s, m)
  {
    forall p | p in Occurrences(s, m)
      ensures p in FitPositions(s, sa, |sa|, m)
    {
      assert Listed(sa, p);
      var k :| 0 <= k < |sa| && sa[k] == p;
      FitPositionsHas(s, sa, |sa|, m, k);
    }
    forall p | p in FitPositions(s, sa, |sa|, m)
      ensures p in Occurrences(s, m)
    {
      var k := FitPositionsFrom(s, sa, |sa|, m, p);
      assert sa[k] < |s|;
    }
  }

  /** `f[j]` of the whole sweep: the boundary-free occurrences of length j + 1, which is the
      sum of the occurrence counts of the distinct strings. */
  lemma FreqOccurrences(s: seq<nat>, sa: seq<nat>, lcpa: seq<nat>, maxLen: nat, j: nat)
    requires Arrays(s, sa, lcpa) && j < maxLen
    ensures FreqBelow(s, sa, lcpa, maxLen, |sa|, j) == |Occurrences(s, j + 1)|
  {
    FreqRows(s, sa, lcpa, maxLen, |sa|, j);
    HitSwap(s, sa, lcpa, maxLen, |sa|, |sa|, j);
    ColsFit(s, sa, lcpa, maxLen, |sa|, j);
    RanksDifferArrays(s, sa, lcpa);
    FitPositionsSize(s, sa, |sa|, j + 1);
    FitPositionsAll(s, sa, lcpa, j + 1);
  }

  // -----------------------------------------------------------------------------------------
  // The entropies the sweep adds

  /** The neighbours an entropy is taken over: the symbol before a string, or the one
      after it. */
  datatype Side = Left | Right

  /** The neighbour on `side` of the string of length m at position p: the boundary before
      position 0 and past the end of the text. */
  function Beside(s: seq<nat>, p: nat, m: nat, side: Side): nat
  {
    match side
    case Left => if 0 < p <= |s| then s[p - 1] else EncStr.Boundary
    case Right => if p + m < |s| then s[p + m] else EncStr.Boundary
  }

  /** The neighbours on `side` of every suffix below rank hi that starts with w, one per
      occurrence of w (a suffix array lists every position once). */
  ghost function Neighbours(s: seq<nat>, sa: seq<nat>, w: seq<nat>, side: Side, hi: nat): multiset<nat>
    requires hi <= |sa| && forall k :: 0 <= k < |sa| ==> sa[k] <= |s|
  {
    if hi == 0 then multiset{}
    else
      var p := sa[hi - 1];
      Neighbours(s, sa, w, side, hi - 1) + if IsPrefix(w, s[p..]) then multiset{Beside(s, p, |w|, side)} else multiset{}
  }

  /** What a distinct string adds to the entropy total of its length on `side`: the
      entropy of its neighbours there when it occurs more than once, `h1` when it occurs
      once. */
  ghost function SideOf(s: seq<nat>, sa: seq<nat>, w: seq<nat>, side: Side, h1: real, entropy: multiset<nat> -> real): real
    requires forall k :: 0 <= k < |sa| ==> sa[k] <= |s|
  {
    if RankCount(s, sa, w, |sa|) >= 2 then entropy(Neighbours(s, sa, w, side, |sa|)) else h1
  }

  /** The contributions of a set of strings, summed. */
  ghost function SideSum(ws: set<seq<nat>>, s: seq<nat>, sa: seq<nat>, side: Side, h1: real,
                         entropy: multiset<nat> -> real): real
    requires forall k :: 0 <= k < |sa| ==> sa[k] <= |s|
    decreases ws
  {
    if ws == {} then 0.0
    else
      var w :| w in ws;
      SideOf(s, sa, w, side, h1, entropy) + SideSum(ws - {w}, s, sa, side, h1, entropy)
  }

  /** The sum does not depend on the order the strings are taken in: any member can be
      taken first. */
  lemma SideSumRemove(ws: set<seq<nat>>, s: seq<nat>, sa: seq<nat>, side: Side, h1: real,
                      entropy: multiset<nat> -> real, x: seq<nat>)
    requires forall k :: 0 <= k < |sa| ==> sa[k] <= |s|
    requires x in ws
    ensures SideSum(ws, s, sa, side, h1, entropy) == SideOf(s, sa, x, side, h1, entropy) + SideSum(ws - {x}, s, sa, side, h1, entropy)
    decreases ws
  {
    var w :| w in ws && SideSum(ws, s, sa, side, h1, entropy) == SideOf(s, sa, w, side, h1, entropy) + SideSum(ws - {w}, s, sa, side, h1, entropy);
    if w != x {
      SideSumRemove(ws - {w}, s, sa, side, h1, entropy, x);
      SideSumRemove(ws - {x}, s, sa, side, h1, entropy, w);
      assert ws - {w} - {x} == ws - {x} - {w};
    }
  }

  /** The contribution of the string of length m at rank i (0 past the end of the text). */
  ghost function SideAt(s: seq<nat>, sa: seq<nat>, i: nat, m: nat, side: Side, h1: real, entropy: multiset<nat> -> real): real
    requires forall k :: 0 <= k < |sa| ==> sa[k] <= |s|
  {
    if i < |sa| && sa[i] + m <= |s| then SideOf(s, sa, s[sa[i]..sa[i] + m], side, h1, entropy) else 0.0
  }

  /** The left neighbours of the ranks below hi of a string whose ranks are exactly
      `st .. i` are the left symbols of the ranks of the interval below hi. */
  lemma {:induction false} LeftInterval(s: seq<nat>, sa: seq<nat>, w: seq<nat>, st: nat, i: nat, hi: nat)
    requires hi <= |sa| && forall k :: 0 <= k < |sa| ==> sa[k] <= |s|
    requires st <= i < |sa|
    requires forall k :: 0 <= k < |sa| ==> (st <= k <= i <==> IsPrefix(w, s[sa[k]..]))
    ensures Neighbours(s, sa, w, Left, hi) == LeftSymbols(s, sa, if hi <= st then hi else st, if hi <= i + 1 then hi else i + 1)
  {
    if hi > 0 {
      LeftInterval(s, sa, w, st, i, hi - 1);
      var p := sa[hi - 1];
      if st <= hi - 1 <= i {
        assert IsPrefix(w, s[p..]);
        assert Neighbours(s, sa, w, Left, hi) == Neighbours(s, sa, w, Left, hi - 1) + multiset{Beside(s, p, |w|, Left)};
      } else {
        assert !IsPrefix(w, s[p..]);
      }
    }
  }

  /** The same for the right neighbours. */
  lemma {:induction false} RightInterval(s: seq<nat>, sa: seq<nat>, w: seq<nat>, st: nat, i: nat, hi: nat)
    requires hi <= |sa| && forall k :: 0 <= k < |sa| ==> sa[k] <= |s|
    requires st <= i < |sa|
    requires forall k :: 0 <= k < |sa| ==> (st <= k <= i <==> IsPrefix(w, s[sa[k]..]))
    ensures Neighbours(s, sa, w, Right, hi) == RightSymbols(s, sa, |w|, if hi <= st then hi else st, if hi <= i + 1 then hi else i + 1)
  {
    if hi > 0 {
      RightInterval(s, sa, w, st, i, hi - 1);
      var p := sa[hi - 1];
      if st <= hi - 1 <= i {
        assert IsPrefix(w, s[p..]);
        assert Neighbours(s, sa, w, Right, hi) == Neighbours(s, sa, w, Right, hi - 1) + multiset{Beside(s, p, |w|, Right)};
      } else {
        assert !IsPrefix(w, s[p..]);
      }
    }
  }

  /** The neighbours of a string whose ranks are exactly `st .. i`. */
  lemma NeighboursOfInterval(s: seq<nat>, sa: seq<nat>, w: seq<nat>, st: nat, i: nat)
    requires forall k :: 0 <= k < |sa| ==> sa[k] <= |s|
    requires st <= i < |sa|
    requires forall k :: 0 <= k < |sa| ==> (st <= k <= i <==> IsPrefix(w, s[sa[k]..]))
    ensures Neighbours(s, sa, w, Left, |sa|) == LeftSymbols(s, sa, st, i + 1)
    ensures Neighbours(s, sa, w, Right, |sa|) == RightSymbols(s, sa, |w|, st, i + 1)
    ensures st < i ==> RankCount(s, sa, w, |sa|) >= 2
  {
    LeftInterval(s, sa, w, st, i, |sa|);
    RightInterval(s, sa, w, st, i, |sa|);
    RankCountInterval(s, sa, w, st, i, |sa|);
  }

  /** A popped interval `[st, i]`: the strings of length m at rank i occur i - st + 1 > 1
      times, and their entropies are those of the interval's neighbour counts. */
  lemma IntervalSides(s: seq<nat>, sa: seq<nat>, st: nat, i: nat, m: nat, h1: real, entropy: multiset<nat> -> real)
    requires forall k :: 0 <= k < |sa| ==> sa[k] <= |s|
    requires st < i < |sa| && sa[i] + m <= |s|
    requires forall q :: 0 <= q < |sa| ==> (st <= q <= i <==> IsPrefix(s[sa[i]..sa[i] + m], s[sa[q]..]))
    ensures Neighbours(s, sa, s[sa[i]..sa[i] + m], Left, |sa|) == LeftSymbols(s, sa, st, i + 1)
    ensures Neighbours(s, sa, s[sa[i]..sa[i] + m], Right, |sa|) == RightSymbols(s, sa, m, st, i + 1)
    ensures SideAt(s, sa, i, m, Left, h1, entropy) == entropy(LeftSymbols(s, sa, st, i + 1))
    ensures SideAt(s, sa, i, m, Right, h1, entropy) == entropy(RightSymbols(s, sa, m, st, i + 1))
  {
    var w := s[sa[i]..sa[i] + m];
    assert |w| == m;
    NeighboursOfInterval(s, sa, w, st, i);
    SidesOfInterval(s, sa, w, st, i, h1, entropy);
  }

  /** The contributions of a string whose ranks are exactly `st .. i`, `st < i`. */
  lemma SidesOfInterval(s: seq<nat>, sa: seq<nat>, w: seq<nat>, st: nat, i: nat, h1: real, entropy: multiset<nat> -> real)
    requires forall k :: 0 <= k < |sa| ==> sa[k] <= |s|
    requires st < i < |sa|
    requires forall k :: 0 <= k < |sa| ==> (st <= k <= i <==> IsPrefix(w, s[sa[k]..]))
    ensures SideOf(s, sa, w, Left, h1, entropy) == entropy(LeftSymbols(s, sa, st, i + 1))
    ensures SideOf(s, sa, w, Right, h1, entropy) == entropy(RightSymbols(s, sa, |w|, st, i + 1))
  {
    NeighboursOfInterval(s, sa, w, st, i);
  }

  /** The node of p holds the entropies of p's neighbours on both sides. */
  ghost predicate Sided(hl: map<seq<nat>, real>, hr: map<seq<nat>, real>, s: seq<nat>, sa: seq<nat>, p: seq<nat>,
                        entropy: multiset<nat> -> real)
    requires forall k :: 0 <= k < |sa| ==> sa[k] <= |s|
  {
    p in hl && p in hr
    && hl[p] == entropy(Neighbours(s, sa, p, Left, |sa|)) && hr[p] == entropy(Neighbours(s, sa, p, Right, |sa|))
  }

  /** What the sweep does to the entropies of the nodes: every node keeps both, is a new
      node with both 0, or holds the entropies of its neighbours. */
  ghost predicate SidesOk(hl0: map<seq<nat>, real>, hr0: map<seq<nat>, real>, hl: map<seq<nat>, real>, hr: map<seq<nat>, real>,
                          s: seq<nat>, sa: seq<nat>, entropy: multiset<nat> -> real)
    requires forall k :: 0 <= k < |sa| ==> sa[k] <= |s|
  {
    hl0.Keys <= hl.Keys && hr0.Keys <= hr.Keys
    && forall p :: p in hl && p in hr ==>
         (p in hl0 && p in hr0 && hl[p] == hl0[p] && hr[p] == hr0[p])
         || (p !in hl0 && hl[p] == 0.0 && hr[p] == 0.0)
         || Sided(hl, hr, s, sa, p, entropy)
  }

  /** `SidesOk` composes along a run of updates. */
  lemma SidesOkTrans(hl0: map<seq<nat>, real>, hr0: map<seq<nat>, real>, hl1: map<seq<nat>, real>, hr1: map<seq<nat>, real>,
                     hl2: map<seq<nat>, real>, hr2: map<seq<nat>, real>, s: seq<nat>, sa: seq<nat>, entropy: multiset<nat> -> real)
    requires forall k :: 0 <= k < |sa| ==> sa[k] <= |s|
    requires SidesOk(hl0, hr0, hl1, hr1, s, sa, entropy) && SidesOk(hl1, hr1, hl2, hr2, s, sa, entropy)
    requires hl1.Keys == hr1.Keys
    ensures SidesOk(hl0, hr0, hl2, hr2, s, sa, entropy)
  {
  }

  /** The node of the string of length m at rank i holds the entropies of its neighbours. */
  ghost predicate SidesAt(hl: map<seq<nat>, real>, hr: map<seq<nat>, real>, s: seq<nat>, sa: seq<nat>, i: nat, m: nat,
                          entropy: multiset<nat> -> real)
    requires forall k :: 0 <= k < |sa| ==> sa[k] <= |s|
  {
    i < |sa| && sa[i] + m <= |s| && Sided(hl, hr, s, sa, s[sa[i]..sa[i] + m], entropy)
  }

  /** The nodes of the strings of each length `lo + 1 .. hi` at rank i hold their
      entropies. */
  ghost predicate SidesRange(hl: map<seq<nat>, real>, hr: map<seq<nat>, real>, s: seq<nat>, sa: seq<nat>, i: nat, lo: nat, hi: nat,
                             entropy: multiset<nat> -> real)
    requires forall k :: 0 <= k < |sa| ==> sa[k] <= |s|
  {
    forall m :: lo < m <= hi ==> SidesAt(hl, hr, s, sa, i, m, entropy)
  }

  /** A node holding its entropies keeps them through any later writes of the sweep. */
  lemma SidesKept(hl1: map<seq<nat>, real>, hr1: map<seq<nat>, real>, hl2: map<seq<nat>, real>, hr2: map<seq<nat>, real>,
                  s: seq<nat>, sa: seq<nat>, entropy: multiset<nat> -> real)
    requires forall k :: 0 <= k < |sa| ==> sa[k] <= |s|
    requires SidesOk(hl1, hr1, hl2, hr2, s, sa, entropy)
    ensures forall i: nat, m: nat :: SidesAt(hl1, hr1, s, sa, i, m, entropy) ==> SidesAt(hl2, hr2, s, sa, i, m, entropy)
  {
    forall i: nat, m: nat | SidesAt(hl1, hr1, s, sa, i, m, entropy)
      ensures SidesAt(hl2, hr2, s, sa, i, m, entropy)
    {
      var p := s[sa[i]..sa[i] + m];
      assert p in hl2 && p in hr2;
    }
  }

  /** The totals t are t0 with the entropies of the string of each length `lo + 1 .. hi`
      at rank i added. */
  ghost predicate AddedSides(t0: Averages.Totals, t: Averages.Totals, s: seq<nat>, sa: seq<nat>, maxLen: nat,
                             h1: real, entropy: multiset<nat> -> real, i: nat, lo: nat, hi: nat)
    requires forall k :: 0 <= k < |sa| ==> sa[k] <= |s|
  {
    t0.Sized(maxLen) && t.Sized(maxLen)
    && forall k :: 0 <= k < maxLen ==>
         var hit := lo <= k < hi;
         && t.hl[k] == t0.hl[k] + (if hit then SideAt(s, sa, i, k + 1, Left, h1, entropy) else 0.0)
         && t.hr[k] == t0.hr[k] + (if hit then SideAt(s, sa, i, k + 1, Right, h1, entropy) else 0.0)
  }

  /** One more length for `AddedSides`. */
  lemma AddedSidesStep(t0: Averages.Totals, t: Averages.Totals, s: seq<nat>, sa: seq<nat>, maxLen: nat,
                       h1: real, entropy: multiset<nat> -> real, i: nat, lo: nat, j: nat, hl: real, hr: real, c: real)
    requires forall k :: 0 <= k < |sa| ==> sa[k] <= |s|
    requires AddedSides(t0, t, s, sa, maxLen, h1, entropy, i, lo, j) && lo <= j < maxLen
    requires hl == SideAt(s, sa, i, j + 1, Left, h1, entropy) && hr == SideAt(s, sa, i, j + 1, Right, h1, entropy)
    ensures AddedSides(t0, AddString(t, j, c, hl, hr), s, sa, maxLen, h1, entropy, i, lo, j + 1)
  {
  }

  /** One more length with written entropies, with those already written kept. */
  lemma SidesRangeStep(hl1: map<seq<nat>, real>, hr1: map<seq<nat>, real>, hl2: map<seq<nat>, real>, hr2: map<seq<nat>, real>,
                       s: seq<nat>, sa: seq<nat>, entropy: multiset<nat> -> real, i: nat, lo: nat, j: nat)
    requires forall k :: 0 <= k < |sa| ==> sa[k] <= |s|
    requires SidesRange(hl1, hr1, s, sa, i, lo, j, entropy) && SidesOk(hl1, hr1, hl2, hr2, s, sa, entropy)
    requires SidesAt(hl2, hr2, s, sa, i, j + 1, entropy)
    ensures SidesRange(hl2, hr2, s, sa, i, lo, j + 1, entropy)
  {
    SidesKept(hl1, hr1, hl2, hr2, s, sa, entropy);
  }

  /** Closing the lengths `lo + 1 .. hi` below those already added. */
  lemma AddedSidesJoin(t0: Averages.Totals, t1: Averages.Totals, t2: Averages.Totals, s: seq<nat>, sa: seq<nat>, maxLen: nat,
                       h1: real, entropy: multiset<nat> -> real, i: nat, lo: nat, hi: nat, top: nat)
    requires forall k :: 0 <= k < |sa| ==> sa[k] <= |s|
    requires lo <= hi <= top
    requires AddedSides(t0, t1, s, sa, maxLen, h1, entropy, i, hi, top) && AddedSides(t1, t2, s, sa, maxLen, h1, entropy, i, lo, hi)
    ensures AddedSides(t0, t2, s, sa, maxLen, h1, entropy, i, lo, top)
  {
  }

  /** Written entropies of lengths `lo + 1 .. hi` below written ones. */
  lemma SidesRangeJoin(hl1: map<seq<nat>, real>, hr1: map<seq<nat>, real>, hl2: map<seq<nat>, real>, hr2: map<seq<nat>, real>,
                       s: seq<nat>, sa: seq<nat>, entropy: multiset<nat> -> real, i: nat, lo: nat, hi: nat, top: nat)
    requires forall k :: 0 <= k < |sa| ==> sa[k] <= |s|
    requires lo <= hi
    requires SidesRange(hl1, hr1, s, sa, i, hi, top, entropy) && SidesOk(hl1, hr1, hl2, hr2, s, sa, entropy)
    requires SidesRange(hl2, hr2, s, sa, i, lo, hi, entropy)
    ensures SidesRange(hl2, hr2, s, sa, i, lo, top, entropy)
  {
    SidesKept(hl1, hr1, hl2, hr2, s, sa, entropy);
  }

  /** What rank i adds to the entropy totals: the contribution of each string it counts. */
  ghost predicate RankSides(t0: Averages.Totals, t: Averages.Totals, s: seq<nat>, sa: seq<nat>, lcpa: seq<nat>, maxLen: nat,
                            h1: real, entropy: multiset<nat> -> real, i: nat)
    requires forall k :: 0 <= k < |sa| ==> sa[k] <= |s|
  {
    t0.Sized(maxLen) && t.Sized(maxLen)
    && forall j :: 0 <= j < maxLen ==>
         var e := Emits(s, sa, lcpa, maxLen, i, j);
         && t.hl[j] == t0.hl[j] + (if e then SideAt(s, sa, i, j + 1, Left, h1, entropy) else 0.0)
         && t.hr[j] == t0.hr[j] + (if e then SideAt(s, sa, i, j + 1, Right, h1, entropy) else 0.0)
  }

  /** The entropies rank i writes. */
  ghost predicate RankSidesWritten(hl: map<seq<nat>, real>, hr: map<seq<nat>, real>, s: seq<nat>, sa: seq<nat>, lcpa: seq<nat>,
                                   maxLen: nat, entropy: multiset<nat> -> real, i: nat)
    requires forall k :: 0 <= k < |sa| ==> sa[k] <= |s|
  {
    forall j: nat :: Closes(s, sa, lcpa, maxLen, i, j) ==> SidesAt(hl, hr, s, sa, i, j + 1, entropy)
  }

  /** The singletons of rank i, each with `h1`, and its closed intervals add exactly the
      contributions of the strings the rank counts. */
  lemma RankSidesJoin(t0: Averages.Totals, t1: Averages.Totals, t: Averages.Totals, s: seq<nat>, sa: seq<nat>,
                      lcpa: seq<nat>, maxLen: nat, h1: real, entropy: multiset<nat> -> real, i: nat)
    requires Arrays(s, sa, lcpa) && i < |sa| && t0.Sized(maxLen) && t1.Sized(maxLen)
    requires forall j :: 0 <= j < maxLen ==>
               var hit := Clip(lcpa[i], maxLen) <= j && NextLcp(lcpa, maxLen, i) <= j && j < NextBoundary(s, sa[i]) - sa[i];
               && t1.hl[j] == t0.hl[j] + (if hit then h1 else 0.0)
               && t1.hr[j] == t0.hr[j] + (if hit then h1 else 0.0)
    requires AddedSides(t1, t, s, sa, maxLen, h1, entropy, i, NextLcp(lcpa, maxLen, i), Clip(lcpa[i], maxLen))
    ensures RankSides(t0, t, s, sa, lcpa, maxLen, h1, entropy, i)
  {
    SingletonStart(s, sa, lcpa, maxLen, i);
    forall j | 0 <= j < maxLen
      ensures t.hl[j] == t0.hl[j] + (if Emits(s, sa, lcpa, maxLen, i, j) then SideAt(s, sa, i, j + 1, Left, h1, entropy) else 0.0)
      ensures t.hr[j] == t0.hr[j] + (if Emits(s, sa, lcpa, maxLen, i, j) then SideAt(s, sa, i, j + 1, Right, h1, entropy) else 0.0)
    {
      if Clip(lcpa[i], maxLen) <= j && Emits(s, sa, lcpa, maxLen, i, j) {
        SingletonCount(s, sa, lcpa, maxLen, i, j + 1);
      }
    }
  }

  /** Rank i writes the entropies of the lengths its pops cover, which are the ones it
      closes. */
  lemma RankSidesFrom(hl: map<seq<nat>, real>, hr: map<seq<nat>, real>, s: seq<nat>, sa: seq<nat>, lcpa: seq<nat>, maxLen: nat,
                      entropy: multiset<nat> -> real, i: nat)
    requires Arrays(s, sa, lcpa) && i < |sa|
    requires SidesRange(hl, hr, s, sa, i, NextLcp(lcpa, maxLen, i), Clip(lcpa[i], maxLen), entropy)
    ensures RankSidesWritten(hl, hr, s, sa, lcpa, maxLen, entropy, i)
  {
    forall j: nat | Closes(s, sa, lcpa, maxLen, i, j)
      ensures SidesAt(hl, hr, s, sa, i, j + 1, entropy)
    {
    }
  }

  /** The entropy total on `side` of length j + 1 after the ranks below hi. */
  ghost function SideBelow(s: seq<nat>, sa: seq<nat>, lcpa: seq<nat>, maxLen: nat, hi: nat, j: nat, side: Side,
                           h1: real, entropy: multiset<nat> -> real): real
    requires forall k :: 0 <= k < |sa| ==> sa[k] <= |s|
  {
    if hi == 0 then 0.0
    else
      SideBelow(s, sa, lcpa, maxLen, hi - 1, j, side, h1, entropy)
      + if Emits(s, sa, lcpa, maxLen, hi - 1, j) then SideAt(s, sa, hi - 1, j + 1, side, h1, entropy) else 0.0
  }

  /** The entropy totals after the ranks below hi. */
  ghost predicate SidesBelow(t: Averages.Totals, s: seq<nat>, sa: seq<nat>, lcpa: seq<nat>, maxLen: nat,
                             h1: real, entropy: multiset<nat> -> real, hi: nat)
    requires forall k :: 0 <= k < |sa| ==> sa[k] <= |s|
  {
    t.Sized(maxLen)
    && forall j :: 0 <= j < maxLen ==>
         t.hl[j] == SideBelow(s, sa, lcpa, maxLen, hi, j, Left, h1, entropy)
         && t.hr[j] == SideBelow(s, sa, lcpa, maxLen, hi, j, Right, h1, entropy)
  }

  /** The entropies the ranks below hi write. */
  ghost predicate SideNodesBelow(hl: map<seq<nat>, real>, hr: map<seq<nat>, real>, s: seq<nat>, sa: seq<nat>, lcpa: seq<nat>,
                                 maxLen: nat, entropy: multiset<nat> -> real, hi: nat)
    requires forall k :: 0 <= k < |sa| ==> sa[k] <= |s|
  {
    forall r: nat, j: nat :: r < hi && Closes(s, sa, lcpa, maxLen, r, j) ==> SidesAt(hl, hr, s, sa, r, j + 1, entropy)
  }

  /** A rank whose suffix starts with a boundary adds no entropy and writes none. */
  lemma SkipSides(t: Averages.Totals, hl: map<seq<nat>, real>, hr: map<seq<nat>, real>, s: seq<nat>, sa: seq<nat>,
                  lcpa: seq<nat>, maxLen: nat, h1: real, entropy: multiset<nat> -> real, i: nat)
    requires Arrays(s, sa, lcpa) && i < |sa| && sa[i] < |s| && s[sa[i]] == 0
    requires SidesBelow(t, s, sa, lcpa, maxLen, h1, entropy, i) && SideNodesBelow(hl, hr, s, sa, lcpa, maxLen, entropy, i)
    ensures SidesBelow(t, s, sa, lcpa, maxLen, h1, entropy, i + 1) && SideNodesBelow(hl, hr, s, sa, lcpa, maxLen, entropy, i + 1)
  {
    assert NextBoundary(s, sa[i]) == sa[i];
    forall j | 0 <= j < maxLen
      ensures !Emits(s, sa, lcpa, maxLen, i, j)
    {
    }
  }

  /** One counted rank moves the entropy totals and nodes on to the ranks below i + 1. */
  lemma RankSidesBelow(t0: Averages.Totals, t: Averages.Totals, hl0: map<seq<nat>, real>, hr0: map<seq<nat>, real>,
                       hl: map<seq<nat>, real>, hr: map<seq<nat>, real>, s: seq<nat>, sa: seq<nat>, lcpa: seq<nat>, maxLen: nat,
                       h1: real, entropy: multiset<nat> -> real, i: nat)
    requires Arrays(s, sa, lcpa) && i < |sa|
    requires SidesBelow(t0, s, sa, lcpa, maxLen, h1, entropy, i) && RankSides(t0, t, s, sa, lcpa, maxLen, h1, entropy, i)
    requires SideNodesBelow(hl0, hr0, s, sa, lcpa, maxLen, entropy, i) && SidesOk(hl0, hr0, hl, hr, s, sa, entropy)
    requires RankSidesWritten(hl, hr, s, sa, lcpa, maxLen, entropy, i)
    ensures SidesBelow(t, s, sa, lcpa, maxLen, h1, entropy, i + 1) && SideNodesBelow(hl, hr, s, sa, lcpa, maxLen, entropy, i + 1)
  {
    SidesKept(hl0, hr0, hl, hr, s, sa, entropy);
  }

  /** The entropy totals of the ranks below hi sum the contributions of the strings they
      count. */
  lemma {:induction false} SideBelowEmitted(s: seq<nat>, sa: seq<nat>, lcpa: seq<nat>, maxLen: nat, hi: nat, j: nat, side: Side,
                                            h1: real, entropy: multiset<nat> -> real)
    requires hi <= |sa| && forall k :: 0 <= k < |sa| ==> sa[k] <= |s|
    requires forall i :: 0 <= i < hi ==> AddsSide(s, sa, lcpa, maxLen, i, j, side, h1, entropy)
    ensures SideBelow(s, sa, lcpa, maxLen, hi, j, side, h1, entropy) == SideSum(Emitted(s, sa, lcpa, maxLen, hi, j), s, sa, side, h1, entropy)
  {
    if hi > 0 {
      SideBelowEmitted(s, sa, lcpa, maxLen, hi - 1, j, side, h1, entropy);
      assert AddsSide(s, sa, lcpa, maxLen, hi - 1, j, side, h1, entropy);
    }
  }

  /** Rank i adds to the sum over the strings counted of length j + 1 what it adds to
      `SideBelow`. */
  ghost predicate AddsSide(s: seq<nat>, sa: seq<nat>, lcpa: seq<nat>, maxLen: nat, i: nat, j: nat, side: Side,
                           h1: real, entropy: multiset<nat> -> real)
    requires forall k :: 0 <= k < |sa| ==> sa[k] <= |s|
  {
    SideSum(Emitted(s, sa, lcpa, maxLen, i + 1, j), s, sa, side, h1, entropy)
    == SideSum(Emitted(s, sa, lcpa, maxLen, i, j), s, sa, side, h1, entropy)
       + if Emits(s, sa, lcpa, maxLen, i, j) then SideAt(s, sa, i, j + 1, side, h1, entropy) else 0.0
  }

  /** `AddsSide` at every rank. */
  lemma AllAddSide(s: seq<nat>, sa: seq<nat>, lcpa: seq<nat>, maxLen: nat, j: nat, side: Side,
                   h1: real, entropy: multiset<nat> -> real)
    requires Arrays(s, sa, lcpa) && EmitsOnce(s, sa, lcpa, maxLen, j)
    ensures forall i :: 0 <= i < |sa| ==> AddsSide(s, sa, lcpa, maxLen, i, j, side, h1, entropy)
  {
    forall i | 0 <= i < |sa|
      ensures AddsSide(s, sa, lcpa, maxLen, i, j, side, h1, entropy)
    {
      EmittedSideAdd(s, sa, lcpa, maxLen, i, j, side, h1, entropy);
    }
  }

  /** One rank of `AllAddSide`. */
  lemma EmittedSideAdd(s: seq<nat>, sa: seq<nat>, lcpa: seq<nat>, maxLen: nat, i: nat, j: nat, side: Side,
                       h1: real, entropy: multiset<nat> -> real)
    requires Arrays(s, sa, lcpa) && i < |sa| && EmitsOnce(s, sa, lcpa, maxLen, j)
    ensures AddsSide(s, sa, lcpa, maxLen, i, j, side, h1, entropy)
  {
    if Emits(s, sa, lcpa, maxLen, i, j) {
      EmittedSideStep(s, sa, lcpa, maxLen, i, j, side, h1, entropy);
    } else {
      EmittedSkip(s, sa, lcpa, maxLen, i, j);
    }
  }

  /** A rank that does not count a string of length j + 1 adds nothing. */
  lemma EmittedSkip(s: seq<nat>, sa: seq<nat>, lcpa: seq<nat>, maxLen: nat, i: nat, j: nat)
    requires !Emits(s, sa, lcpa, maxLen, i, j)
    ensures Emitted(s, sa, lcpa, maxLen, i + 1, j) == Emitted(s, sa, lcpa, maxLen, i, j)
  {
    assert Emitted(s, sa, lcpa, maxLen, i + 1, j) == Emitted(s, sa, lcpa, maxLen, i, j) + {};
  }

  /** A rank that counts a string adds it to the sum. */
  lemma EmittedSideStep(s: seq<nat>, sa: seq<nat>, lcpa: seq<nat>, maxLen: nat, i: nat, j: nat, side: Side,
                        h1: real, entropy: multiset<nat> -> real)
    requires Arrays(s, sa, lcpa) && i < |sa| && EmitsOnce(s, sa, lcpa, maxLen, j) && Emits(s, sa, lcpa, maxLen, i, j)
    ensures SideSum(Emitted(s, sa, lcpa, maxLen, i + 1, j), s, sa, side, h1, entropy)
            == SideSum(Emitted(s, sa, lcpa, maxLen, i, j), s, sa, side, h1, entropy) + SideAt(s, sa, i, j + 1, side, h1, entropy)
  {
    var w := s[sa[i]..sa[i] + j + 1];
    EmittedFresh(s, sa, lcpa, maxLen, i, j);
    var e := Emitted(s, sa, lcpa, maxLen, i + 1, j);
    assert e == Emitted(s, sa, lcpa, maxLen, i, j) + {w};
    assert e - {w} == Emitted(s, sa, lcpa, maxLen, i, j);
    SideSumRemove(e, s, sa, side, h1, entropy, w);
  }

  /** The entropy totals of the whole sweep: on each side, the sum over the distinct
      boundary-free substrings of length j + 1 of the entropy of their neighbours there,
      or `h1` for a string that occurs once. */
  ghost predicate TalliedSides(t: Averages.Totals, s: seq<nat>, sa: seq<nat>, maxLen: nat, h1: real, entropy: multiset<nat> -> real)
    requires forall k :: 0 <= k < |sa| ==> sa[k] <= |s|
  {
    t.Sized(maxLen)
    && forall j :: 0 <= j < maxLen ==>
         t.hl[j] == SideSum(DistinctOf(s, j + 1), s, sa, Left, h1, entropy)
         && t.hr[j] == SideSum(DistinctOf(s, j + 1), s, sa, Right, h1, entropy)
  }

  /** The entropy totals after every rank are those of the text. */
  lemma SweepSidesTallied(t: Averages.Totals, s: seq<nat>, sa: seq<nat>, lcpa: seq<nat>, maxLen: nat,
                          h1: real, entropy: multiset<nat> -> real)
    requires Arrays(s, sa, lcpa) && SidesBelow(t, s, sa, lcpa, maxLen, h1, entropy, |sa|)
    ensures TalliedSides(t, s, sa, maxLen, h1, entropy)
  {
    forall j | 0 <= j < maxLen
      ensures t.hl[j] == SideSum(DistinctOf(s, j + 1), s, sa, Left, h1, entropy)
      ensures t.hr[j] == SideSum(DistinctOf(s, j + 1), s, sa, Right, h1, entropy)
    {
      EmitsOnceArrays(s, sa, lcpa, maxLen, j);
      EmittedDistinct(s, sa, lcpa, maxLen, j);
      AllAddSide(s, sa, lcpa, maxLen, j, Left, h1, entropy);
      AllAddSide(s, sa, lcpa, maxLen, j, Right, h1, entropy);
      SideBelowEmitted(s, sa, lcpa, maxLen, |sa|, j, Left, h1, entropy);
      SideBelowEmitted(s, sa, lcpa, maxLen, |sa|, j, Right, h1, entropy);
    }
  }

  /** Every repeated boundary-free substring of length 1 to `maxLen` has a node holding
      the entropies of its neighbours on both sides. */
  ghost predicate CompleteSides(hl: map<seq<nat>, real>, hr: map<seq<nat>, real>, s: seq<nat>, sa: seq<nat>, maxLen: nat,
                                entropy: multiset<nat> -> real)
    requires forall k :: 0 <= k < |sa| ==> sa[k] <= |s|
  {
    forall p: nat, m: nat :: 1 <= m <= maxLen && p + m <= |s| && Recurs(s, p, m) ==> Sided(hl, hr, s, sa, s[p..p + m], entropy)
  }

  /** The entropies the whole sweep writes cover every repeated substring. */
  lemma SidesComplete(hl: map<seq<nat>, real>, hr: map<seq<nat>, real>, s: seq<nat>, sa: seq<nat>, lcpa: seq<nat>, maxLen: nat,
                      entropy: multiset<nat> -> real)
    requires Arrays(s, sa, lcpa) && SideNodesBelow(hl, hr, s, sa, lcpa, maxLen, entropy, |sa|)
    ensures CompleteSides(hl, hr, s, sa, maxLen, entropy)
  {
    forall p: nat, m: nat | 1 <= m <= maxLen && p + m <= |s| && Recurs(s, p, m)
      ensures Sided(hl, hr, s, sa, s[p..p + m], entropy)
    {
      var r := RecurringRank(s, sa, lcpa, maxLen, p, m);
      assert SidesAt(hl, hr, s, sa, r, m, entropy);
    }
  }

  // -----------------------------------------------------------------------------------------
  // What `score` reads

  /** The part of a counter that `score` reads: the text with its rank and LCP arrays, the
      average tables, `h1_`, the preserve lengths and the trie counters. */
  datatype View = View(s: seq<nat>, isa: seq<nat>, lcpa: seq<nat>, maxLen: nat,
                       fAvgs: seq<real>, hlAvgs: seq<real>, hrAvgs: seq<real>, h1: real,
                       lens: seq<nat>, f: map<seq<nat>, nat>, hl: map<seq<nat>, real>, hr: map<seq<nat>, real>)

  /** Every array of a view has one entry per text position (or per length), and every
      rank is one. */
  predicate Shaped(v: View)
  {
    |v.isa| == |v.s| && |v.lcpa| == |v.s| && |v.lens| == |v.s|
    && |v.fAvgs| == v.maxLen && |v.hlAvgs| == v.maxLen && |v.hrAvgs| == v.maxLen
    && forall k :: 0 <= k < |v.isa| ==> v.isa[k] < |v.s|
  }

  /** The case selection of `score(i, n)` on a view. */
  function CaseIn(v: View, i: nat, n: nat): ScoreCase
    requires Shaped(v) && 1 <= n && i + n <= |v.s|
  {
    if n > v.maxLen || v.fAvgs[n - 1] == 0.0 then Excluded
    else
      var j := v.isa[i];
      if v.lcpa[j] >= n || (j + 1 < |v.s| && v.lcpa[j + 1] >= n) then FromTrie(v.s[i..i + n])
      else if n > v.lens[i] then Singleton
      else Excluded
  }

  /** `score(i, n)` on a view. */
  function ScoreIn(v: View, i: nat, n: nat, formula: Stats -> real): Scored
    requires Shaped(v) && 1 <= n && i + n <= |v.s|
  {
    match CaseIn(v, i, n)
    case Excluded => NegInf
    case Singleton => Value(formula(Stats(n, 1.0, v.h1, v.h1, v.fAvgs[n - 1], v.hlAvgs[n - 1], v.hrAvgs[n - 1])))
    case FromTrie(q) =>
      if q in v.f && q in v.hl && q in v.hr then
        Value(formula(Stats(n, v.f[q] as real, v.hl[q], v.hr[q], v.fAvgs[n - 1], v.hlAvgs[n - 1], v.hrAvgs[n - 1])))
      else NullNode
  }

  // -----------------------------------------------------------------------------------------
  // The counter

  class StringCounter {
    const lrvExp: real
    const maxLen: nat
    const smooth: real
    var h1: real
    var fAvgs: seq<real>
    var hlAvgs: seq<real>
    var hrAvgs: seq<real>
    var strNums: seq<nat>
    var countMinLens: seq<nat>
    const trie: FreqTries.SharedTrie
    const sa: SuffixArrays.SuffixArray

    /** Parameters as the constructor admits them, a consistent trie and suffix array, and
        one table entry per length up to `maxLen`. */
    ghost predicate Valid()
      reads this, trie, sa, sa.text
    {
      trie.Valid() && sa.Valid() && lrvExp >= 0.0 && smooth >= 0.0
      && |fAvgs| == maxLen && |hlAvgs| == maxLen && |hrAvgs| == maxLen && |strNums| == maxLen
    }

    /** After `fit`: one preserve length per suffix. */
    ghost predicate Fitted()
      reads this, trie, sa, sa.text
    {
      Valid() && |countMinLens| == |sa.text.data|
    }

    /** Every repeated boundary-free substring of the text up to `maxLen` has a trie node,
        as the sweep of `fit` leaves it. */
    ghost predicate Indexed()
      reads this, trie, sa, sa.text
    {
      HasNodes(trie.f, sa.text.data, maxLen)
    }

    /** The tables start at zero; `h1_` is left unset by the source until `calc_avg`, and
        is 0 here. */
    constructor (lrvExp: real, maxLen: nat, smooth: real)
      requires lrvExp >= 0.0 && smooth >= 0.0
      ensures Valid() && fresh(trie) && fresh(sa) && fresh(sa.text)
      ensures this.lrvExp == lrvExp && this.maxLen == maxLen && this.smooth == smooth
      ensures fAvgs == seq(maxLen, _ => 0.0) && hlAvgs == fAvgs && hrAvgs == fAvgs
      ensures strNums == seq(maxLen, _ => 0) && countMinLens == []
      ensures trie.f == map[[] := 0] && sa.text.data == []
    {
      this.lrvExp := lrvExp;
      this.maxLen := maxLen;
      this.smooth := smooth;
      h1 := 0.0;
      fAvgs := seq(maxLen, _ => 0.0);
      hlAvgs := seq(maxLen, _ => 0.0);
      hrAvgs := seq(maxLen, _ => 0.0);
      strNums := seq(maxLen, _ => 0);
      countMinLens := [];
      trie := new FreqTries.SharedTrie();
      sa := new SuffixArrays.SuffixArray();
    }

    /** `set_pres(pres, p, n)`: writes the preserve lengths of the raw string at p cut at
        `pres`, and takes every word of that segmentation out of the trie counts. */
    method SetPres(pres: seq<nat>, p: nat, n: nat)
      requires Fitted() && ValidCuts(pres, n) && 1 <= n && p + n <= |countMinLens|
      modifies this, trie
      ensures Fitted()
      ensures countMinLens == old(countMinLens)[..p] + PresLens(pres, n) + old(countMinLens)[p + n..]
      ensures trie.f == WalkedEach(old(trie.f), Words(sa.text.data, p, pres, n), false)
      ensures trie.hl == old(trie.hl) && trie.hr == old(trie.hr) && (Indexed() <==> old(Indexed()))
      ensures fAvgs == old(fAvgs) && hlAvgs == old(hlAvgs) && hrAvgs == old(hrAvgs)
      ensures strNums == old(strNums) && h1 == old(h1)
    {
      countMinLens := WritePres(countMinLens, pres, p, n);
      WalkWords(trie, sa.text.data, p, pres, n, false);
    }

    /** `unset_pres(pres, p, n)`: clears the preserve lengths of the raw string at p and
        puts every word of the segmentation back into the trie counts. */
    method UnsetPres(pres: seq<nat>, p: nat, n: nat)
      requires Fitted() && ValidCuts(pres, n) && p + n <= |countMinLens|
      modifies this, trie
      ensures Fitted()
      ensures countMinLens == ZeroWindow(old(countMinLens), p, n)
      ensures trie.f == WalkedEach(old(trie.f), Words(sa.text.data, p, pres, n), true)
      ensures trie.hl == old(trie.hl) && trie.hr == old(trie.hr) && (Indexed() <==> old(Indexed()))
      ensures fAvgs == old(fAvgs) && hlAvgs == old(hlAvgs) && hrAvgs == old(hrAvgs)
      ensures strNums == old(strNums) && h1 == old(h1)
    {
      countMinLens := ZeroWindow(countMinLens, p, n);
      WalkWords(trie, sa.text.data, p, pres, n, true);
    }

    /** The case `score(i, n)` selects: excluded when n exceeds `maxLen` or its average
        frequency is zero; the trie node when `s[i..i+n]` is a repeated boundary-free
        substring; the singleton values when it occurs once and n exceeds the preserve
        length at i; excluded otherwise. */
    function Case(i: nat, n: nat): (c: ScoreCase)
      reads this, trie, sa, sa.text
      requires Fitted() && 1 <= n && i + n <= |sa.text.data|
      ensures var guard := n > maxLen || fAvgs[n - 1] == 0.0;
        && (c.FromTrie? <==> !guard && Recurs(sa.text.data, i, n))
        && (c.Singleton? <==> !guard && !Recurs(sa.text.data, i, n) && n > countMinLens[i])
        && (c.FromTrie? ==> c.path == sa.text.data[i..i + n])
    {
      SharedIffRecurs(sa.text.data, sa.sa, sa.isa, sa.lcpa, i, n);
      CaseIn(Snapshot(), i, n)
    }

    /** `score(i, n)`: minus infinity when excluded, else the formula applied to the
        chosen statistics (the node's counters, or frequency 1 with entropy `h1` on both
        sides) and the averages for length n. */
    function Score(i: nat, n: nat, formula: Stats -> real): (r: Scored)
      reads this, trie, sa, sa.text
      requires Fitted() && 1 <= n && i + n <= |sa.text.data|
      ensures r.NegInf? <==> Case(i, n).Excluded?
      ensures Case(i, n).Singleton? ==>
                r == Value(formula(Stats(n, 1.0, h1, h1, fAvgs[n - 1], hlAvgs[n - 1], hrAvgs[n - 1])))
      ensures Case(i, n).FromTrie? && Case(i, n).path in trie.f ==>
                var q := Case(i, n).path;
                r == Value(formula(Stats(n, trie.f[q] as real, trie.hl[q], trie.hr[q], fAvgs[n - 1], hlAvgs[n - 1], hrAvgs[n - 1])))
      ensures r.NullNode? <==> Case(i, n).FromTrie? && Case(i, n).path !in trie.f
      ensures Indexed() ==> !r.NullNode?
    {
      ScoreIn(Snapshot(), i, n, formula)
    }

    /** The part of this counter that `score` reads. */
    function Snapshot(): (v: View)
      reads this, trie, sa, sa.text
      requires Fitted()
      ensures Shaped(v) && v.s == sa.text.data && v.isa == sa.isa && v.lcpa == sa.lcpa
      ensures v.maxLen == maxLen && v.fAvgs == fAvgs && v.hlAvgs == hlAvgs && v.hrAvgs == hrAvgs && v.h1 == h1
      ensures v.lens == countMinLens && v.f == trie.f && v.hl == trie.hl && v.hr == trie.hr
    {
      InverseRoundTrip(sa.text.data, sa.sa, sa.isa, |sa.sa|);
      View(sa.text.data, sa.isa, sa.lcpa, maxLen, fAvgs, hlAvgs, hrAvgs, h1, countMinLens, trie.f, trie.hl, trie.hr)
    }

    /** `raw_string_count()`: the number of raw strings in the suffix array's text. */
    function RawStringCount(): (r: nat)
      reads this, trie, sa, sa.text
      requires Valid()
      ensures r == |sa.text.offsets|
    {
      sa.StringCount()
    }

    /** `raw_string_length(i)`: the length of raw string i, which starts where the string
        before it ends. */
    function RawStringLength(i: nat): (r: nat)
      reads this, trie, sa, sa.text
      requires Valid() && i < |sa.text.offsets|
      ensures sa.text.Start(i) + r < |sa.text.data| && sa.text.data[sa.text.Start(i) + r] == EncStr.Boundary
      ensures i + 1 < |sa.text.offsets| ==> sa.text.Start(i + 1) == sa.text.Start(i) + r + 1
    {
      sa.StringLength(i)
    }

    /** The suffix array of a fitted counter meets what the sweep reads. */
    lemma SweepArrays()
      requires Valid()
      ensures Arrays(sa.text.data, sa.sa, sa.lcpa)
    {
    }

    /** `calc_avg()`: `h1_` is the entropy of a single boundary, the rank sweep writes the
        counts of every repeated substring into the trie, and the tables hold the per-length
        averages of its totals, divided up to the first length without any string. */
    method CalcAvg(entropy: multiset<nat> -> real) returns (ghost t: Averages.Totals)
      requires Valid()
      modifies this, trie
      ensures Valid() && h1 == entropy(multiset{EncStr.Boundary}) && countMinLens == old(countMinLens)
      ensures SweepOk(old(trie.f), trie.f, sa.text.data, sa.sa, maxLen)
      ensures Tallied(t, sa.text.data, maxLen) && strNums == t.nums
      ensures var m := Averages.FirstZero(t.nums);
        fAvgs == Averages.DividedBelow(t.f, t.nums, m)
        && hlAvgs == Averages.DividedBelow(t.hl, t.nums, m)
        && hrAvgs == Averages.DividedBelow(t.hr, t.nums, m)
      ensures Complete(trie.f, sa.text.data, sa.sa, maxLen)
      ensures SidesOk(old(trie.hl), old(trie.hr), trie.hl, trie.hr, sa.text.data, sa.sa, entropy)
      ensures TalliedSides(t, sa.text.data, sa.sa, maxLen, h1, entropy)
      ensures CompleteSides(trie.hl, trie.hr, sa.text.data, sa.sa, maxLen, entropy)
    {
      var h := entropy(multiset{EncStr.Boundary});
      var totals := SweepTrie(h, entropy);
      t := totals;
      SetAverages(h, totals);
    }

    /** The last loop of `calc_avg`: the tables take the averages of the totals. */
    method SetAverages(h: real, t: Averages.Totals)
      requires Valid() && t.Sized(maxLen)
      modifies this
      ensures Valid() && h1 == h && countMinLens == old(countMinLens) && strNums == t.nums
      ensures var m := Averages.FirstZero(t.nums);
        fAvgs == Averages.DividedBelow(t.f, t.nums, m)
        && hlAvgs == Averages.DividedBelow(t.hl, t.nums, m)
        && hrAvgs == Averages.DividedBelow(t.hr, t.nums, m)
    {
      var r := Averages.Average(t, maxLen);
      h1, fAvgs, hlAvgs, hrAvgs, strNums := h, r.f, r.hl, r.hr, r.nums;
    }

    /** The rank sweep over this counter's suffix array and trie. */
    method SweepTrie(h: real, entropy: multiset<nat> -> real) returns (t: Averages.Totals)
      requires Valid()
      modifies trie
      ensures Valid() && SweepOk(old(trie.f), trie.f, sa.text.data, sa.sa, maxLen)
      ensures Tallied(t, sa.text.data, maxLen) && Complete(trie.f, sa.text.data, sa.sa, maxLen)
      ensures SidesOk(old(trie.hl), old(trie.hr), trie.hl, trie.hr, sa.text.data, sa.sa, entropy)
      ensures TalliedSides(t, sa.text.data, sa.sa, maxLen, h, entropy)
      ensures CompleteSides(trie.hl, trie.hr, sa.text.data, sa.sa, maxLen, entropy)
    {
      SweepArrays();
      t := SweepIntervals(trie, sa.text.data, sa.sa, sa.lcpa, maxLen, h, entropy);
    }

    /** `fit(g)`: appends the strings of g to the suffix array and rebuilds it, recomputes
        the averages from the totals `t` of the sweep, and resets every preserve length to 0. */
    method Fit(g: seq<seq<nat>>, entropy: multiset<nat> -> real) returns (ghost t: Averages.Totals)
      requires Valid()
      modifies this, trie, sa, sa.text
      ensures Fitted()
      ensures h1 == entropy(multiset{EncStr.Boundary}) && Tallied(t, sa.text.data, maxLen) && strNums == t.nums
      ensures var m := Averages.FirstZero(t.nums);
        fAvgs == Averages.DividedBelow(t.f, t.nums, m)
        && hlAvgs == Averages.DividedBelow(t.hl, t.nums, m)
        && hrAvgs == Averages.DividedBelow(t.hr, t.nums, m)
      ensures sa.text.data == old(sa.text.data) + SuffixArrays.Concat(old(sa.text.idMap), g)
      ensures |sa.text.offsets| == |old(sa.text.offsets)| + |g|
      ensures SuffixArrays.LensKept(old(sa.text.offsets), sa.text.offsets, g, |g|)
      ensures countMinLens == seq(|sa.text.data|, _ => 0)
      ensures SweepOk(old(trie.f), trie.f, sa.text.data, sa.sa, maxLen)
      ensures Complete(trie.f, sa.text.data, sa.sa, maxLen) && Indexed()
      ensures forall j :: 0 <= j < maxLen ==> strNums[j] == |DistinctOf(sa.text.data, j + 1)|
      ensures SidesOk(old(trie.hl), old(trie.hr), trie.hl, trie.hr, sa.text.data, sa.sa, entropy)
      ensures TalliedSides(t, sa.text.data, sa.sa, maxLen, h1, entropy)
      ensures CompleteSides(trie.hl, trie.hr, sa.text.data, sa.sa, maxLen, entropy)
    {
      sa.Construct(g);
      t := CalcAvg(entropy);
      ResetLens();
      CompleteHasNodes(trie.f, sa.text.data, sa.sa, maxLen);
    }

    /** The last step of `fit`: one preserve length of 0 per suffix. */
    method ResetLens()
      requires Valid()
      modifies this
      ensures Fitted() && countMinLens == seq(|sa.text.data|, _ => 0)
      ensures fAvgs == old(fAvgs) && hlAvgs == old(hlAvgs) && hrAvgs == old(hrAvgs)
      ensures strNums == old(strNums) && h1 == old(h1)
    {
      countMinLens := seq(sa.Size(), _ => 0);
    }

    /** `clear()`: empties the suffix array only; the trie, the tables and the preserve
        lengths stay as they are. */
    method Clear()
      requires Valid()
      modifies sa, sa.text
      ensures Valid()
      ensures sa.text.data == [] && sa.text.offsets == [] && sa.sa == []
    {
      sa.Clear();
    }
  }

  /** The trie updates of `set_pres` (`up` false: `decrease`) and `unset_pres` (`up` true:
      `increase`): one walk per word `[p + prev, p + pos)` in order, then the last word
      `[p + last, p + n)`. */
  method WalkWords(trie: FreqTries.SharedTrie, s: seq<nat>, p: nat, pres: seq<nat>, n: nat, up: bool)
    requires trie.Valid() && ValidCuts(pres, n) && p + n <= |s|
    modifies trie
    ensures trie.Valid()
    ensures trie.f == WalkedEach(old(trie.f), Words(s, p, pres, n), up)
    ensures trie.hl == old(trie.hl) && trie.hr == old(trie.hr)
  {
    var ws := Words(s, p, pres, n);
    ghost var f0 := trie.f;
    var k := 0;
    while k < |ws|
      invariant 0 <= k <= |ws|
      invariant trie.Valid() && trie.f == WalkedEach(f0, ws[..k], up)
      invariant trie.hl == old(trie.hl) && trie.hr == old(trie.hr)
    {
      WalkedEachSnoc(f0, ws, k, up);
      Step(trie, ws[k], up);
      k := k + 1;
    }
    assert ws[..k] == ws;
  }

  /** One `increase` (`up`) or `decrease` of the range r. */
  method Step(trie: FreqTries.SharedTrie, r: seq<nat>, up: bool)
    requires trie.Valid()
    modifies trie
    ensures trie.Valid() && trie.f == Walked(old(trie.f), r, up)
    ensures trie.hl == old(trie.hl) && trie.hr == old(trie.hr)
  {
    if up {
      trie.Increase(r);
    } else {
      trie.Decrease(r);
    }
  }

  /** The constructor of `string_counter`: a negative LRV exponent is rejected first, then
      a negative smoothing parameter, each with `invalid_argument`. */
  method NewStringCounter(lrvExp: real, maxLen: nat, smooth: real) returns (r: Made<StringCounter>)
    ensures r.InvalidArgument? <==> lrvExp < 0.0 || smooth < 0.0
    ensures r.InvalidArgument? ==> r.message == if lrvExp < 0.0 then LrvMessage else SmoothMessage
    ensures r.Made? ==> fresh(r.value) && r.value.Valid() && r.value.sa.text.data == []
    ensures r.Made? ==> r.value.lrvExp == lrvExp && r.value.maxLen == maxLen && r.value.smooth == smooth
  {
    if lrvExp < 0.0 {
      return InvalidArgument(LrvMessage);
    }
    if smooth < 0.0 {
      return InvalidArgument(SmoothMessage);
    }
    var c := new StringCounter(lrvExp, maxLen, smooth);
    return Made(c);
  }

  /** `set_pres` followed by `unset_pres` with the same cuts restores every trie frequency
      and, on a window that was clear, every preserve length. */
  lemma SetUnsetRoundTrip(f: map<seq<nat>, nat>, lens: seq<nat>, s: seq<nat>, pres: seq<nat>, p: nat, n: nat)
    requires Bounded(f) && ValidCuts(pres, n) && p + n <= |lens| && p + n <= |s|
    requires forall k :: p <= k < p + n ==> lens[k] == 0
    ensures var ws := Words(s, p, pres, n);
      WalkedEach(WalkedEach(f, ws, false), ws, true) == f
    ensures ZeroWindow(lens[..p] + PresLens(pres, n) + lens[p + n..], p, n) == lens
  {
    WalkedEachRoundTrip(f, Words(s, p, pres, n), false);
    ZeroAfterWrite(lens, pres, p, n);
  }
}
