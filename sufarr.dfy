/** The sentinel suffix array of src/sufarr.cpp: it sorts the `|s| + 1` suffixes of the
    id buffer `s`, the empty suffix at position `|s|` (the virtual sentinel) first, keeps the
    inverse ranks and the boundary-free LCP array, and answers pattern queries by binary
    search over ranks `1 .. |s|`. The array is sorted by the reference construction
    `SuffixSpec.SortSuffixes`, not by the induced-sorting construction of the source; of
    that construction only the sentinel bucket counting is modelled
    (`Sais.InitBktSentinel`). */
module Sufarr {
  import opened Lex
  import opened SuffixSpec

  /** Symbol k of `s`; a read one past the text yields the virtual sentinel, smaller than
      every id. */
  function SymbolAt(s: seq<nat>, k: nat): (r: int)
    ensures k < |s| ==> r == s[k]
    ensures k >= |s| ==> r < 0
  {
    if k < |s| then s[k] else -1
  }

  /** `a` is greater than `t` at a real mismatch: greater, and not starting with `t`. */
  predicate Above(t: seq<nat>, a: seq<nat>)
    decreases |t|
  {
    |t| > 0 && |a| > 0 && (t[0] < a[0] || (t[0] == a[0] && Above(t[1..], a[1..])))
  }

  /** `Above` is the order minus the extensions of `t`. */
  lemma {:induction false} AboveMeaning(t: seq<nat>, a: seq<nat>)
    ensures Above(t, a) <==> Less(t, a) && !IsPrefix(t, a)
    decreases |t|
  {
    if |t| > 0 && |a| > 0 && t[0] == a[0] {
      AboveMeaning(t[1..], a[1..]);
      if IsPrefix(t[1..], a[1..]) {
        assert a[..|t|] == [a[0]] + a[1..][..|t| - 1];
        assert t == [t[0]] + t[1..];
      }
      if IsPrefix(t, a) {
        assert a[1..][..|t| - 1] == a[..|t|][1..];
      }
    }
  }

  /** The suffixes starting with `t` are those neither below `t` nor above it. */
  lemma PrefixBetween(t: seq<nat>, a: seq<nat>)
    ensures IsPrefix(t, a) <==> !Less(a, t) && !Above(t, a)
  {
    AboveMeaning(t, a);
    if IsPrefix(t, a) {
      PrefixNotGreater(t, a);
    } else if !Less(a, t) {
      assert t != a by { assert t[..|t|] == t; }
      LessTotal(t, a);
    }
  }

  /** The tests of the searches, decided at the common prefix of `t` and `a`. */
  lemma MismatchTests(t: seq<nat>, a: seq<nat>)
    ensures var l := Lcp(t, a);
      (l == |t| || (l < |a| && t[l] < a[l])) <==> !Less(a, t)
    ensures var l := Lcp(t, a);
      (l < |t| && l < |a| && t[l] < a[l]) <==> Above(t, a)
    ensures var l := Lcp(t, a);
      l < |t| && l < |a| ==> t[l] != a[l]
  {
    var l := Lcp(t, a);
    LcpSpec(t, a);
    LessAtMismatch(t, a, l);
    AboveMeaning(t, a);
    if l == |t| {
      LcpPrefix(t, a);
      PrefixNotGreater(t, a);
    } else if l < |a| && t[l] < a[l] {
      LessAsymmetric(t, a);
      LcpPrefix(t, a);
    } else if l < |a| {
      LessAsymmetric(a, t);
    } else {
      LessAsymmetric(a, t);
    }
  }

  /** Both search predicates are monotone along the order. */
  lemma NotBelowMonotone(t: seq<nat>, a: seq<nat>, b: seq<nat>)
    requires Less(a, b) && !Less(a, t)
    ensures !Less(b, t)
  {
    if Less(b, t) {
      LessTransitive(a, b, t);
    }
  }

  lemma {:induction false} AboveMonotone(t: seq<nat>, a: seq<nat>, b: seq<nat>)
    requires Less(a, b) && Above(t, a)
    ensures Above(t, b)
    decreases |t|
  {
    LessHead(a, b);
    if t[0] == a[0] && a[0] == b[0] {
      AboveMonotone(t[1..], a[1..], b[1..]);
    }
  }

  class SuffixArray {
    var text: seq<nat>
    var sa: seq<nat>
    var isa: seq<nat>
    var lcpa: seq<nat>

    /** Built state: all `|text| + 1` suffixes sorted, inverse ranks, LCP array. */
    predicate Valid()
      reads this
    {
      IsSuffixArray(text, sa, |text| + 1)
      && IsInverse(sa, isa)
      && IsLcpArray(text, sa, lcpa)
      && lcpa[0] == 0
    }

    /** Every state a caller can see: freshly made or cleared, or built. */
    predicate Reachable()
      reads this
    {
      (sa == [] && isa == [] && lcpa == []) || Valid()
    }

    /** The suffix at rank k. */
    function Suf(k: nat): (r: seq<nat>)
      reads this
      requires Valid() && k < |sa|
      ensures r == text[sa[k]..]
    {
      text[sa[k]..]
    }

    /** The default constructor leaves every vector empty. */
    constructor ()
      ensures Reachable()
      ensures text == [] && sa == [] && isa == [] && lcpa == []
    {
      text, sa, isa, lcpa := [], [], [], [];
    }

    /** Stores `s` and builds with the largest id of `s` as the alphabet bound. */
    constructor FromText(s: seq<nat>)
      requires |s| > 0
      ensures Valid() && text == s
    {
      text := s;
      sa := [];
      isa := [];
      lcpa := [];
      new;
      Build(MaxId(s));
    }

    /** The two-argument constructor as written: `s` is not stored, so the arrays are built
        for the empty text, whatever `s` is. */
    constructor WithAlphabet(s: seq<nat>, numAlphas: nat)
      ensures Valid() && text == [] && sa == [0]
    {
      text := [];
      sa := [];
      isa := [];
      lcpa := [];
      new;
      Build(numAlphas);
    }

    /** `construct(s)`: copies `s` and builds. */
    method Construct(s: seq<nat>)
      requires |s| > 0 && Reachable()
      modifies this
      ensures Valid() && text == s
    {
      text := s;
      Build(MaxId(s));
    }

    /** `construct(s, num_alphas)`: copies `s` and builds with ids `0 .. numAlphas`. */
    method ConstructWithAlphabet(s: seq<nat>, numAlphas: nat)
      requires forall k :: 0 <= k < |s| ==> s[k] <= numAlphas
      requires Reachable()
      modifies this
      ensures Valid() && text == s
    {
      text := s;
      Build(numAlphas);
    }

    /** `construct(num_alphas)`: resizes the arrays to `|text| + 1` and fills them. */
    method Build(numAlphas: nat)
      requires |lcpa| > 0 ==> lcpa[0] == 0
      modifies this
      ensures Valid() && text == old(text)
      ensures |sa| == |text| + 1 && sa[0] == |text|
    {
      var m := |text| + 1;
      sa := SortSuffixes(text, m);
      isa := InvertSuffixArray(text, sa, m, isa);
      lcpa := KasaiLcp(text, sa, isa, m, lcpa);
      EmptySuffixFirst(text, sa);
    }

    /** Empties the text and the three arrays. */
    method Clear()
      modifies this
      ensures Reachable()
      ensures text == [] && sa == [] && isa == [] && lcpa == []
    {
      text, sa, isa, lcpa := [], [], [], [];
    }

    /** Number of ranks, the text length plus one. */
    function Size(): (r: nat)
      reads this
      requires Valid()
      ensures r == |text| + 1
    {
      |sa|
    }

    /** Never empty once built. */
    function Empty(): (r: bool)
      reads this
      requires Valid()
      ensures !r
    {
      |sa| == 0
    }

    function Term(i: nat): (r: nat)
      reads this
      requires i < |text|
      ensures r == text[i]
    {
      text[i]
    }

    /** The rank of the suffix at position i. */
    function Rank(i: nat): (r: nat)
      reads this
      requires Valid() && i <= |text|
      ensures r < |sa| && sa[r] == i
    {
      InverseRoundTrip(text, sa, isa, |sa|);
      isa[i]
    }

    /** The LCP entry at rank i. */
    function Lcp(i: nat): (r: nat)
      reads this
      requires Valid() && i < |sa|
      ensures i > 0 ==> r == Lcp0(Suf(i), Suf(i - 1))
      ensures i == 0 ==> r == 0
    {
      assert i > 0 ==> LcpAt(text, sa, lcpa, i);
      lcpa[i]
    }

    /** The position of the suffix at rank i (`at` and `operator[]`). */
    function At(i: nat): (r: nat)
      reads this
      requires Valid() && i < |sa|
      ensures r <= |text| && isa[r] == i
      ensures i + 1 < |sa| ==> Less(text[r..], Suf(i + 1))
    {
      assert i + 1 < |sa| ==> RankLess(text, sa, i, i + 1);
      sa[i]
    }

    /** `calc_lcp(t, i)`: the plain common prefix of `t` and the suffix at rank i, bounded
        by `|t|` and by the end of the text. */
    method CalcLcp(t: seq<nat>, i: nat) returns (lcp: nat)
      requires Valid() && i < |sa|
      ensures lcp == Lex.Lcp(t, Suf(i))
    {
      var a := text[sa[i]..];
      lcp := 0;
      while lcp < |t| && sa[i] + lcp < |text| && t[lcp] == text[sa[i] + lcp]
        invariant lcp <= |t| && lcp <= |a|
        invariant forall k :: 0 <= k < lcp ==> t[k] == a[k]
      {
        lcp := lcp + 1;
      }
      LcpExact(t, a, lcp);
    }

    /** `lower_bound(t)`: the first rank in `1 .. |text|` whose suffix is not below `t`
        (a suffix starting with `t` is not below it), or `|text| + 1` if there is none. */
    method LowerBound(t: seq<nat>) returns (r: nat)
      requires Valid() && |text| > 0
      ensures 1 <= r <= |text| + 1
      ensures forall k :: 1 <= k < r ==> Less(Suf(k), t)
      ensures r <= |text| ==> !Less(Suf(r), t)
    {
      var lenS := |text|;
      var lenT := |t|;
      var llcp := CalcLcp(t, 1);
      var rlcp := CalcLcp(t, lenS);
      MismatchTests(t, Suf(1));
      MismatchTests(t, Suf(lenS));
      if llcp == lenT || t[llcp] < SymbolAt(text, sa[1] + llcp) {
        r := 1;
      } else if rlcp < lenT && t[rlcp] > SymbolAt(text, sa[lenS] + rlcp) {
        r := lenS + 1;
        BelowUpTo(t, lenS);
      } else {
        var l := 1;
        r := lenS;
        while l + 1 < r
          invariant 1 <= l < r <= lenS
          invariant Less(Suf(l), t) && !Less(Suf(r), t)
        {
          var m := (l + r) / 2;
          var mlcp := CalcLcp(t, m);
          MismatchTests(t, Suf(m));
          if mlcp == lenT || t[mlcp] < SymbolAt(text, sa[m] + mlcp) {
            r := m;
          } else {
            l := m;
          }
        }
        BelowUpTo(t, l);
      }
    }

    /** Every rank from 1 up to a rank whose suffix is below `t` is below `t` too. */
    lemma BelowUpTo(t: seq<nat>, l: nat)
      requires Valid() && 1 <= l < |sa| && Less(Suf(l), t)
      ensures forall k :: 1 <= k <= l ==> Less(Suf(k), t)
    {
      forall k | 1 <= k < l
        ensures Less(Suf(k), t)
      {
        assert RankLess(text, sa, k, l);
        LessTransitive(Suf(k), Suf(l), t);
      }
    }

    /** Every rank from a rank whose suffix is above `t` to the last is above `t` too. */
    lemma AboveFrom(t: seq<nat>, r: nat)
      requires Valid() && 1 <= r < |sa| && Above(t, Suf(r))
      ensures forall k :: r <= k < |sa| ==> Above(t, Suf(k))
    {
      forall k | r < k < |sa|
        ensures Above(t, Suf(k))
      {
        assert RankLess(text, sa, r, k);
        AboveMonotone(t, Suf(r), Suf(k));
      }
    }

    /** `upper_bound(t)`: the first rank in `1 .. |text|` whose suffix is above `t` and does
        not start with it, or `|text| + 1` if there is none. */
    method UpperBound(t: seq<nat>) returns (r: nat)
      requires Valid() && |text| > 0
      ensures 1 <= r <= |text| + 1
      ensures forall k :: 1 <= k < r ==> !Above(t, Suf(k))
      ensures r <= |text| ==> Above(t, Suf(r))
    {
      var lenS := |text|;
      var lenT := |t|;
      var llcp := CalcLcp(t, 1);
      var rlcp := CalcLcp(t, lenS);
      MismatchTests(t, Suf(1));
      MismatchTests(t, Suf(lenS));
      if llcp < lenT && t[llcp] < SymbolAt(text, sa[1] + llcp) {
        r := 1;
      } else if rlcp == lenT || t[rlcp] > SymbolAt(text, sa[lenS] + rlcp) {
        r := lenS + 1;
        NotAboveUpTo(t, lenS);
      } else {
        var l := 1;
        r := lenS;
        while l + 1 < r
          invariant 1 <= l < r <= lenS
          invariant !Above(t, Suf(l)) && Above(t, Suf(r))
        {
          var m := (l + r) / 2;
          var mlcp := CalcLcp(t, m);
          MismatchTests(t, Suf(m));
          if mlcp < lenT && t[mlcp] < SymbolAt(text, sa[m] + mlcp) {
            r := m;
          } else {
            l := m;
          }
        }
        NotAboveUpTo(t, l);
      }
    }

    /** Every rank from 1 up to a rank whose suffix is not above `t` is not above it. */
    lemma NotAboveUpTo(t: seq<nat>, l: nat)
      requires Valid() && 1 <= l < |sa| && !Above(t, Suf(l))
      ensures forall k :: 1 <= k <= l ==> !Above(t, Suf(k))
    {
      forall k | 1 <= k < l
        ensures !Above(t, Suf(k))
      {
        if Above(t, Suf(k)) {
          assert RankLess(text, sa, k, l);
          AboveMonotone(t, Suf(k), Suf(l));
        }
      }
    }

    /** The ranks in `[lower_bound(t), upper_bound(t))` are exactly the ranks in
        `1 .. |text|` whose suffix starts with `t`. */
    lemma OccurrenceRange(t: seq<nat>, lb: nat, ub: nat)
      requires Valid() && |text| > 0
      requires 1 <= lb <= |text| + 1 && 1 <= ub <= |text| + 1
      requires forall k :: 1 <= k < lb ==> Less(Suf(k), t)
      requires lb <= |text| ==> !Less(Suf(lb), t)
      requires forall k :: 1 <= k < ub ==> !Above(t, Suf(k))
      requires ub <= |text| ==> Above(t, Suf(ub))
      ensures forall k :: 1 <= k <= |text| ==> (lb <= k < ub <==> IsPrefix(t, Suf(k)))
    {
      forall k | 1 <= k <= |text|
        ensures lb <= k < ub <==> IsPrefix(t, Suf(k))
      {
        PrefixBetween(t, Suf(k));
        if lb < k {
          assert RankLess(text, sa, lb, k);
          NotBelowMonotone(t, Suf(lb), Suf(k));
        }
        if ub < k {
          assert RankLess(text, sa, ub, k);
          AboveMonotone(t, Suf(ub), Suf(k));
        }
        if k < lb {
          LessAsymmetric(Suf(k), t);
        }
      }
    }

    /** `find(t)` as written: the search keeps the open interval between ranks 1 and
        `|text|`, so it only ever reports a rank strictly between them; anything it reports
        starts with `t`. */
    method FindAsWritten(t: seq<nat>) returns (r: nat)
      requires Valid()
      ensures r == |sa| || (1 < r < |text| && IsPrefix(t, Suf(r)))
    {
      var lenS := |text|;
      var lenT := |t|;
      var l := 1;
      var rr := lenS;
      while l + 1 < rr
        invariant 1 <= l && rr <= lenS
      {
        var m := (l + rr) / 2;
        var mlcp := CalcLcp(t, m);
        LcpPrefix(t, Suf(m));
        if mlcp == lenT {
          return m;
        } else if t[mlcp] < SymbolAt(text, sa[m] + mlcp) {
          rr := m;
        } else {
          l := m;
        }
      }
      return |sa|;
    }

    /** `find(t)` over the whole range `1 .. |text|`: the lower bound, if its suffix starts
        with `t`. It reports a rank exactly when some rank in `1 .. |text|` starts with `t`. */
    method Find(t: seq<nat>) returns (r: nat)
      requires Valid() && |text| > 0
      ensures r == |sa| || (1 <= r <= |text| && IsPrefix(t, Suf(r)))
      ensures r == |sa| <==> forall k :: 1 <= k <= |text| ==> !IsPrefix(t, Suf(k))
    {
      var lb := LowerBound(t);
      var ub := UpperBound(t);
      OccurrenceRange(t, lb, ub);
      if lb <= |text| {
        var lcp := CalcLcp(t, lb);
        LcpPrefix(t, Suf(lb));
        if lcp == |t| {
          return lb;
        }
      }
      return |sa|;
    }
  }

  /** The largest id of a non-empty text (`std::max_element`). */
  function MaxId(s: seq<nat>): (r: nat)
    requires |s| > 0
    ensures r in s && forall k :: 0 <= k < |s| ==> s[k] <= r
  {
    if |s| == 1 then s[0]
    else
      var rest := MaxId(s[1..]);
      assert forall k :: 1 <= k < |s| ==> s[k] == s[1..][k - 1];
      if s[0] >= rest then s[0] else rest
  }

  /** The empty suffix is the smallest, so it has rank 0. */
  lemma EmptySuffixFirst(s: seq<nat>, sa: seq<nat>)
    requires IsSuffixArray(s, sa, |s| + 1)
    ensures sa[0] == |s|
  {
    assert Listed(sa, |s|);
    var k :| 0 <= k < |sa| && sa[k] == |s|;
    assert k > 0 ==> RankLess(s, sa, 0, k);
  }

  /** The text `[1, 0]` (one string "a") with the pattern `[1]`: its only occurrence is
      at rank 2 = `|text|`, which the search as written never inspects. */
  lemma FindAsWrittenMisses(sa: seq<nat>)
    requires IsSuffixArray([1, 0], sa, 3)
    ensures sa == [2, 1, 0]
    ensures IsPrefix([1], [1, 0][sa[2]..])
    ensures forall k :: 1 <= k < 2 ==> !IsPrefix([1], [1, 0][sa[k]..])
  {
    var s: seq<nat> := [1, 0];
    var ref: seq<nat> := [2, 1, 0];
    assert s[2..] == [] && s[1..] == [0] && s[0..] == [1, 0];
    assert Less(s[2..], s[1..]) && Less(s[1..], s[0..]);
    assert 0 in ref && 1 in ref && 2 in ref;
    assert IsSuffixArray(s, ref, 3);
    Unique(s, sa, ref, 3);
  }
}
