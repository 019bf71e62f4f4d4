/** What a suffix array, its inverse rank array and its LCP array are, shared by both
    suffix-array classes of the model. `m` is the number of suffixes sorted: `|s|` for the
    plain variant, `|s| + 1` for the variant that also sorts the empty suffix at `|s|`. */
module SuffixSpec {
  import opened Lex

  /** `sa` lists the suffixes starting at `0 .. m-1` once each, in strictly increasing order. */
  predicate IsSuffixArray(s: seq<nat>, sa: seq<nat>, m: nat)
  {
    (m == |s| || m == |s| + 1) && |sa| == m
    && (forall k :: 0 <= k < m ==> sa[k] < m)
    && (forall p :: 0 <= p < m ==> Listed(sa, p))
    && (forall a, b :: 0 <= a < b < m ==> RankLess(s, sa, a, b))
  }

  /** Position p is listed in `sa`. */
  predicate Listed(sa: seq<nat>, p: nat)
  {
    p in sa
  }

  /** The suffix at rank a is smaller than the one at rank b. */
  predicate RankLess(s: seq<nat>, sa: seq<nat>, a: nat, b: nat)
  {
    a < |sa| && b < |sa| && sa[a] <= |s| && sa[b] <= |s| && Less(s[sa[a]..], s[sa[b]..])
  }

  /** `isa` is the inverse permutation of `sa`. */
  predicate IsInverse(sa: seq<nat>, isa: seq<nat>)
  {
    |isa| == |sa|
    && (forall k :: 0 <= k < |sa| ==> sa[k] < |isa| && isa[sa[k]] == k)
    && (forall p :: 0 <= p < |isa| ==> isa[p] < |sa|)
  }

  /** Entry r > 0 of `lcpa` is the boundary-free common prefix of the suffixes at ranks r and r-1. */
  predicate IsLcpArray(s: seq<nat>, sa: seq<nat>, lcpa: seq<nat>)
    requires forall k :: 0 <= k < |sa| ==> sa[k] <= |s|
  {
    |lcpa| == |sa| && forall r :: 0 < r < |sa| ==> LcpAt(s, sa, lcpa, r)
  }

  /** Entry r of `lcpa` is the common prefix of the suffixes at ranks r and r - 1. */
  predicate LcpAt(s: seq<nat>, sa: seq<nat>, lcpa: seq<nat>, r: nat)
  {
    0 < r < |sa| == |lcpa| && sa[r] <= |s| && sa[r - 1] <= |s| && lcpa[r] == Lcp0(s[sa[r]..], s[sa[r - 1]..])
  }

  /** Two different positions start different suffixes. */
  lemma SuffixesDiffer(s: seq<nat>, p: nat, q: nat)
    requires p <= |s| && q <= |s| && p != q
    ensures s[p..] != s[q..]
  {
    assert |s[p..]| != |s[q..]|;
  }

  /** A suffix array never lists a position twice. */
  lemma Distinct(s: seq<nat>, sa: seq<nat>, m: nat)
    requires IsSuffixArray(s, sa, m)
    ensures forall a, b :: 0 <= a < m && 0 <= b < m && a != b ==> sa[a] != sa[b]
  {
    forall a, b | 0 <= a < m && 0 <= b < m && a != b
      ensures sa[a] != sa[b]
    {
      if a < b {
        assert RankLess(s, sa, a, b);
        if sa[a] == sa[b] { LessIrreflexive(s[sa[a]..]); }
      } else {
        assert RankLess(s, sa, b, a);
        if sa[a] == sa[b] { LessIrreflexive(s[sa[b]..]); }
      }
    }
  }

  /** Ranks follow the order: of two listed positions, the smaller suffix has the smaller rank. */
  lemma RankOrder(s: seq<nat>, sa: seq<nat>, m: nat, a: nat, b: nat)
    requires IsSuffixArray(s, sa, m) && a < m && b < m
    requires Less(s[sa[a]..], s[sa[b]..])
    ensures a < b
  {
    if b < a {
      assert RankLess(s, sa, b, a);
      LessAsymmetric(s[sa[a]..], s[sa[b]..]);
    } else if a == b {
      LessIrreflexive(s[sa[a]..]);
    }
  }

  /** The inverse of a suffix array maps every position back to its own rank. */
  lemma InverseRoundTrip(s: seq<nat>, sa: seq<nat>, isa: seq<nat>, m: nat)
    requires IsSuffixArray(s, sa, m) && IsInverse(sa, isa)
    ensures forall p :: 0 <= p < m ==> isa[p] < m && sa[isa[p]] == p
  {
    forall p | 0 <= p < m
      ensures isa[p] < m && sa[isa[p]] == p
    {
      assert Listed(sa, p);
      var k :| 0 <= k < m && sa[k] == p;
      assert isa[sa[k]] == k;
    }
  }

  /** There is only one suffix array of `s` over `m` positions, so any construction that
      meets `IsSuffixArray` produces the array induced sorting is meant to produce. */
  lemma Unique(s: seq<nat>, a: seq<nat>, b: seq<nat>, m: nat)
    requires IsSuffixArray(s, a, m) && IsSuffixArray(s, b, m)
    ensures a == b
  {
    AgreeBelow(s, a, b, m, m);
  }

  lemma {:induction false} AgreeBelow(s: seq<nat>, a: seq<nat>, b: seq<nat>, m: nat, n: nat)
    requires IsSuffixArray(s, a, m) && IsSuffixArray(s, b, m) && n <= m
    ensures forall j :: 0 <= j < n ==> a[j] == b[j]
    decreases n
  {
    if n > 0 {
      var k := n - 1;
      AgreeBelow(s, a, b, m, k);
      Distinct(s, a, m);
      Distinct(s, b, m);
      assert Listed(b, a[k]) && Listed(a, b[k]);
      var k1 :| 0 <= k1 < m && b[k1] == a[k];
      var k2 :| 0 <= k2 < m && a[k2] == b[k];
      if a[k] != b[k] {
        if k1 < k || k2 < k {
          assert false;
        }
        assert RankLess(s, b, k, k1) && RankLess(s, a, k, k2);
        assert Less(s[b[k]..], s[a[k]..]);
        assert Less(s[a[k]..], s[b[k]..]);
        LessAsymmetric(s[a[k]..], s[b[k]..]);
        assert false;
      }
    }
  }

  /** Reference construction of the suffix array (insertion of each suffix at its place);
      by `Unique`, every construction that meets `IsSuffixArray` returns this array. */
  method SortSuffixes(s: seq<nat>, m: nat) returns (sa: seq<nat>)
    requires m == |s| || m == |s| + 1
    ensures IsSuffixArray(s, sa, m)
  {
    sa := [];
    var i := 0;
    while i < m
      invariant 0 <= i <= m
      invariant |sa| == i
      invariant forall k :: 0 <= k < i ==> sa[k] < i
      invariant forall p :: 0 <= p < i ==> p in sa
      invariant forall a, b :: 0 <= a < b < i ==> Less(s[sa[a]..], s[sa[b]..])
    {
      var q := 0;
      while q < |sa| && Less(s[sa[q]..], s[i..])
        invariant 0 <= q <= |sa|
        invariant forall k :: 0 <= k < q ==> Less(s[sa[k]..], s[i..])
      {
        q := q + 1;
      }
      var next := sa[..q] + [i] + sa[q..];
      InsertSorted(s, sa, i, q);
      sa := next;
      i := i + 1;
    }
  }

  /** Inserting suffix i just before the first listed suffix not smaller than it keeps the
      list strictly sorted and adds exactly position i. */
  lemma InsertSorted(s: seq<nat>, sa: seq<nat>, i: nat, q: nat)
    requires i <= |s| && |sa| == i && q <= i
    requires forall k :: 0 <= k < i ==> sa[k] < i
    requires forall p :: 0 <= p < i ==> p in sa
    requires forall a, b :: 0 <= a < b < i ==> Less(s[sa[a]..], s[sa[b]..])
    requires forall k :: 0 <= k < q ==> Less(s[sa[k]..], s[i..])
    requires q < i ==> !Less(s[sa[q]..], s[i..])
    ensures var next := sa[..q] + [i] + sa[q..];
      |next| == i + 1
      && (forall k :: 0 <= k < i + 1 ==> next[k] < i + 1)
      && (forall p :: 0 <= p < i + 1 ==> p in next)
      && (forall a, b :: 0 <= a < b < i + 1 ==> Less(s[next[a]..], s[next[b]..]))
  {
    var next := sa[..q] + [i] + sa[q..];
    forall k | q <= k < |sa|
      ensures Less(s[i..], s[sa[k]..])
    {
      SuffixesDiffer(s, i, sa[q]);
      LessTotal(s[i..], s[sa[q]..]);
      if k > q {
        LessTransitive(s[i..], s[sa[q]..], s[sa[k]..]);
      }
    }
    forall a, b | 0 <= a < b < i + 1
      ensures Less(s[next[a]..], s[next[b]..])
    {
      if a < q && b > q {
        LessTransitive(s[sa[a]..], s[i..], s[sa[b - 1]..]);
      }
    }
    forall p | 0 <= p < i + 1
      ensures p in next
    {
      if p < i {
        assert Listed(sa, p);
        var k :| 0 <= k < i && sa[k] == p;
        if k < q { assert next[k] == p; } else { assert next[k + 1] == p; }
      } else {
        assert next[q] == p;
      }
    }
  }

  /** Resizing a vector keeps its first entries and pads with zeros. */
  function Resize(v: seq<nat>, n: nat): (r: seq<nat>)
    ensures |r| == n
    ensures forall k :: 0 <= k < n ==> r[k] == if k < |v| then v[k] else 0
  {
    if n <= |v| then v[..n] else v + seq(n - |v|, _ => 0)
  }

  /** Inverse rank array: `isa[sa[i]] := i` for every rank i. */
  method InvertSuffixArray(s: seq<nat>, sa: seq<nat>, m: nat, prev: seq<nat>) returns (isa: seq<nat>)
    requires IsSuffixArray(s, sa, m)
    ensures IsInverse(sa, isa)
    ensures forall p :: 0 <= p < m ==> isa[p] < m && sa[isa[p]] == p
  {
    Distinct(s, sa, m);
    isa := Resize(prev, |sa|);
    var i := 0;
    while i < |sa|
      invariant 0 <= i <= |sa|
      invariant |isa| == |sa|
      invariant forall k :: 0 <= k < i ==> isa[sa[k]] == k
    {
      isa := isa[sa[i] := i];
      i := i + 1;
    }
    forall p | 0 <= p < m
      ensures isa[p] < m && sa[isa[p]] == p
    {
      assert Listed(sa, p);
      var k :| 0 <= k < m && sa[k] == p;
      assert isa[sa[k]] == k;
    }
  }

  /** Kasai's carried bound: entering position i with counter `lcp`, the common prefix of
      suffix i with its predecessor in rank order is at least `lcp - 1`. */
  predicate HeadBound(s: seq<nat>, sa: seq<nat>, isa: seq<nat>, m: nat, i: nat, lcp: nat)
    requires IsSuffixArray(s, sa, m) && IsInverse(sa, isa)
  {
    lcp <= 1 || (i < m && isa[i] > 0 && isa[i] < m && lcp - 1 <= Lcp0(s[i..], s[sa[isa[i] - 1]..]))
  }

  /** Kasai's step: after suffix i met its predecessor with common prefix `l`, suffix i+1
      shares at least `l - 1` with its own predecessor. */
  lemma KasaiStep(s: seq<nat>, sa: seq<nat>, isa: seq<nat>, m: nat, i: nat, l: nat)
    requires IsSuffixArray(s, sa, m) && IsInverse(sa, isa)
    requires i < m && 0 < isa[i] < m
    requires l == Lcp0(s[i..], s[sa[isa[i] - 1]..])
    ensures HeadBound(s, sa, isa, m, i + 1, l)
  {
    InverseRoundTrip(s, sa, isa, m);
    if l >= 2 {
      var j := sa[isa[i] - 1];
      assert isa[j] == isa[i] - 1;
      assert sa[isa[i]] == i;
      var x, y := s[i..], s[j..];
      assert RankLess(s, sa, isa[i] - 1, isa[i]);
      assert Less(y, x);
      Lcp0Shift(x, y);
      assert x[1..] == s[i + 1..] && y[1..] == s[j + 1..];
      assert i + 1 < m && j + 1 < m;
      assert sa[isa[i + 1]] == i + 1 && sa[isa[j + 1]] == j + 1;
      RankOrder(s, sa, m, isa[j + 1], isa[i + 1]);
      var r := isa[i + 1] - 1;
      if isa[j + 1] < r {
        assert RankLess(s, sa, isa[j + 1], r) && RankLess(s, sa, r, isa[i + 1]);
        assert Less(s[j + 1..], s[sa[r]..]);
        assert Less(s[sa[r]..], s[i + 1..]);
        Lcp0Sandwich(s[j + 1..], s[sa[r]..], s[i + 1..]);
      }
    }
  }

  /** The inner scan of Kasai's construction: starting from `lcp` symbols already known to
      agree, extend while both suffixes go on, agree, and have not reached a boundary id 0. */
  method ExtendCommonPrefix(s: seq<nat>, i: nat, j: nat, lcp0: nat) returns (lcp: nat)
    requires i <= |s| && j <= |s| && lcp0 <= Lcp0(s[i..], s[j..])
    ensures lcp == Lcp0(s[i..], s[j..])
  {
    var a, b := s[i..], s[j..];
    Lcp0Spec(a, b);
    lcp := lcp0;
    while i + lcp < |s| && j + lcp < |s| && s[i + lcp] == s[j + lcp] && s[i + lcp] != 0
      invariant i + lcp <= |s| && j + lcp <= |s|
      invariant forall k :: 0 <= k < lcp ==> a[k] == b[k] && a[k] != 0
    {
      assert a[lcp] == s[i + lcp] && b[lcp] == s[j + lcp];
      lcp := lcp + 1;
    }
    Lcp0Exact(a, b, lcp);
  }

  /** Entries for the positions below i are final. */
  predicate DoneBelow(s: seq<nat>, sa: seq<nat>, isa: seq<nat>, m: nat, lcpa: seq<nat>, i: nat)
    requires IsSuffixArray(s, sa, m) && IsInverse(sa, isa) && |lcpa| == m && i <= m
  {
    forall k :: 0 <= k < i && isa[k] > 0 ==> lcpa[isa[k]] == Lcp0(s[k..], s[sa[isa[k] - 1]..])
  }

  /** Recording the entry of position i keeps the entries of earlier positions, whose
      ranks differ from the rank of i. */
  lemma Record(s: seq<nat>, sa: seq<nat>, isa: seq<nat>, m: nat, lcpa: seq<nat>, i: nat, l: nat)
    requires IsSuffixArray(s, sa, m) && IsInverse(sa, isa) && |lcpa| == m && i < m
    requires DoneBelow(s, sa, isa, m, lcpa, i)
    requires 0 < isa[i] < m && l == Lcp0(s[i..], s[sa[isa[i] - 1]..])
    ensures DoneBelow(s, sa, isa, m, lcpa[isa[i] := l], i + 1)
  {
    InverseRoundTrip(s, sa, isa, m);
    var next := lcpa[isa[i] := l];
    forall k | 0 <= k < i + 1 && isa[k] > 0
      ensures next[isa[k]] == Lcp0(s[k..], s[sa[isa[k] - 1]..])
    {
      if k < i {
        assert sa[isa[k]] == k && sa[isa[i]] == i;
        assert isa[k] != isa[i];
      }
    }
  }

  /** With every position recorded, every rank r > 0 holds its entry. */
  lemma DoneAll(s: seq<nat>, sa: seq<nat>, isa: seq<nat>, m: nat, lcpa: seq<nat>)
    requires IsSuffixArray(s, sa, m) && IsInverse(sa, isa) && |lcpa| == m
    requires DoneBelow(s, sa, isa, m, lcpa, m)
    ensures IsLcpArray(s, sa, lcpa)
  {
    forall r | 0 < r < m
      ensures lcpa[r] == Lcp0(s[sa[r]..], s[sa[r - 1]..])
    {
      assert isa[sa[r]] == r;
    }
  }

  /** Kasai's LCP construction, scanning positions in text order, stopping each comparison
      at the end of the text or at a boundary id 0; entry 0 keeps its previous value. */
  method KasaiLcp(s: seq<nat>, sa: seq<nat>, isa: seq<nat>, m: nat, prev: seq<nat>) returns (lcpa: seq<nat>)
    requires IsSuffixArray(s, sa, m) && IsInverse(sa, isa)
    ensures IsLcpArray(s, sa, lcpa)
    ensures m > 0 ==> lcpa[0] == Resize(prev, m)[0]
  {
    InverseRoundTrip(s, sa, isa, m);
    lcpa := Resize(prev, |sa|);
    var lcp: nat := 0;
    var i := 0;
    while i < |isa|
      invariant 0 <= i <= m
      invariant |lcpa| == m
      invariant m > 0 ==> lcpa[0] == Resize(prev, m)[0]
      invariant HeadBound(s, sa, isa, m, i, lcp)
      invariant DoneBelow(s, sa, isa, m, lcpa, i)
    {
      if isa[i] > 0 {
        var j := sa[isa[i] - 1];
        if lcp > 0 { lcp := lcp - 1; }
        lcp := ExtendCommonPrefix(s, i, j, lcp);
        KasaiStep(s, sa, isa, m, i, lcp);
        Record(s, sa, isa, m, lcpa, i, lcp);
        lcpa := lcpa[isa[i] := lcp];
      }
      i := i + 1;
    }
    DoneAll(s, sa, isa, m, lcpa);
  }
}
