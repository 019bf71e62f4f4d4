/** Building blocks of the induced-sorting (SA-IS) construction of src/suffix_array.cpp and
    src/sufarr.cpp: suffix types, LMS positions, bucket boundaries, the two induction
    passes, the final placement of sorted LMS suffixes, and the choice between recursion
    and direct inversion of unique names. */
module Sais {
  import opened Lex
  import opened SuffixSpec

  /** The fill value of the suffix-array buffer (the largest `size_t`). */
  const Empty: nat := 0xFFFF_FFFF_FFFF_FFFF

  /** Suffix type of position j: S (true) or L (false); the last position is S. */
  function TypeAt(s: seq<nat>, j: nat): bool
    requires j < |s|
    decreases |s| - j
  {
    j == |s| - 1 || s[j] < s[j + 1] || (s[j] == s[j + 1] && TypeAt(s, j + 1))
  }

  function Types(s: seq<nat>): (t: seq<bool>)
    ensures |t| == |s|
  {
    seq(|s|, j requires 0 <= j < |s| => TypeAt(s, j))
  }

  /** From position j to the end, every symbol equals `s[j]`. */
  predicate TailRun(s: seq<nat>, j: nat)
    requires j < |s|
  {
    forall k :: j <= k < |s| ==> s[k] == s[j]
  }

  /** Classification loop, right to left. */
  method ClassifyTypes(s: seq<nat>) returns (t: seq<bool>)
    requires |s| > 0
    ensures t == Types(s)
  {
    t := seq(|s|, _ => false);
    t := t[|s| - 1 := true];
    var i := |s| - 1;
    while i > 0
      invariant 0 <= i <= |s| - 1 && |t| == |s|
      invariant forall k :: i <= k < |s| ==> t[k] == TypeAt(s, k)
    {
      var j := i - 1;
      t := t[j := (s[j] < s[i]) || (s[j] == s[i] && t[i])];
      i := i - 1;
    }
  }

  /** What a type means: position j is S-type exactly when its suffix is smaller than the
      next one, except in the final run of equal symbols, which is S-type throughout. */
  lemma {:induction false} TypeMeaning(s: seq<nat>, j: nat)
    requires j < |s|
    ensures TypeAt(s, j) <==> TailRun(s, j) || Less(s[j..], s[j + 1..])
    decreases |s| - j
  {
    if j < |s| - 1 {
      if s[j] == s[j + 1] {
        TypeMeaning(s, j + 1);
        assert s[j..][1..] == s[j + 1..];
        assert s[j + 1..][1..] == s[j + 2..];
        if TailRun(s, j + 1) {
          assert TailRun(s, j);
        }
        if TailRun(s, j) {
          assert TailRun(s, j + 1);
        }
      } else {
        if s[j] > s[j + 1] && Less(s[j..], s[j + 1..]) {
          LessHead(s[j..], s[j + 1..]);
        }
        assert !TailRun(s, j) by { assert s[j + 1] != s[j]; }
      }
    }
  }

  /** `is_lms`: an S-type position right after an L-type one, strictly inside the text. */
  predicate IsLms(t: seq<bool>, i: nat, n: nat)
    requires n <= |t|
  {
    i > 0 && i < n && t[i] && !t[i - 1]
  }

  /** An LMS position follows a strictly larger symbol. */
  lemma LmsAfterLarger(s: seq<nat>, i: nat)
    requires IsLms(Types(s), i, |s|)
    ensures s[i - 1] > s[i]
  {
  }

  /** The last position is LMS exactly when the symbol before it is larger. In a text that
      ends with an empty string (two boundary ids), it is not. */
  lemma LastLms(s: seq<nat>)
    requires |s| > 0
    ensures IsLms(Types(s), |s| - 1, |s|) <==> |s| >= 2 && s[|s| - 2] > s[|s| - 1]
  {
  }

  /** The text of one string "a" followed by an empty string, `[1, 0, 0]`: its last
      position is S-type after an S-type position, so it is not LMS, and stage 3 never
      writes it, although every suffix array of the text holds it. */
  lemma LastNotLmsAfterEmptyString()
    ensures Types([1, 0, 0]) == [false, true, true]
    ensures !IsLms(Types([1, 0, 0]), 2, 3)
    ensures forall sa :: IsSuffixArray([1, 0, 0], sa, 3) ==> 2 in sa
  {
    assert TypeAt([1, 0, 0], 2);
    assert TypeAt([1, 0, 0], 1);
    assert !TypeAt([1, 0, 0], 0);
    forall sa | IsSuffixArray([1, 0, 0], sa, 3)
      ensures 2 in sa
    {
      assert Listed(sa, 2);
    }
  }

  /** Number of entries of `s` below `c`. */
  function CountBelow(s: seq<nat>, c: nat): nat
  {
    if |s| == 0 then 0 else CountBelow(s[..|s| - 1], c) + (if s[|s| - 1] < c then 1 else 0)
  }

  /** Number of entries of `s` equal to `c`. */
  function Occ(s: seq<nat>, c: nat): nat
  {
    if |s| == 0 then 0 else Occ(s[..|s| - 1], c) + (if s[|s| - 1] == c then 1 else 0)
  }

  /** The bucket of `c` spans its occurrences: its end is its start plus the count of `c`. */
  lemma {:induction false} BucketSpan(s: seq<nat>, c: nat)
    ensures CountBelow(s, c + 1) == CountBelow(s, c) + Occ(s, c)
    ensures CountBelow(s, c) <= CountBelow(s, c + 1) <= |s|
  {
    if |s| > 0 {
      BucketSpan(s[..|s| - 1], c);
    }
  }

  lemma {:induction false} CountBelowZero(s: seq<nat>)
    ensures CountBelow(s, 0) == 0
  {
    if |s| > 0 {
      CountBelowZero(s[..|s| - 1]);
    }
  }

  lemma {:induction false} CountBelowSnoc(s: seq<nat>, x: nat, c: nat)
    ensures CountBelow(s + [x], c) == CountBelow(s, c) + (if x < c then 1 else 0)
    ensures Occ(s + [x], c) == Occ(s, c) + (if x == c then 1 else 0)
  {
    assert (s + [x])[..|s|] == s;
  }

  /** Bucket end (`end`) or bucket start of symbol c. */
  function BucketBound(s: seq<nat>, c: nat, end: bool): nat
  {
    if end then CountBelow(s, c + 1) else CountBelow(s, c)
  }

  /** `init_bkt`: counts every symbol, then turns the counts into bucket ends
      (`end`: number of symbols <= c) or bucket starts (number of symbols < c). Entries at and
      above `numAlphas` are left alone. */
  method InitBkt(s: seq<nat>, bkt: array<nat>, numAlphas: nat, end: bool)
    requires numAlphas <= bkt.Length
    requires forall k :: 0 <= k < |s| ==> s[k] < numAlphas
    modifies bkt
    ensures forall c :: 0 <= c < numAlphas ==> bkt[c] == BucketBound(s, c, end)
    ensures forall c :: numAlphas <= c < bkt.Length ==> bkt[c] == old(bkt[c])
  {
    var c := 0;
    while c < numAlphas
      invariant 0 <= c <= numAlphas
      invariant forall d :: 0 <= d < c ==> bkt[d] == 0
      invariant forall d :: numAlphas <= d < bkt.Length ==> bkt[d] == old(bkt[d])
    {
      bkt[c] := 0;
      c := c + 1;
    }
    CountInto(s, bkt, numAlphas, 0);
    PrefixSums(s, bkt, numAlphas, end);
  }

  /** The counting loop of `init_bkt`, starting from the first `skip` symbols. */
  method CountInto(s: seq<nat>, bkt: array<nat>, numAlphas: nat, base: nat)
    requires numAlphas <= bkt.Length
    requires forall k :: 0 <= k < |s| ==> s[k] < numAlphas
    requires forall c :: 0 <= c < numAlphas ==> bkt[c] == (if c == 0 then base else 0)
    modifies bkt
    ensures forall c :: 0 <= c < numAlphas ==> bkt[c] == Occ(s, c) + (if c == 0 then base else 0)
    ensures forall c :: numAlphas <= c < bkt.Length ==> bkt[c] == old(bkt[c])
  {
    var i := 0;
    while i < |s|
      invariant 0 <= i <= |s|
      invariant forall c :: 0 <= c < numAlphas ==> bkt[c] == Occ(s[..i], c) + (if c == 0 then base else 0)
      invariant forall c :: numAlphas <= c < bkt.Length ==> bkt[c] == old(bkt[c])
    {
      assert s[..i + 1] == s[..i] + [s[i]];
      forall c | 0 <= c < numAlphas
        ensures Occ(s[..i + 1], c) == Occ(s[..i], c) + (if s[i] == c then 1 else 0)
      {
        CountBelowSnoc(s[..i], s[i], c);
      }
      bkt[s[i]] := bkt[s[i]] + 1;
      i := i + 1;
    }
    assert s[..i] == s;
  }

  /** The prefix-sum loop of `init_bkt` over occurrence counts of `u`. */
  method PrefixSums(u: seq<nat>, bkt: array<nat>, numAlphas: nat, end: bool)
    requires numAlphas <= bkt.Length
    requires forall k :: 0 <= k < |u| ==> u[k] < numAlphas
    requires forall c :: 0 <= c < numAlphas ==> bkt[c] == Occ(u, c)
    modifies bkt
    ensures forall c :: 0 <= c < numAlphas ==> bkt[c] == BucketBound(u, c, end)
    ensures forall c :: numAlphas <= c < bkt.Length ==> bkt[c] == old(bkt[c])
  {
    var sum := 0;
    var i := 0;
    CountBelowZero(u);
    while i < numAlphas
      invariant 0 <= i <= numAlphas
      invariant sum == CountBelow(u, i)
      invariant forall c :: 0 <= c < i ==> bkt[c] == BucketBound(u, c, end)
      invariant forall c :: i <= c < numAlphas ==> bkt[c] == Occ(u, c)
      invariant forall c :: numAlphas <= c < bkt.Length ==> bkt[c] == old(bkt[c])
    {
      BucketSpan(u, i);
      sum := sum + bkt[i];
      assert sum == CountBelow(u, i + 1);
      bkt[i] := if end then sum else sum - bkt[i];
      assert bkt[i] == BucketBound(u, i, end);
      i := i + 1;
    }
  }

  /** `init_bkt` of the sentinel variant: `s` holds the real symbols, and a virtual
      sentinel 0 after them is counted by starting bucket 0 at one. The buckets are those of
      `s + [0]`. */
  method InitBktSentinel(s: seq<nat>, bkt: array<nat>, numAlphas: nat, end: bool)
    requires 0 < numAlphas <= bkt.Length
    requires forall k :: 0 <= k < |s| ==> s[k] < numAlphas
    modifies bkt
    ensures forall c :: 0 <= c < numAlphas ==> bkt[c] == BucketBound(s + [0], c, end)
    ensures forall c :: numAlphas <= c < bkt.Length ==> bkt[c] == old(bkt[c])
  {
    var c := 0;
    while c < numAlphas
      invariant 0 <= c <= numAlphas
      invariant forall d :: 0 <= d < c ==> bkt[d] == 0
      invariant forall d :: numAlphas <= d < bkt.Length ==> bkt[d] == old(bkt[d])
    {
      bkt[c] := 0;
      c := c + 1;
    }
    bkt[0] := 1;
    CountInto(s, bkt, numAlphas, 1);
    forall c | 0 <= c < numAlphas
      ensures bkt[c] == Occ(s + [0], c)
    {
      CountBelowSnoc(s, 0, c);
    }
    PrefixSums(s + [0], bkt, numAlphas, end);
  }

  /** The two induction passes. Left to right, each L-type predecessor `p` of a listed
      suffix is written at the current head of its bucket, which starts at the bucket's
      first slot and only moves up; right to left, each S-type predecessor is written at the
      current tail of its bucket, which starts past the bucket's last slot and only moves
      down. `ok` is false if a head or tail would leave the buffer (a write the source would
      make out of bounds). Every entry afterwards was there before or is an induced
      predecessor, so it is below `|s| - 1`. */
  method Induce(s: seq<nat>, t: seq<bool>, sa: array<nat>, bkt: array<nat>, numAlphas: nat)
    returns (ok: bool, ghost lWrites: seq<(nat, nat)>, ghost sWrites: seq<(nat, nat)>)
    requires |t| == |s| == sa.Length && |s| < Empty
    requires numAlphas <= bkt.Length && sa != bkt
    requires forall k :: 0 <= k < |s| ==> s[k] < numAlphas
    modifies sa, bkt
    ensures ok ==> forall k :: 0 <= k < sa.Length ==> sa[k] in old(sa[..]) || sa[k] + 1 < |s|
    ensures forall w :: w in lWrites ==> w.1 < |s| && !t[w.1] && CountBelow(s, s[w.1]) <= w.0
    ensures forall w :: w in sWrites ==> w.1 < |s| && t[w.1] && w.0 < CountBelow(s, s[w.1] + 1)
  {
    ghost var orig := sa[..];
    lWrites, sWrites := [], [];
    InitBkt(s, bkt, numAlphas, false);
    var i := 0;
    while i < |s|
      invariant 0 <= i <= |s|
      invariant forall c :: 0 <= c < numAlphas ==> CountBelow(s, c) <= bkt[c]
      invariant forall k :: 0 <= k < sa.Length ==> sa[k] in orig || sa[k] + 1 < |s|
      invariant forall w :: w in lWrites ==> w.1 < |s| && !t[w.1] && CountBelow(s, s[w.1]) <= w.0
    {
      var j := sa[i];
      if j > 0 && j < |s| && !t[j - 1] {
        j := j - 1;
        var slot := bkt[s[j]];
        if slot >= |s| {
          return false, lWrites, sWrites;
        }
        sa[slot] := j;
        lWrites := lWrites + [(slot, j)];
        bkt[s[j]] := slot + 1;
      }
      i := i + 1;
    }
    InitBkt(s, bkt, numAlphas, true);
    i := |s|;
    while i > 0
      invariant 0 <= i <= |s|
      invariant forall c :: 0 <= c < numAlphas ==> bkt[c] <= CountBelow(s, c + 1)
      invariant forall k :: 0 <= k < sa.Length ==> sa[k] in orig || sa[k] + 1 < |s|
      invariant forall w :: w in sWrites ==> w.1 < |s| && t[w.1] && w.0 < CountBelow(s, s[w.1] + 1)
    {
      var j := sa[i - 1];
      if j > 0 && j < |s| && t[j - 1] {
        j := j - 1;
        if bkt[s[j]] == 0 {
          return false, lWrites, sWrites;
        }
        bkt[s[j]] := bkt[s[j]] - 1;
        var slot := bkt[s[j]];
        BucketSpan(s, s[j]);
        sa[slot] := j;
        sWrites := sWrites + [(slot, j)];
      }
      i := i - 1;
    }
    ok := true;
  }

  /** Stage 3 as written: the sorted LMS suffixes held in `sa[..numLms]` are moved, from the
      last to the first, to the tails of their buckets, the rest of the buffer is filled
      with `Empty`, and the passes of `Induce` run. Every entry afterwards is `Empty`, an LMS
      position, or an induced predecessor; so the last position appears only if it is
      LMS. */
  method PlaceLmsAndInduce(s: seq<nat>, sa: array<nat>, bkt: array<nat>, numAlphas: nat, numLms: nat)
    returns (ok: bool)
    requires |s| == sa.Length && 0 < |s| < Empty && numLms <= |s|
    requires numAlphas <= bkt.Length && sa != bkt
    requires forall k :: 0 <= k < |s| ==> s[k] < numAlphas
    requires forall k :: 0 <= k < numLms ==> IsLms(Types(s), sa[k], |s|)
    modifies sa, bkt
    ensures ok ==> forall k :: 0 <= k < sa.Length ==>
      sa[k] == Empty || IsLms(Types(s), sa[k], |s|) || sa[k] + 1 < |s|
    ensures ok && !IsLms(Types(s), |s| - 1, |s|) ==> forall k :: 0 <= k < sa.Length ==> sa[k] != |s| - 1
  {
    var t := ClassifyTypes(s);
    InitBkt(s, bkt, numAlphas, true);
    var k := numLms;
    while k < |s|
      invariant numLms <= k <= |s|
      invariant forall q :: 0 <= q < numLms ==> IsLms(t, sa[q], |s|)
      invariant forall q :: numLms <= q < k ==> sa[q] == Empty
      invariant forall c :: 0 <= c < numAlphas ==> bkt[c] == BucketBound(s, c, true)
    {
      sa[k] := Empty;
      k := k + 1;
    }
    var i := numLms;
    while i > 0
      invariant 0 <= i <= numLms
      invariant forall q :: 0 <= q < sa.Length ==> sa[q] == Empty || IsLms(t, sa[q], |s|)
      invariant forall c :: 0 <= c < numAlphas ==> bkt[c] <= CountBelow(s, c + 1)
    {
      i := i - 1;
      var j := sa[i];
      sa[i] := Empty;
      if j >= |s| || bkt[s[j]] == 0 {
        return false;
      }
      BucketSpan(s, s[j]);
      bkt[s[j]] := bkt[s[j]] - 1;
      sa[bkt[s[j]]] := j;
    }
    ghost var placed := sa[..];
    ghost var lw, sw;
    ok, lw, sw := Induce(s, t, sa, bkt, numAlphas);
    if ok {
      forall q | 0 <= q < sa.Length
        ensures sa[q] == Empty || IsLms(t, sa[q], |s|) || sa[q] + 1 < |s|
      {
        if sa[q] in placed {
          var r :| 0 <= r < |placed| && placed[r] == sa[q];
        }
      }
    }
  }

  /** Stage 2: when the LMS names are not unique the reduced string is solved recursively
      (here by the reference construction); when they are unique, its suffix array is the
      inverse of the names, `sa[names[i]] := i`. Either way the result sorts the suffixes of
      the reduced string. */
  method SolveReduced(names: seq<nat>, numNames: nat) returns (sa: seq<nat>, recursed: bool)
    requires numNames <= |names|
    requires forall i :: 0 <= i < |names| ==> names[i] < numNames
    requires numNames == |names| ==> forall i, j :: 0 <= i < j < |names| ==> names[i] != names[j]
    ensures recursed <==> numNames < |names|
    ensures IsSuffixArray(names, sa, |names|)
  {
    recursed := numNames < |names|;
    if recursed {
      sa := SortSuffixes(names, |names|);
    } else {
      sa := InvertNames(names);
    }
  }

  /** Unique names in `0 .. n-1` are their own ranks: inverting them sorts the suffixes. */
  method InvertNames(names: seq<nat>) returns (sa: seq<nat>)
    requires forall i :: 0 <= i < |names| ==> names[i] < |names|
    requires forall i, j :: 0 <= i < j < |names| ==> names[i] != names[j]
    ensures IsSuffixArray(names, sa, |names|)
    ensures forall i :: 0 <= i < |names| ==> sa[names[i]] == i
  {
    var n := |names|;
    sa := seq(n, _ => 0);
    var i := 0;
    while i < n
      invariant 0 <= i <= n && |sa| == n
      invariant forall k :: 0 <= k < i ==> sa[names[k]] == k
    {
      sa := sa[names[i] := i];
      i := i + 1;
    }
    NamesArePermutation(names, sa);
  }

  lemma NamesArePermutation(names: seq<nat>, sa: seq<nat>)
    requires |sa| == |names|
    requires forall i :: 0 <= i < |names| ==> names[i] < |names|
    requires forall i, j :: 0 <= i < j < |names| ==> names[i] != names[j]
    requires forall k :: 0 <= k < |names| ==> sa[names[k]] == k
    ensures IsSuffixArray(names, sa, |names|)
  {
    var n := |names|;
    var ranks := set k | 0 <= k < n :: names[k];
    assert forall r :: r in ranks ==> 0 <= r < n;
    InjectiveImage(names);
    assert |ranks| == n;
    forall r | 0 <= r < n
      ensures sa[r] < n && names[sa[r]] == r
    {
      RangeFull(ranks, n);
      assert r in ranks;
      var k :| 0 <= k < n && names[k] == r;
    }
    forall p | 0 <= p < n
      ensures p in sa
    {
      assert sa[names[p]] == p;
    }
    forall a, b | 0 <= a < b < n
      ensures Less(names[sa[a]..], names[sa[b]..])
    {
      assert names[sa[a]..][0] == a && names[sa[b]..][0] == b;
    }
  }

  /** A sequence of distinct values has as many distinct values as entries. */
  lemma {:induction false} InjectiveImage(v: seq<nat>)
    requires forall i, j :: 0 <= i < j < |v| ==> v[i] != v[j]
    ensures |set k | 0 <= k < |v| :: v[k]| == |v|
  {
    if |v| > 0 {
      var w := v[..|v| - 1];
      InjectiveImage(w);
      var a := set k | 0 <= k < |w| :: w[k];
      var b := set k | 0 <= k < |v| :: v[k];
      assert b == a + {v[|v| - 1]};
      assert v[|v| - 1] !in a;
    }
  }

  /** The numbers below n. */
  function Below(n: nat): (r: set<nat>)
    ensures |r| == n && forall x: nat :: x in r <==> x < n
  {
    if n == 0 then {} else Below(n - 1) + {n - 1}
  }

  /** A set of n values below n holds every value below n. */
  lemma RangeFull(r: set<nat>, n: nat)
    requires |r| == n && forall x :: x in r ==> x < n
    ensures forall x :: 0 <= x < n ==> x in r
  {
    var all := Below(n);
    assert r <= all;
    assert |all - r| == 0;
    forall x | 0 <= x < n
      ensures x in r
    {
      assert x !in all - r;
    }
  }
}
