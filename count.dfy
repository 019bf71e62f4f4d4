/** `StringCounter` of src/count.cpp (declared in include/count.hpp): the raw strings are
    joined with `L'\0'`, their characters numbered with the boundary character as id 0, and
    a suffix array of `sufarr.cpp` built over the ids. Counting queries then look up the
    occurrences of a substring in the suffix array, ignoring occurrences that a current
    segmentation preserves (`count_min_lens_`). */
module Counting {
  import opened Options
  import opened Lex
  import opened IdMaps
  import Sufarr
  import Preserve
  import Averages

  /** The id of the boundary character. */
  const Boundary: nat := 0

  /** The character `fit` puts between two raw strings, `L'\0'`. */
  const Separator: nat := 0

  /** A constructor's outcome: the object, or the `invalid_argument` it throws. */
  datatype Made<T> = Made(value: T) | InvalidArgument(message: string)

  /** `to_char_ids`: the ids, or the character that `at` rejects with `out_of_range`. */
  datatype Converted = Ids(ids: seq<nat>) | OutOfRange(c: nat)

  /** A counting query's outcome: the length is excluded by the guard (the query returns
      0.0), or the statistic is taken over these occurrences. */
  datatype Counted<T> = Excluded | Stat(value: T)

  const SmoothMessage: string := "The smoothing parameter must be greater than or equal to 0."

  // -----------------------------------------------------------------------------------------
  // Joining the raw strings

  /** The raw strings with exactly one separator between consecutive strings. */
  function Joined(seqs: seq<seq<nat>>): seq<nat>
    requires |seqs| >= 1
  {
    if |seqs| == 1 then seqs[0] else Joined(seqs[..|seqs| - 1]) + [Separator] + seqs[|seqs| - 1]
  }

  /** The loop of `fit` that concatenates the raw strings. */
  method Join(seqs: seq<seq<nat>>) returns (s: seq<nat>)
    requires |seqs| >= 1
    ensures s == Joined(seqs)
  {
    s := seqs[0];
    var i := 1;
    while i < |seqs|
      invariant 1 <= i <= |seqs|
      invariant s == Joined(seqs[..i])
    {
      assert seqs[..i + 1][..i] == seqs[..i];
      s := s + [Separator];
      s := s + seqs[i];
      i := i + 1;
    }
    assert seqs[..i] == seqs;
  }

  /** Cuts a joined text at every separator (the inverse of `Joined`). */
  function Split(s: seq<nat>): (r: seq<seq<nat>>)
    ensures |r| >= 1
  {
    if |s| == 0 then [[]]
    else
      var init := Split(s[..|s| - 1]);
      if s[|s| - 1] == Separator then init + [[]]
      else init[..|init| - 1] + [init[|init| - 1] + [s[|s| - 1]]]
  }

  /** Splitting the joined strings gives them back, provided none holds a separator. */
  lemma {:induction false} SplitJoined(seqs: seq<seq<nat>>)
    requires |seqs| >= 1
    requires forall k :: 0 <= k < |seqs| ==> Separator !in seqs[k]
    ensures Split(Joined(seqs)) == seqs
  {
    var last := seqs[|seqs| - 1];
    if |seqs| == 1 {
      SplitTail([], last, 0);
      assert [] + [Separator] + last == [Separator] + last;
      SplitPlain(last);
    } else {
      var init := seqs[..|seqs| - 1];
      SplitJoined(init);
      SplitTail(Joined(init), last, |last|);
      assert last[..|last|] == last;
      assert init + [last] == seqs;
    }
  }

  /** A separator-free string splits into itself. */
  lemma {:induction false} SplitPlain(t: seq<nat>)
    requires Separator !in t
    ensures Split(t) == [t]
  {
    if |t| > 0 {
      assert Separator !in t[..|t| - 1];
      SplitPlain(t[..|t| - 1]);
      assert t[..|t| - 1] + [t[|t| - 1]] == t;
    }
  }

  /** Appending a separator and then the first k characters of a separator-free string
      adds one more piece. */
  lemma {:induction false} SplitTail(a: seq<nat>, t: seq<nat>, k: nat)
    requires Separator !in t && k <= |t|
    ensures Split(a + [Separator] + t[..k]) == Split(a) + [t[..k]]
  {
    if k == 0 {
      assert a + [Separator] + t[..0] == a + [Separator];
      assert (a + [Separator])[..|a|] == a;
    } else {
      var s := a + [Separator] + t[..k];
      assert s[..|s| - 1] == a + [Separator] + t[..k - 1];
      SplitTail(a, t, k - 1);
      assert t[k - 1] in t;
      assert t[..k - 1] + [t[k - 1]] == t[..k];
    }
  }

  // -----------------------------------------------------------------------------------------
  // Occurrence statistics over suffix-array ranks

  /** The positions of the suffixes at ranks `[lo, hi)` that start with `t`, in rank
      order. */
  function Matches(text: seq<nat>, sa: seq<nat>, t: seq<nat>, lo: nat, hi: nat): (ps: seq<nat>)
    requires lo <= hi <= |sa|
    requires forall k :: 0 <= k < |sa| ==> sa[k] <= |text|
    ensures forall k :: 0 <= k < |ps| ==> ps[k] <= |text| && IsPrefix(t, text[ps[k]..])
    decreases hi - lo
  {
    if lo == hi then []
    else Matches(text, sa, t, lo, hi - 1) + (if IsPrefix(t, text[sa[hi - 1]..]) then [sa[hi - 1]] else [])
  }

  /** When `[lb, ub)` holds exactly the matching ranks of `1 .. |text|`, the matches are the
      positions at those ranks. */
  lemma MatchesAre(text: seq<nat>, sa: seq<nat>, t: seq<nat>, lb: nat, ub: nat, hi: nat)
    requires |sa| == |text| + 1 && forall k :: 0 <= k < |sa| ==> sa[k] <= |text|
    requires 1 <= lb <= ub <= |text| + 1 && 1 <= hi <= |text| + 1
    requires forall q :: 1 <= q <= |text| ==> (lb <= q < ub <==> IsPrefix(t, text[sa[q]..]))
    ensures Matches(text, sa, t, 1, hi) == sa[lb..if hi < lb then lb else if hi > ub then ub else hi]
  {
    if hi > 1 {
      MatchesAre(text, sa, t, lb, ub, hi - 1);
    }
  }

  /** A position is matched exactly when an occurrence of `t` starts there (for a non-empty
      `t`, whose occurrences all lie inside the text). */
  lemma MatchesAreOccurrences(text: seq<nat>, sa: seq<nat>, t: seq<nat>, p: nat)
    requires |t| >= 1 && |sa| == |text| + 1
    requires forall k :: 0 <= k < |sa| ==> sa[k] <= |text|
    requires forall q :: 0 <= q <= |text| ==> q in sa
    requires sa[0] == |text|
    ensures p in Matches(text, sa, t, 1, |sa|) <==> p < |text| && IsPrefix(t, text[p..])
  {
    var ps := Matches(text, sa, t, 1, |sa|);
    if p in ps {
      var k :| 0 <= k < |ps| && ps[k] == p;
      assert p <= |text| && IsPrefix(t, text[p..]);
    }
    if p < |text| && IsPrefix(t, text[p..]) {
      assert p in sa;
      var k :| 0 <= k < |sa| && sa[k] == p;
      if k == 0 {
        assert false;
      }
      MatchesHold(text, sa, t, k, 1, |sa|);
    }
  }

  lemma MatchesHold(text: seq<nat>, sa: seq<nat>, t: seq<nat>, k: nat, lo: nat, hi: nat)
    requires lo <= k < hi <= |sa|
    requires forall q :: 0 <= q < |sa| ==> sa[q] <= |text|
    requires IsPrefix(t, text[sa[k]..])
    ensures sa[k] in Matches(text, sa, t, lo, hi)
    decreases hi - lo
  {
    if k < hi - 1 {
      MatchesHold(text, sa, t, k, lo, hi - 1);
    }
  }

  /** The number of positions that do not preserve a length of n or more. */
  function PresCount(lens: seq<nat>, n: nat, ps: seq<nat>): (c: nat)
    requires forall k :: 0 <= k < |ps| ==> ps[k] < |lens|
    ensures c <= |ps|
  {
    if |ps| == 0 then 0
    else PresCount(lens, n, ps[..|ps| - 1]) + (if n > lens[ps[|ps| - 1]] then 1 else 0)
  }

  /** The symbol before position p, the boundary id before position 0. */
  function LeftSym(text: seq<nat>, p: nat): nat
  {
    if 0 < p <= |text| then text[p - 1] else Boundary
  }

  /** The symbol n after position p, the boundary id past the end of the text. */
  function RightSym(text: seq<nat>, n: nat, p: nat): nat
  {
    if p + n < |text| then text[p + n] else Boundary
  }

  /** The symbol before each position, in the order of the positions. */
  function LeftSyms(text: seq<nat>, ps: seq<nat>): (r: seq<nat>)
    ensures |r| == |ps| && forall k :: 0 <= k < |ps| ==> r[k] == LeftSym(text, ps[k])
  {
    seq(|ps|, k requires 0 <= k < |ps| => LeftSym(text, ps[k]))
  }

  /** The symbol n after each position, in the order of the positions. */
  function RightSyms(text: seq<nat>, n: nat, ps: seq<nat>): (r: seq<nat>)
    ensures |r| == |ps| && forall k :: 0 <= k < |ps| ==> r[k] == RightSym(text, n, ps[k])
  {
    seq(|ps|, k requires 0 <= k < |ps| => RightSym(text, n, ps[k]))
  }

  /** The symbols before the positions, the boundary id before position 0. */
  function LeftOf(text: seq<nat>, ps: seq<nat>): multiset<nat>
  {
    multiset(LeftSyms(text, ps))
  }

  /** The symbols n after the positions, the boundary id past the end of the text. */
  function RightOf(text: seq<nat>, n: nat, ps: seq<nat>): multiset<nat>
  {
    multiset(RightSyms(text, n, ps))
  }

  /** One more position for `LeftOf`. */
  lemma LeftOfSnoc(text: seq<nat>, ps: seq<nat>, p: nat)
    ensures LeftOf(text, ps + [p]) == LeftOf(text, ps) + multiset{LeftSym(text, p)}
  {
    assert LeftSyms(text, ps + [p]) == LeftSyms(text, ps) + [LeftSym(text, p)];
  }

  /** One more position for `RightOf`. */
  lemma RightOfSnoc(text: seq<nat>, n: nat, ps: seq<nat>, p: nat)
    ensures RightOf(text, n, ps + [p]) == RightOf(text, n, ps) + multiset{RightSym(text, n, p)}
  {
    assert RightSyms(text, n, ps + [p]) == RightSyms(text, n, ps) + [RightSym(text, n, p)];
  }

  /** `get_hr`'s guard as written: the position it reads for the occurrence at j, or
      nothing when it takes the boundary. It compares with the suffix-array size, one more
      than the text length. */
  function RightReadAsWritten(textLen: nat, j: nat, n: nat): (r: Option<nat>)
    ensures r.Some? <==> j + n < textLen + 1
  {
    if j + n < textLen + 1 then Some(j + n) else None
  }

  /** An occurrence of length 1 at the last position of the text `[1]` passes the guard and
      has `get_hr` read one past the end of the text. */
  lemma RightReadPastEnd()
    ensures var text: seq<nat> := [1];
      IsPrefix([1], text[0..]) && RightReadAsWritten(|text|, 0, 1) == Some(|text|)
  {
  }

  /** The loop of `get_hl` over the ranks `[lb, ub)`: the symbol before each position,
      the boundary id before position 0. */
  method LeftScan(s: seq<nat>, sa: seq<nat>, lb: nat, ub: nat) returns (sp1l: multiset<nat>)
    requires lb <= ub <= |sa| && forall k :: lb <= k < ub ==> sa[k] <= |s|
    ensures sp1l == LeftOf(s, sa[lb..ub])
  {
    sp1l := multiset{};
    var k := lb;
    while k < ub
      invariant lb <= k <= ub && sp1l == LeftOf(s, sa[lb..k])
    {
      var j := sa[k];
      LeftOfSnoc(s, sa[lb..k], j);
      assert sa[lb..k + 1] == sa[lb..k] + [j];
      if j > 0 {
        sp1l := sp1l + multiset{s[j - 1]};
      } else {
        sp1l := sp1l + multiset{Boundary};
      }
      k := k + 1;
    }
  }

  /** The loop of `get_hr` over the ranks `[lb, ub)`, its guard corrected to the text
      length: the symbol n after each position, the boundary id past the end. */
  method RightScan(s: seq<nat>, sa: seq<nat>, n: nat, lb: nat, ub: nat) returns (sp1r: multiset<nat>)
    requires lb <= ub <= |sa|
    ensures sp1r == RightOf(s, n, sa[lb..ub])
  {
    sp1r := multiset{};
    var k := lb;
    while k < ub
      invariant lb <= k <= ub && sp1r == RightOf(s, n, sa[lb..k])
    {
      var j := sa[k];
      RightOfSnoc(s, n, sa[lb..k], j);
      assert sa[lb..k + 1] == sa[lb..k] + [j];
      if j + n < |s| {
        sp1r := sp1r + multiset{s[j + n]};
      } else {
        sp1r := sp1r + multiset{Boundary};
      }
      k := k + 1;
    }
  }

  // -----------------------------------------------------------------------------------------
  // The counter

  class StringCounter {
    const maxLen: nat
    const smooth: real
    const boundary: nat
    var fAvgs: seq<real>
    var hlAvgs: seq<real>
    var hrAvgs: seq<real>
    var strNums: seq<nat>
    var countMinLens: seq<nat>
    var charIdMap: map<nat, nat>
    const sa: Sufarr.SuffixArray

    /** The tables have one entry per length up to `maxLen`; once built, the preserve
        lengths have one entry per suffix-array rank. */
    ghost predicate Valid()
      reads this, sa
    {
      sa.Reachable()
      && |fAvgs| == maxLen && |hlAvgs| == maxLen && |hrAvgs| == maxLen && |strNums| == maxLen
      && smooth >= 0.0
      && (sa.Valid() ==> |countMinLens| == |sa.sa|)
    }

    /** The statistics tables start with `maxLen` zeros; nothing is fitted yet. */
    constructor (maxLen: nat, smooth: real, boundary: nat)
      requires smooth >= 0.0
      ensures Valid() && fresh(sa)
      ensures this.maxLen == maxLen && this.smooth == smooth && this.boundary == boundary
      ensures fAvgs == seq(maxLen, _ => 0.0) && hlAvgs == fAvgs && hrAvgs == fAvgs
      ensures strNums == seq(maxLen, _ => 0)
      ensures countMinLens == [] && charIdMap == map[]
      ensures sa.text == [] && sa.sa == []
    {
      this.maxLen := maxLen;
      this.smooth := smooth;
      this.boundary := boundary;
      fAvgs := seq(maxLen, _ => 0.0);
      hlAvgs := seq(maxLen, _ => 0.0);
      hrAvgs := seq(maxLen, _ => 0.0);
      strNums := seq(maxLen, _ => 0);
      countMinLens := [];
      charIdMap := map[];
      sa := new Sufarr.SuffixArray();
    }

    /** `init_char_id_map(s)`: the boundary character gets id 0 and every other character
        the next id from 1 in first-seen order; returns the id of every character. */
    method InitCharIdMap(s: seq<nat>) returns (ids: seq<nat>)
      modifies this
      ensures charIdMap == Extend(map[boundary := Boundary], s)
      ensures ids == Encode(map[boundary := Boundary], s)
      ensures fAvgs == old(fAvgs) && hlAvgs == old(hlAvgs) && hrAvgs == old(hrAvgs)
      ensures strNums == old(strNums) && countMinLens == old(countMinLens)
    {
      var m0 := map[boundary := Boundary];
      var m := m0;
      ids := [];
      var idx := 1;
      var k := 0;
      while k < |s|
        invariant 0 <= k <= |s|
        invariant m == Extend(m0, s[..k]) && idx == |m|
        invariant ids == Encode(m0, s[..k])
      {
        assert s[..k + 1][..k] == s[..k];
        var c := s[k];
        if c !in m {
          m := m[c := idx];
          idx := idx + 1;
        }
        ids := ids + [m[c]];
        k := k + 1;
      }
      assert s[..k] == s;
      charIdMap := m;
    }

    /** `to_char_ids(s)`: the id of every character, or `out_of_range` for the first
        character that `fit` never saw. */
    method ToCharIds(s: seq<nat>) returns (r: Converted)
      ensures r.Ids? <==> forall k :: 0 <= k < |s| ==> s[k] in charIdMap
      ensures r.Ids? ==> |r.ids| == |s| && forall k :: 0 <= k < |s| ==> r.ids[k] == charIdMap[s[k]]
      ensures r.OutOfRange? ==> r.c in s && r.c !in charIdMap
    {
      var ids: seq<nat> := [];
      var k := 0;
      while k < |s|
        invariant 0 <= k <= |s| && |ids| == k
        invariant forall q :: 0 <= q < k ==> s[q] in charIdMap && ids[q] == charIdMap[s[q]]
      {
        if s[k] !in charIdMap {
          return OutOfRange(s[k]);
        }
        ids := ids + [charIdMap[s[k]]];
        k := k + 1;
      }
      return Ids(ids);
    }

    /** `fit(sequences)`: join the strings, number their characters, build the suffix
        array over the ids, take the averages of the sweep's totals, and reset every
        preserve length to 0. */
    method Fit(sequences: seq<seq<nat>>, totals: Averages.Totals)
      requires Valid() && |sequences| >= 1 && totals.Sized(maxLen)
      modifies this, sa
      ensures Valid() && sa.Valid()
      ensures charIdMap == Extend(map[boundary := Boundary], Joined(sequences))
      ensures sa.text == Encode(map[boundary := Boundary], Joined(sequences))
      ensures countMinLens == seq(|sa.text| + 1, _ => 0)
      ensures var m := Averages.FirstZero(totals.nums);
        fAvgs == Averages.DividedBelow(totals.f, totals.nums, m)
        && hlAvgs == Averages.DividedBelow(totals.hl, totals.nums, m)
        && hrAvgs == Averages.DividedBelow(totals.hr, totals.nums, m)
        && strNums == totals.nums
    {
      var s := Join(sequences);
      var idxSeq := InitCharIdMap(s);
      IdsBelowAlphabet(boundary, s);
      sa.ConstructWithAlphabet(idxSeq, |charIdMap|);
      CalcAvg(totals);
      countMinLens := seq(|sa.sa|, _ => 0);
    }

    /** The averaging at the end of `calc_avg`, applied to the totals of its sweep. */
    method CalcAvg(totals: Averages.Totals)
      requires totals.Sized(maxLen)
      modifies this
      ensures var m := Averages.FirstZero(totals.nums);
        fAvgs == Averages.DividedBelow(totals.f, totals.nums, m)
        && hlAvgs == Averages.DividedBelow(totals.hl, totals.nums, m)
        && hrAvgs == Averages.DividedBelow(totals.hr, totals.nums, m)
        && strNums == totals.nums
      ensures countMinLens == old(countMinLens) && charIdMap == old(charIdMap)
    {
      var r := Averages.Average(totals, maxLen);
      fAvgs, hlAvgs, hrAvgs, strNums := r.f, r.hl, r.hr, r.nums;
    }

    /** `set_pres(pres, p, n)`: the preserve lengths of the raw string at p. */
    method SetPres(pres: seq<nat>, p: nat, n: nat)
      requires Valid() && Preserve.ValidCuts(pres, n) && 1 <= n && p + n <= |countMinLens|
      modifies this
      ensures Valid()
      ensures countMinLens == old(countMinLens)[..p] + Preserve.PresLens(pres, n) + old(countMinLens)[p + n..]
      ensures fAvgs == old(fAvgs) && hlAvgs == old(hlAvgs) && hrAvgs == old(hrAvgs)
      ensures strNums == old(strNums) && charIdMap == old(charIdMap)
    {
      countMinLens := Preserve.WritePres(countMinLens, pres, p, n);
    }

    /** `unset_pres(pres, p, n)`: the window of the raw string at p goes back to 0. */
    method UnsetPres(pres: seq<nat>, p: nat, n: nat)
      requires Valid() && p + n <= |countMinLens|
      modifies this
      ensures Valid()
      ensures countMinLens == Preserve.ZeroWindow(old(countMinLens), p, n)
      ensures fAvgs == old(fAvgs) && hlAvgs == old(hlAvgs) && hrAvgs == old(hrAvgs)
      ensures strNums == old(strNums) && charIdMap == old(charIdMap)
    {
      countMinLens := Preserve.ZeroWindow(countMinLens, p, n);
    }

    /** The occurrence count of `get_iv(i, n)`: excluded when n exceeds `maxLen` or the
        average for n is zero, else the number of occurrences of `text[i..i+n]` whose
        position does not preserve n. */
    method IvCount(i: nat, n: nat) returns (r: Counted<nat>)
      requires Valid() && sa.Valid() && 1 <= n && i + n <= |sa.text|
      ensures r.Excluded? <==> n > maxLen || fAvgs[n - 1] == 0.0
      ensures r.Stat? ==> r.value == PresCount(countMinLens, n, Occurrences(i, n))
    {
      if n > maxLen || fAvgs[n - 1] == 0.0 {
        return Excluded;
      }
      var lb, ub := Bounds(i, n);
      var f := 0;
      var k := lb;
      while k < ub
        invariant lb <= k <= ub
        invariant f == PresCount(countMinLens, n, sa.sa[lb..k])
      {
        assert sa.sa[lb..k + 1] == sa.sa[lb..k] + [sa.sa[k]];
        var j := sa.sa[k];
        if n > countMinLens[j] {
          f := f + 1;
        }
        k := k + 1;
      }
      return Stat(f);
    }

    /** The left-neighbour histogram of `get_hl(i, n)`: excluded by the same guard on the
        `hl` averages, else the symbol before every occurrence of `text[i..i+n]`. */
    method LeftHistogram(i: nat, n: nat) returns (r: Counted<multiset<nat>>)
      requires Valid() && sa.Valid() && 1 <= n && i + n <= |sa.text|
      ensures r.Excluded? <==> n > maxLen || hlAvgs[n - 1] == 0.0
      ensures r.Stat? ==> r.value == LeftOf(sa.text, Occurrences(i, n))
    {
      if n > maxLen || hlAvgs[n - 1] == 0.0 {
        return Excluded;
      }
      var lb, ub := Bounds(i, n);
      var sp1l := LeftScan(sa.text, sa.sa, lb, ub);
      return Stat(sp1l);
    }

    /** The right-neighbour histogram of `get_hr(i, n)`, with the guard corrected to the
        text length: the symbol after every occurrence of `text[i..i+n]`, or the boundary
        id for an occurrence that ends the text. */
    method RightHistogram(i: nat, n: nat) returns (r: Counted<multiset<nat>>)
      requires Valid() && sa.Valid() && 1 <= n && i + n <= |sa.text|
      ensures r.Excluded? <==> n > maxLen || hrAvgs[n - 1] == 0.0
      ensures r.Stat? ==> r.value == RightOf(sa.text, n, Occurrences(i, n))
    {
      if n > maxLen || hrAvgs[n - 1] == 0.0 {
        return Excluded;
      }
      var lb, ub := Bounds(i, n);
      var sp1r := RightScan(sa.text, sa.sa, n, lb, ub);
      return Stat(sp1r);
    }

    /** The positions where `text[i..i+n]` occurs, in suffix-array order. */
    ghost function Occurrences(i: nat, n: nat): (ps: seq<nat>)
      reads this, sa
      requires Valid() && sa.Valid() && i + n <= |sa.text|
      ensures forall k :: 0 <= k < |ps| ==> ps[k] < |countMinLens| && ps[k] <= |sa.text|
    {
      Matches(sa.text, sa.sa, sa.text[i..i + n], 1, |sa.sa|)
    }

    /** `lower_bound` and `upper_bound` of `text[i..i+n]`: the ranks between them hold
        exactly its occurrences. */
    method Bounds(i: nat, n: nat) returns (lb: nat, ub: nat)
      requires Valid() && sa.Valid() && 1 <= n && i + n <= |sa.text|
      ensures 1 <= lb <= ub <= |sa.sa|
      ensures sa.sa[lb..ub] == Occurrences(i, n)
      ensures forall k :: lb <= k < ub ==> sa.sa[k] < |countMinLens| && sa.sa[k] <= |sa.text|
    {
      var t := sa.text[i..i + n];
      lb := sa.LowerBound(t);
      ub := sa.UpperBound(t);
      sa.OccurrenceRange(t, lb, ub);
      OccurrenceNonEmpty(i, n, lb, ub);
      forall q | 1 <= q <= |sa.text|
        ensures lb <= q < ub <==> IsPrefix(t, sa.text[sa.sa[q]..])
      {
        assert sa.Suf(q) == sa.text[sa.sa[q]..];
      }
      MatchesAre(sa.text, sa.sa, t, lb, ub, |sa.sa|);
    }

    /** A substring of the text occurs at least once, so its bounds are ordered. */
    lemma OccurrenceNonEmpty(i: nat, n: nat, lb: nat, ub: nat)
      requires Valid() && sa.Valid() && 1 <= n && i + n <= |sa.text|
      requires 1 <= lb <= |sa.text| + 1 && 1 <= ub <= |sa.text| + 1
      requires forall q :: 1 <= q <= |sa.text| ==> (lb <= q < ub <==> IsPrefix(sa.text[i..i + n], sa.Suf(q)))
      ensures lb < ub
    {
      var q := sa.Rank(i);
      assert sa.Suf(q) == sa.text[i..];
      assert IsPrefix(sa.text[i..i + n], sa.text[i..]);
      if q == 0 {
        Sufarr.EmptySuffixFirst(sa.text, sa.sa);
      }
    }

    /** `clear()`: empties the suffix array only. */
    method Clear()
      requires Valid()
      modifies sa
      ensures Valid()
      ensures sa.text == [] && sa.sa == []
    {
      sa.Clear();
    }
  }

  /** The constructor of `StringCounter`: a negative smoothing parameter is rejected with
      `invalid_argument`; otherwise the tables start at zero and nothing is fitted. */
  method NewStringCounter(maxLen: nat, smooth: real, boundary: nat) returns (r: Made<StringCounter>)
    ensures r.InvalidArgument? <==> smooth < 0.0
    ensures r.InvalidArgument? ==> r.message == SmoothMessage
    ensures r.Made? ==> fresh(r.value) && r.value.Valid() && r.value.sa.text == []
    ensures r.Made? ==> r.value.maxLen == maxLen && r.value.smooth == smooth && r.value.boundary == boundary
  {
    if smooth < 0.0 {
      return InvalidArgument(SmoothMessage);
    }
    var c := new StringCounter(maxLen, smooth, boundary);
    return Made(c);
  }

  /** Every character's id lies below the alphabet size, and a character gets id 0 exactly
      when it is the boundary character. */
  lemma IdsBelowAlphabet(boundary: nat, s: seq<nat>)
    ensures var m, ids := Extend(map[boundary := Boundary], s), Encode(map[boundary := Boundary], s);
      forall k :: 0 <= k < |s| ==> ids[k] < |m| && (ids[k] == Boundary <==> s[k] == boundary)
  {
    var m0 := map[boundary := Boundary];
    var m := Extend(m0, s);
    ExtendWellNumbered(m0, s);
    ExtendKeeps(m0, s);
    forall k | 0 <= k < |s|
      ensures Encode(m0, s)[k] < |m|
      ensures Encode(m0, s)[k] == Boundary <==> s[k] == boundary
    {
      EncodeAt(m0, s, k);
    }
  }
}
