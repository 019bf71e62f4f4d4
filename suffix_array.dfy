/** The suffix array over an end-offset multi-string (src/suffix_array.hpp,
    src/suffix_array.cpp): the text, its suffix array, inverse ranks and LCP array. The
    array is sorted by the reference construction `SuffixSpec.SortSuffixes`, not by the
    induced-sorting construction of the source, whose building blocks are in module `Sais`.
    The two differ on a text whose last position is not LMS: stage 3 as written never
    places that position (`Sais.PlaceLmsAndInduce`, `Sais.LastNotLmsAfterEmptyString`). */
module SuffixArrays {
  import opened Lex
  import opened SuffixSpec
  import opened EncStr

  class SuffixArray {
    const text: EndOffsetMultistring
    var sa: seq<nat>
    var isa: seq<nat>
    var lcpa: seq<nat>

    /** The arrays describe the current text: `sa` sorts all its suffixes, `isa` inverts
        `sa`, and `lcpa` holds the boundary-free common prefixes of rank neighbours. */
    predicate Valid()
      reads this, text
    {
      text.Valid()
      && IsSuffixArray(text.data, sa, |text.data|)
      && IsInverse(sa, isa)
      && IsLcpArray(text.data, sa, lcpa)
      && (|lcpa| > 0 ==> lcpa[0] == 0)
    }

    constructor ()
      ensures Valid() && fresh(text)
      ensures text.data == [] && text.offsets == [] && sa == [] && isa == [] && lcpa == []
    {
      text := new EndOffsetMultistring();
      sa, isa, lcpa := [], [], [];
    }

    /** Builds the arrays for the current text (`construct()`). */
    method Build()
      requires text.Valid() && (|lcpa| > 0 ==> lcpa[0] == 0)
      modifies this
      ensures Valid()
      ensures IsSuffixArray(text.data, sa, |text.data|)
    {
      var s := text.data;
      sa := SortSuffixes(s, |s|);
      isa := InvertSuffixArray(s, sa, |s|, isa);
      lcpa := KasaiLcp(s, sa, isa, |s|, lcpa);
    }

    /** Appends every generated string to the text in order, then rebuilds the arrays. */
    method Construct(g: seq<seq<nat>>)
      requires Valid()
      modifies this, text
      ensures Valid()
      ensures text.data == old(text.data) + Concat(old(text.idMap), g)
      ensures |text.offsets| == |old(text.offsets)| + |g|
      ensures LensKept(old(text.offsets), text.offsets, g, |g|)
    {
      PushAll(text, g);
      Build();
    }

    /** Empties the text and all three arrays. */
    method Clear()
      requires Valid()
      modifies this, text
      ensures Valid()
      ensures text.data == [] && text.offsets == [] && sa == [] && isa == [] && lcpa == []
    {
      text.Clear();
      sa, isa, lcpa := [], [], [];
    }

    /** One suffix per text position. */
    function Size(): (r: nat)
      reads this, text
      requires Valid()
      ensures r == |text.data|
    {
      |sa|
    }

    /** Empty exactly when no string was added. */
    function Empty(): (r: bool)
      reads this, text
      requires Valid()
      ensures r <==> |text.offsets| == 0
    {
      |sa| == 0
    }

    /** The rank of the suffix at position i. */
    function Rank(i: nat): (r: nat)
      reads this, text
      requires Valid() && i < |sa|
      ensures r < |sa| && sa[r] == i
    {
      InverseRoundTrip(text.data, sa, isa, |sa|);
      isa[i]
    }

    /** The LCP entry at rank i. */
    function Lcp(i: nat): (r: nat)
      reads this, text
      requires Valid() && i < |sa|
      ensures i > 0 ==> r == Lcp0(text.data[sa[i]..], text.data[sa[i - 1]..])
      ensures i == 0 ==> r == 0
    {
      assert i > 0 ==> LcpAt(text.data, sa, lcpa, i);
      lcpa[i]
    }

    /** The position of the suffix at rank i (`at` and `operator[]`). */
    function At(i: nat): (r: nat)
      reads this, text
      requires Valid() && i < |sa|
      ensures r < |sa| && isa[r] == i
      ensures i + 1 < |sa| ==> Less(text.data[r..], text.data[sa[i + 1]..])
    {
      assert i + 1 < |sa| ==> RankLess(text.data, sa, i, i + 1);
      sa[i]
    }

    /** The id at text position i. */
    function Term(i: nat): (r: nat)
      reads this, text
      requires Valid() && i < |text.data|
      ensures r == text.data[i]
    {
      text.data[i]
    }

    function AlphabetCount(): (r: nat)
      reads this, text
      requires Valid()
      ensures r >= 1 && r == |text.idMap|
    {
      |text.idMap|
    }

    function StringCount(): (r: nat)
      reads this, text
      requires Valid()
      ensures r == |text.offsets|
    {
      |text.offsets|
    }

    /** `size(i)`: the length of string i of the text, without its boundary id. */
    function StringLength(i: nat): (r: nat)
      reads this, text
      requires Valid() && i < |text.offsets|
      ensures text.Start(i) + r < |text.data| && text.data[text.Start(i) + r] == Boundary
      ensures i + 1 < |text.offsets| ==> text.Start(i + 1) == text.Start(i) + r + 1
    {
      text.StringLength(i)
    }
  }

  /** The ids of all strings of `g` appended in order, each followed by a boundary id. */
  function Concat(m: map<nat, nat>, g: seq<seq<nat>>): seq<nat>
  {
    if |g| == 0 then []
    else Concat(m, g[..|g| - 1]) + IdMaps.Encode(ExtendAll(m, g[..|g| - 1]), g[|g| - 1]) + [Boundary]
  }

  /** The loop of `construct(g)`: push every generated string onto the text in order. */
  method PushAll(text: EndOffsetMultistring, g: seq<seq<nat>>)
    requires text.Valid()
    modifies text
    ensures text.Valid()
    ensures text.data == old(text.data) + Concat(old(text.idMap), g)
    ensures text.idMap == ExtendAll(old(text.idMap), g)
    ensures |text.offsets| == |old(text.offsets)| + |g|
    ensures LensKept(old(text.offsets), text.offsets, g, |g|)
  {
    ghost var m0, d0, o0 := text.idMap, text.data, text.offsets;
    var k := 0;
    while k < |g|
      invariant 0 <= k <= |g|
      invariant text.Valid()
      invariant text.data == d0 + Concat(m0, g[..k])
      invariant text.idMap == ExtendAll(m0, g[..k])
      invariant text.offsets == o0 + Ends(|d0|, m0, g[..k])
    {
      PushNext(text, g, k, m0, d0, o0);
      k := k + 1;
    }
    assert g[..k] == g;
    assert Begin(o0, |o0|) == |d0|;
    EndsLens(d0, o0, m0, g);
  }

  /** One round of `PushAll`: string k goes onto a text holding `d0` and the first k strings. */
  method PushNext(text: EndOffsetMultistring, g: seq<seq<nat>>, k: nat,
                  ghost m0: map<nat, nat>, ghost d0: seq<nat>, ghost o0: seq<nat>)
    requires text.Valid() && k < |g|
    requires text.data == d0 + Concat(m0, g[..k]) && text.idMap == ExtendAll(m0, g[..k])
    requires text.offsets == o0 + Ends(|d0|, m0, g[..k])
    modifies text
    ensures text.Valid()
    ensures text.data == d0 + Concat(m0, g[..k + 1]) && text.idMap == ExtendAll(m0, g[..k + 1])
    ensures text.offsets == o0 + Ends(|d0|, m0, g[..k + 1])
  {
    PushStep(d0, o0, m0, g, k);
    text.PushBack(g[k]);
  }

  /** What one more push appends, written as the state after k + 1 strings. */
  lemma PushStep(d0: seq<nat>, o0: seq<nat>, m0: map<nat, nat>, g: seq<seq<nat>>, k: nat)
    requires k < |g|
    ensures ExtendAll(m0, g[..k + 1]) == IdMaps.Extend(ExtendAll(m0, g[..k]), g[k])
    ensures d0 + Concat(m0, g[..k]) + IdMaps.Encode(ExtendAll(m0, g[..k]), g[k]) + [Boundary] == d0 + Concat(m0, g[..k + 1])
    ensures o0 + Ends(|d0|, m0, g[..k]) + [|d0 + Concat(m0, g[..k + 1])|] == o0 + Ends(|d0|, m0, g[..k + 1])
  {
    ConcatStep(m0, g, k);
    EndsStep(|d0|, m0, g, k);
  }

  /** The strings of `o0` keep their lengths in `o`, and the next k strings of `o` are
      those of `g`. */
  predicate LensKept(o0: seq<nat>, o: seq<nat>, g: seq<seq<nat>>, k: nat)
  {
    (forall t :: 0 <= t < |o0| ==> Len(o, t) == Len(o0, t))
    && (forall t :: 0 <= t < k && t < |g| ==> Len(o, |o0| + t) == |g[t]|)
  }

  /** The end offsets `PushAll` appends after a buffer of length b: one past the encoding of
      every prefix of `g`. */
  function Ends(b: nat, m: map<nat, nat>, g: seq<seq<nat>>): (r: seq<nat>)
    ensures |r| == |g|
  {
    if |g| == 0 then [] else Ends(b, m, g[..|g| - 1]) + [b + |Concat(m, g)|]
  }

  lemma EndsStep(b: nat, m: map<nat, nat>, g: seq<seq<nat>>, k: nat)
    requires k < |g|
    ensures Ends(b, m, g[..k + 1]) == Ends(b, m, g[..k]) + [b + |Concat(m, g[..k + 1])|]
  {
    assert g[..k + 1][..k] == g[..k];
  }

  /** Appending the end offsets of `g` keeps the lengths of the strings already there and
      gives the new strings the lengths of those of `g`. */
  lemma {:induction false} EndsLens(d: seq<nat>, o: seq<nat>, m: map<nat, nat>, g: seq<seq<nat>>)
    requires Begin(o, |o|) == |d|
    ensures LensKept(o, o + Ends(|d|, m, g), g, |g|)
  {
    if |g| == 0 {
      assert o + Ends(|d|, m, g) == o;
    } else {
      var g', x := g[..|g| - 1], g[|g| - 1];
      EndsLens(d, o, m, g');
      EndsLast(d, o, m, g');
      var d', o' := d + Concat(m, g'), o + Ends(|d|, m, g');
      var e := |d| + |Concat(m, g)|;
      assert |Concat(m, g)| == |Concat(m, g')| + |x| + 1;
      assert o + Ends(|d|, m, g) == o' + [e];
      assert g == g' + [x];
      LensPushed(o, d', o', g', x, e);
    }
  }

  /** The last end offset after appending those of `g` is the end of the extended buffer. */
  lemma EndsLast(d: seq<nat>, o: seq<nat>, m: map<nat, nat>, g: seq<seq<nat>>)
    requires Begin(o, |o|) == |d|
    ensures Begin(o + Ends(|d|, m, g), |o| + |g|) == |d| + |Concat(m, g)|
  {
    if |g| == 0 {
      assert o + Ends(|d|, m, g) == o;
    }
  }

  lemma LensPushed(o0: seq<nat>, d: seq<nat>, o: seq<nat>, g: seq<seq<nat>>, x: seq<nat>, e: nat)
    requires Begin(o, |o|) == |d| && |o| == |o0| + |g| && e == |d| + |x| + 1
    requires LensKept(o0, o, g, |g|)
    ensures LensKept(o0, o + [e], g + [x], |g| + 1)
  {
    LenPushed(d, o, e);
  }

  lemma ConcatStep(m: map<nat, nat>, g: seq<seq<nat>>, k: nat)
    requires k < |g|
    ensures ExtendAll(m, g[..k + 1]) == IdMaps.Extend(ExtendAll(m, g[..k]), g[k])
    ensures Concat(m, g[..k + 1]) == Concat(m, g[..k]) + IdMaps.Encode(ExtendAll(m, g[..k]), g[k]) + [Boundary]
  {
    assert g[..k + 1][..k] == g[..k];
  }

  /** The map after numbering every string of `g` in order. */
  function ExtendAll(m: map<nat, nat>, g: seq<seq<nat>>): map<nat, nat>
  {
    if |g| == 0 then m else IdMaps.Extend(ExtendAll(m, g[..|g| - 1]), g[|g| - 1])
  }
}
