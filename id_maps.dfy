/** Dense character ids assigned in first-seen order. Every encoder of the model (the two
    encoded multistrings and the string counter's character map) numbers an unseen
    character with the current size of its map, so ids stay consecutive from 0. */
module IdMaps {

  /** Ids are distinct and lie below the number of mapped characters. */
  predicate WellNumbered(m: map<nat, nat>)
  {
    (forall c :: c in m ==> m[c] < |m|)
    && (forall c, d :: c in m && d in m && c != d ==> m[c] != m[d])
  }

  /** One character: reuse its id, or give it the next id `|m|`. */
  function Step(m: map<nat, nat>, c: nat): map<nat, nat>
  {
    if c in m then m else m[c := |m|]
  }

  /** The map after numbering every character of `s`, left to right. */
  function Extend(m: map<nat, nat>, s: seq<nat>): map<nat, nat>
  {
    if |s| == 0 then m else Step(Extend(m, s[..|s| - 1]), s[|s| - 1])
  }

  /** The ids written for `s`, each character through the map as it stood when it was read. */
  function Encode(m: map<nat, nat>, s: seq<nat>): (r: seq<nat>)
    ensures |r| == |s|
  {
    if |s| == 0 then []
    else
      var final := Extend(m, s);
      var c := s[|s| - 1];
      Encode(m, s[..|s| - 1]) + [if c in final then final[c] else 0]
  }

  /** Every character of `s` is mapped afterwards, and nothing else is added. */
  lemma {:induction false} ExtendCovers(m: map<nat, nat>, s: seq<nat>)
    ensures forall c :: c in Extend(m, s) <==> c in m || c in s
  {
    if |s| > 0 {
      ExtendCovers(m, s[..|s| - 1]);
      assert s == s[..|s| - 1] + [s[|s| - 1]];
    }
  }

  /** Characters already mapped keep their ids. */
  lemma {:induction false} ExtendKeeps(m: map<nat, nat>, s: seq<nat>)
    ensures forall c :: c in m ==> c in Extend(m, s) && Extend(m, s)[c] == m[c]
  {
    if |s| > 0 {
      ExtendKeeps(m, s[..|s| - 1]);
    }
  }

  /** Numbering more characters never drops a mapped one, so the map only grows. */
  lemma {:induction false} ExtendGrows(m: map<nat, nat>, s: seq<nat>, k: nat)
    requires k <= |s|
    ensures forall c :: c in Extend(m, s[..k]) ==> c in Extend(m, s) && Extend(m, s)[c] == Extend(m, s[..k])[c]
    ensures |Extend(m, s[..k])| <= |Extend(m, s)|
    decreases |s|
  {
    if k < |s| {
      var n := |s| - 1;
      assert s[..n][..k] == s[..k];
      ExtendGrows(m, s[..n], k);
    } else {
      assert s[..k] == s;
    }
  }

  /** Numbering keeps ids distinct and dense. */
  lemma {:induction false} ExtendWellNumbered(m: map<nat, nat>, s: seq<nat>)
    requires WellNumbered(m)
    ensures WellNumbered(Extend(m, s))
    ensures |m| <= |Extend(m, s)|
  {
    if |s| > 0 {
      var p := Extend(m, s[..|s| - 1]);
      ExtendWellNumbered(m, s[..|s| - 1]);
      var c := s[|s| - 1];
      if c !in p {
        assert |p[c := |p|]| == |p| + 1;
      }
    }
  }

  /** Each position of the encoding carries the final id of its character. */
  lemma {:induction false} EncodeAt(m: map<nat, nat>, s: seq<nat>, k: nat)
    requires k < |s|
    ensures s[k] in Extend(m, s) && Encode(m, s)[k] == Extend(m, s)[s[k]]
    decreases |s|
  {
    ExtendCovers(m, s);
    var n := |s| - 1;
    if k < n {
      EncodeAt(m, s[..n], k);
      ExtendGrows(m, s, n);
    }
  }

  /** Unseen characters get the ids `|m|, |m|+1, ...` in the order of their first
      occurrences: a character first seen earlier gets the smaller id, and every new id is
      at least `|m|`. */
  lemma {:induction false} FirstSeenOrder(m: map<nat, nat>, s: seq<nat>, i: nat, j: nat)
    requires WellNumbered(m)
    requires i < j < |s| && s[i] !in m && s[j] !in m && s[j] !in s[..j]
    ensures s[i] in Extend(m, s) && s[j] in Extend(m, s)
    ensures |m| <= Extend(m, s)[s[i]] < Extend(m, s)[s[j]]
    decreases |s|
  {
    ExtendCovers(m, s);
    var n := |s| - 1;
    if j < n {
      assert s[..n][..j] == s[..j];
      FirstSeenOrder(m, s[..n], i, j);
      ExtendGrows(m, s, n);
    } else {
      var p := Extend(m, s[..n]);
      ExtendCovers(m, s[..n]);
      ExtendWellNumbered(m, s[..n]);
      assert s[i] in s[..n];
      ExtendKeeps(m, s[..n]);
      NewIdsAbove(m, s[..n], s[i]);
    }
  }

  /** A character that was not mapped at the start receives an id of at least `|m|`. */
  lemma {:induction false} NewIdsAbove(m: map<nat, nat>, s: seq<nat>, c: nat)
    requires WellNumbered(m) && c !in m && c in s
    ensures c in Extend(m, s) && |m| <= Extend(m, s)[c]
    decreases |s|
  {
    ExtendCovers(m, s);
    var n := |s| - 1;
    ExtendWellNumbered(m, s[..n]);
    if c in s[..n] {
      NewIdsAbove(m, s[..n], c);
    } else {
      assert c == s[n];
      ExtendCovers(m, s[..n]);
    }
  }
}
