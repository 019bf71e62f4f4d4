/** The encoded multi-string: raw strings of wide characters concatenated as dense ids,
    each string followed by one boundary id 0 (src/encstr.cpp, include/encstr.hpp), and
    the end-offset variant used by the induced-sorting suffix array
    (src/encoded_multistring.cpp). Wide characters are modelled as their integer values. */
module EncStr {
  import opened Options
  import opened IdMaps

  /** The id written after every string; character 0 is mapped to it. */
  const Boundary: nat := 0

  /** Number of distinct values of the 16-bit id type. */
  const IdSpace: nat := 0x1_0000

  /** The map of a fresh multi-string. */
  function InitialMap(): (m: map<nat, nat>)
    ensures WellNumbered(m) && |m| == 1 && 0 in m && m[0] == Boundary
  {
    map[0 := Boundary]
  }

  /** Whether appending `s` keeps every id representable in 16 bits. */
  predicate Fits(m: map<nat, nat>, s: seq<nat>)
  {
    |Extend(m, s)| <= IdSpace
  }

  /** Id assignment exactly as written: the counter is a 16-bit value initialised from the
      map size, so it wraps to 0 once 65536 ids exist. */
  function AssignAsWritten(m: map<nat, nat>, counter: nat, s: seq<nat>): (r: map<nat, nat>)
    ensures forall c :: c in r <==> c in m || c in s
    ensures forall c :: c in m ==> r[c] == m[c]
    decreases |s|
  {
    if |s| == 0 then m
    else if s[0] in m then AssignAsWritten(m, counter, s[1..])
    else AssignAsWritten(m[s[0] := counter], (counter + 1) % IdSpace, s[1..])
  }

  /** The wrap as written: with 65536 characters mapped (ids 0 to 65535), the next unseen
      character receives id 0, the boundary id, shared with character 0. */
  lemma AssignAsWrittenWraps(m: map<nat, nat>, c: nat)
    requires WellNumbered(m) && 0 in m && m[0] == Boundary && |m| == IdSpace && c !in m
    ensures var after := AssignAsWritten(m, |m| % IdSpace, [c]);
      c in after && 0 in after && c != 0 && after[c] == after[0] == Boundary
  {
    assert [c][1..] == [];
  }

  /** The loop of `append`: each character of `s` in turn is looked up, an unseen one
      taking the next id from a counter that starts at the map size, and its id is written
      after `data`. The counter is checked against the 16-bit id space: when an unseen
      character finds it full, the loop stops and reports failure. */
  method AssignIds(idMap: map<nat, nat>, data: seq<nat>, s: seq<nat>) returns (ok: bool, m: map<nat, nat>, out: seq<nat>)
    requires WellNumbered(idMap) && |idMap| <= IdSpace
    ensures ok == Fits(idMap, s)
    ensures ok ==> m == Extend(idMap, s) && out == data + Encode(idMap, s)
  {
    m := idMap;
    out := data;
    var i := |idMap|;
    var k := 0;
    ExtendWellNumbered(idMap, s);
    while k < |s|
      invariant 0 <= k <= |s|
      invariant m == Extend(idMap, s[..k]) && i == |m| && i <= IdSpace
      invariant out == data + Encode(idMap, s[..k])
    {
      AssignStep(idMap, data, s, k, m, out);
      var c := s[k];
      if c !in m {
        if i == IdSpace {
          ExtendGrows(idMap, s, k + 1);
          return false, m, out;
        }
        m := m[c := i];
        i := i + 1;
      }
      out := out + [m[c]];
      k := k + 1;
    }
    assert s[..k] == s;
    ok := true;
  }

  /** One character of the `append` loop: the map gains the character if it is unseen, with
      the next id, and the encoding gains its id. */
  lemma AssignStep(idMap: map<nat, nat>, data: seq<nat>, s: seq<nat>, k: nat, m: map<nat, nat>, out: seq<nat>)
    requires k < |s| && m == Extend(idMap, s[..k]) && out == data + Encode(idMap, s[..k])
    ensures Extend(idMap, s[..k + 1]) == if s[k] in m then m else m[s[k] := |m|]
    ensures s[k] in Extend(idMap, s[..k + 1])
    ensures data + Encode(idMap, s[..k + 1]) == out + [Extend(idMap, s[..k + 1])[s[k]]]
  {
    assert s[..k + 1][..k] == s[..k];
  }

  /** The multi-string of src/encstr.cpp: `offsets` holds the start of every string. */
  class EncodedMultistring {
    var idMap: map<nat, nat>
    var data: seq<nat>
    var offsets: seq<nat>

    predicate Valid()
      reads this
    {
      WellNumbered(idMap) && 0 in idMap && idMap[0] == Boundary && |idMap| <= IdSpace
      && (forall k :: 0 <= k < |offsets| ==> offsets[k] < |data|)
    }

    /** A fresh multi-string maps character 0 to the boundary id and holds no string. */
    constructor ()
      ensures Valid()
      ensures idMap == InitialMap() && data == [] && offsets == []
    {
      idMap := InitialMap();
      data := [];
      offsets := [];
    }

    /** Constructing from `s` is constructing empty and appending `s`. */
    constructor FromString(s: seq<nat>)
      ensures Valid()
      ensures Fits(InitialMap(), s) ==>
        idMap == Extend(InitialMap(), s) && data == Encode(InitialMap(), s) + [Boundary] && offsets == [0]
      ensures !Fits(InitialMap(), s) ==> idMap == InitialMap() && data == [] && offsets == []
    {
      idMap := InitialMap();
      data := [];
      offsets := [];
      new;
      var _ := Append(s);
    }

    /** Appends `s`: its start offset is recorded, unseen characters get the next ids in
        first-seen order, and one boundary id follows. The id counter is checked against
        the 16-bit id space; an append that would overflow it changes nothing. */
    method Append(s: seq<nat>) returns (ok: bool)
      requires Valid()
      modifies this
      ensures Valid()
      ensures ok == Fits(old(idMap), s)
      ensures ok ==> (idMap == Extend(old(idMap), s)
                      && data == old(data) + Encode(old(idMap), s) + [Boundary]
                      && offsets == old(offsets) + [|old(data)|])
      ensures !ok ==> idMap == old(idMap) && data == old(data) && offsets == old(offsets)
    {
      var m, out;
      ok, m, out := AssignIds(idMap, data, s);
      if ok {
        ExtendWellNumbered(idMap, s);
        ExtendKeeps(idMap, s);
        offsets := offsets + [|data|];
        idMap := m;
        data := out + [Boundary];
      }
    }

    /** Empties the buffer and the offsets and resets the map to the boundary entry. */
    method Clear()
      modifies this
      ensures Valid()
      ensures idMap == InitialMap() && data == [] && offsets == []
    {
      idMap := map[];
      data := [];
      offsets := [];
      idMap := idMap[0 := Boundary];
    }

    /** The id of `c`; an unseen character is an error (the map's checked lookup throws). */
    function CharId(c: nat): (r: Option<nat>)
      reads this
      requires Valid()
      ensures r.Some? <==> c in idMap
      ensures r.Some? ==> r.value < |idMap| && (c == 0 <==> r.value == Boundary)
    {
      if c in idMap then Some(idMap[c]) else None
    }

    /** Start of string i. */
    function Offset(i: nat): (r: nat)
      reads this
      requires Valid() && i < |offsets|
      ensures r < |data|
    {
      offsets[i]
    }

    /** The buffer length. */
    function Size(): (r: nat)
      reads this
      requires Valid()
      ensures r == |data| && (|offsets| > 0 ==> r > 0)
    {
      if |offsets| > 0 then assert offsets[0] < |data|; |data| else |data|
    }

    /** The number of mapped characters, boundary included. */
    function AlphabetCount(): (r: nat)
      reads this
      requires Valid()
      ensures 1 <= r <= IdSpace && r == |idMap|
    {
      |idMap|
    }

    /** The number of strings appended. */
    function StringCount(): (r: nat)
      reads this
      ensures r == |offsets|
    {
      |offsets|
    }

    /** Reads id i of the buffer. */
    function Get(i: nat): (r: nat)
      reads this
      requires i < |data|
      ensures r in data
    {
      data[i]
    }

    /** Writes id i of the buffer through the mutable index operator. */
    method Set(i: nat, v: nat)
      requires Valid() && i < |data|
      modifies this
      ensures Valid()
      ensures data == old(data)[i := v] && idMap == old(idMap) && offsets == old(offsets)
    {
      data := data[i := v];
    }
  }

  /** The id-assignment loop of `push_back`: the next id is the current map size. */
  method NumberAll(m0: map<nat, nat>, s: seq<nat>) returns (m: map<nat, nat>, ids: seq<nat>)
    ensures m == Extend(m0, s) && ids == Encode(m0, s)
  {
    m := m0;
    ids := [];
    var i := |m0|;
    var k := 0;
    while k < |s|
      invariant 0 <= k <= |s|
      invariant m == Extend(m0, s[..k]) && i == |m|
      invariant ids == Encode(m0, s[..k])
    {
      assert s[..k + 1][..k] == s[..k];
      var c := s[k];
      if c !in m {
        m := m[c := i];
        i := i + 1;
      }
      ids := ids + [m[c]];
      k := k + 1;
    }
    assert s[..k] == s;
  }

  /** The end offsets of a buffer: each is past the one before it (or past 0) and right
      after a boundary id, and the last is the end of the buffer. */
  predicate EndOffsets(data: seq<nat>, offsets: seq<nat>)
  {
    (forall k :: 0 <= k < |offsets| ==> 0 < offsets[k] <= |data| && data[offsets[k] - 1] == Boundary)
    && (forall k {:trigger Begin(offsets, k)} :: 0 <= k < |offsets| ==> Begin(offsets, k) < offsets[k])
    && (if |offsets| == 0 then data == [] else offsets[|offsets| - 1] == |data|)
  }

  /** End offsets stay valid when a boundary-terminated string is appended, and the new
      end offset is valid too. */
  lemma EndOffsetsKept(data: seq<nat>, ext: seq<nat>, offsets: seq<nat>)
    requires |ext| > 0 && ext[|ext| - 1] == Boundary
    requires EndOffsets(data, offsets)
    ensures EndOffsets(data + ext, offsets + [|data + ext|])
  {
    var d, o := data + ext, offsets + [|data + ext|];
    forall k | 0 <= k < |o|
      ensures 0 < o[k] <= |d| && d[o[k] - 1] == Boundary
    {
      if k < |offsets| {
        assert d[o[k] - 1] == data[offsets[k] - 1];
      }
    }
    EndOffsetsRise(data, ext, offsets);
  }

  /** The end offsets still rise after the end of the appended string. */
  lemma EndOffsetsRise(data: seq<nat>, ext: seq<nat>, offsets: seq<nat>)
    requires |ext| > 0 && EndOffsets(data, offsets)
    ensures var o := offsets + [|data + ext|];
      forall k {:trigger Begin(o, k)} :: 0 <= k < |o| ==> Begin(o, k) < o[k]
  {
    var o := offsets + [|data + ext|];
    forall k | 0 <= k < |o|
      ensures Begin(o, k) < o[k]
    {
      if k < |offsets| {
        assert Begin(o, k) == Begin(offsets, k);
      }
    }
  }

  /** Where string k of a buffer with end offsets `offsets` starts: the end of the string
      before it, or 0. */
  function Begin(offsets: seq<nat>, k: nat): nat
  {
    if 0 < k <= |offsets| then offsets[k - 1] else 0
  }

  /** The length of string k without its boundary id (0 outside the offsets). */
  function Len(offsets: seq<nat>, k: nat): nat
  {
    if k < |offsets| && Begin(offsets, k) < offsets[k] then offsets[k] - Begin(offsets, k) - 1 else 0
  }

  /** Every string of the buffer holds at least one character. */
  predicate NoEmptyString(offsets: seq<nat>)
  {
    forall k :: 0 <= k < |offsets| ==> Len(offsets, k) > 0
  }

  /** Appending an end offset leaves the strings before it as they were, and the new string
      runs from the old end of the buffer up to its boundary id. */
  lemma {:induction false} LenPushed(data: seq<nat>, offsets: seq<nat>, e: nat)
    requires Begin(offsets, |offsets|) == |data| < e
    ensures forall k :: 0 <= k < |offsets| ==> Len(offsets + [e], k) == Len(offsets, k)
    ensures Len(offsets + [e], |offsets|) == e - |data| - 1
  {
    var o := offsets + [e];
    forall k | 0 <= k < |offsets|
      ensures Len(o, k) == Len(offsets, k)
    {
      assert Begin(o, k) == Begin(offsets, k);
    }
    assert Begin(o, |offsets|) == |data|;
  }

  /** The multi-string of src/encoded_multistring.cpp: `offsets` holds the end of every
      string, one past its boundary id. */
  class EndOffsetMultistring {
    var idMap: map<nat, nat>
    var data: seq<nat>
    var offsets: seq<nat>

    predicate Valid()
      reads this
    {
      WellNumbered(idMap) && 0 in idMap && idMap[0] == Boundary && EndOffsets(data, offsets)
    }

    constructor ()
      ensures Valid()
      ensures idMap == InitialMap() && data == [] && offsets == []
    {
      idMap := InitialMap();
      data := [];
      offsets := [];
    }

    /** Appends `s` with the same id assignment, one boundary id, and records the buffer
        length after the boundary as the string's end offset. */
    method PushBack(s: seq<nat>)
      requires Valid()
      modifies this
      ensures Valid()
      ensures idMap == Extend(old(idMap), s)
      ensures data == old(data) + Encode(old(idMap), s) + [Boundary]
      ensures offsets == old(offsets) + [|data|]
    {
      var m, ids := NumberAll(idMap, s);
      ExtendWellNumbered(idMap, s);
      ExtendKeeps(idMap, s);
      EndOffsetsKept(data, ids + [Boundary], offsets);
      idMap := m;
      data := data + ids + [Boundary];
      offsets := offsets + [|data|];
    }

    method Clear()
      modifies this
      ensures Valid()
      ensures idMap == InitialMap() && data == [] && offsets == []
    {
      idMap := InitialMap();
      data := [];
      offsets := [];
    }

    /** Where string i starts: the end offset of the string before it, or 0. */
    function Start(i: nat): (r: nat)
      reads this
      requires Valid() && i < |offsets|
      ensures r < offsets[i] && (i > 0 ==> r == offsets[i - 1]) && (i == 0 ==> r == 0)
    {
      Begin(offsets, i)
    }

    /** The length of string i without its boundary id: it runs from `Start(i)` up to the
        boundary id just before its end offset. */
    function StringLength(i: nat): (r: nat)
      reads this
      requires Valid() && i < |offsets|
      ensures Start(i) + r + 1 == offsets[i] && data[Start(i) + r] == Boundary
    {
      Len(offsets, i)
    }
  }
}
