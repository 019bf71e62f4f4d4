/** The three revisions of the frequency trie: `freq_trie` of src/freq_trie.hpp (shared
    nodes holding `f`, `hl` and `hr`), `freq_trie` of include/esapp/freq_trie.hpp and the
    templated `freq_trie<T>` of include/esapp/internal/freq_trie.hpp (owned nodes holding
    `f`, `avl` and `avr`). A trie is a set of node paths; each counter is a map over that
    set. A node pointer is the node's path, a null pointer `None`. */
module FreqTries {
  import opened Options
  import opened TriePaths
  import Lex

  /** The node set after the nodes for every prefix of `r` were made to exist. */
  ghost predicate Inserted(keys0: set<seq<nat>>, keys: set<seq<nat>>, r: seq<nat>)
  {
    forall q :: q in keys <==> q in keys0 || Lex.IsPrefix(q, r)
  }

  /** A prefix-closed node set stays prefix-closed when a child of a node is added. */
  lemma AddChildClosed(keys: set<seq<nat>>, p: seq<nat>, key: nat)
    requires PrefixClosed(keys) && p in keys
    ensures PrefixClosed(keys + {p + [key]})
  {
    var keys' := keys + {p + [key]};
    forall q
      ensures ParentIn(keys', q)
    {
      if q == p + [key] {
        assert q[..|q| - 1] == p;
      } else {
        assert ParentIn(keys, q);
      }
    }
  }

  /** The lookup loop of every `find`: follow the range from the root and give up at the
      first missing child. The result is the node of the whole range, when it exists. */
  method Lookup(keys: set<seq<nat>>, r: seq<nat>) returns (node: Option<seq<nat>>)
    requires PrefixClosed(keys)
    ensures node == if r in keys then Some(r) else None
  {
    var p: seq<nat> := [];
    var k := 0;
    while k < |r|
      invariant 0 <= k <= |r| && p == r[..k] && p in keys
    {
      var next := p + [r[k]];
      assert next == r[..k + 1];
      if next !in keys {
        if r in keys {
          PrefixIn(keys, r, k + 1);
        }
        return None;
      }
      p := next;
      k := k + 1;
    }
    assert p == r;
    return Some(p);
  }

  /** `freq_trie` of src/freq_trie.hpp: wide-character terms, `size_t` frequencies and the
      `double` statistics `hl` and `hr`. */
  class SharedTrie {
    var f: map<seq<nat>, nat>
    var hl: map<seq<nat>, real>
    var hr: map<seq<nat>, real>

    ghost predicate Valid()
      reads this
    {
      PrefixClosed(f.Keys) && Bounded(f) && hl.Keys == f.Keys && hr.Keys == f.Keys
    }

    /** A fresh trie is a root with `f = 0` and `hl = hr = 0`. */
    constructor ()
      ensures Valid()
      ensures f == map[[] := 0] && hl == map[[] := 0.0] && hr == map[[] := 0.0]
    {
      f := map[[] := 0];
      hl := map[[] := 0.0];
      hr := map[[] := 0.0];
    }

    /** The copy constructor copies every node of the other trie. */
    constructor Copy(other: SharedTrie)
      requires other.Valid()
      ensures Valid()
      ensures f == other.f && hl == other.hl && hr == other.hr
    {
      f := other.f;
      hl := other.hl;
      hr := other.hr;
    }

    /** Assignment replaces every node by a copy of the other trie's. */
    method Assign(other: SharedTrie)
      requires other.Valid()
      modifies this
      ensures Valid()
      ensures f == old(other.f) && hl == old(other.hl) && hr == old(other.hr)
    {
      f, hl, hr := other.f, other.hl, other.hr;
    }

    /** `node->get(key, create)` on node `p`: the existing child, else nothing unless
        `create`, in which case a fresh child with zero counters is added. */
    method Get(p: seq<nat>, key: nat, create: bool) returns (child: Option<seq<nat>>)
      requires Valid() && p in f
      modifies this
      ensures Valid()
      ensures p + [key] in old(f) ==> child == Some(p + [key]) && f == old(f) && hl == old(hl) && hr == old(hr)
      ensures p + [key] !in old(f) && !create ==> child == None && f == old(f) && hl == old(hl) && hr == old(hr)
      ensures p + [key] !in old(f) && create ==>
        child == Some(p + [key]) && f == old(f)[p + [key] := 0]
        && hl == old(hl)[p + [key] := 0.0] && hr == old(hr)[p + [key] := 0.0]
    {
      var q := p + [key];
      if q in f {
        return Some(q);
      } else if !create {
        return None;
      }
      AddChildClosed(f.Keys, p, key);
      f := f[q := 0];
      assert f.Keys == old(f).Keys + {q};
      hl := hl[q := 0.0];
      hr := hr[q := 0.0];
      return Some(q);
    }

    /** `insert(r)` creates the missing nodes along `r` and returns the node of `r` (the root
        for an empty range); existing nodes keep their counters, new ones start at zero. */
    method Insert(r: seq<nat>) returns (node: seq<nat>)
      requires Valid()
      modifies this
      ensures Valid() && node == r && r in f
      ensures Inserted(old(f).Keys, f.Keys, r)
      ensures forall q :: q in old(f) ==> f[q] == old(f)[q] && hl[q] == old(hl)[q] && hr[q] == old(hr)[q]
      ensures forall q :: q in f && q !in old(f) ==> f[q] == 0 && hl[q] == 0.0 && hr[q] == 0.0
    {
      node := [];
      var k := 0;
      while k < |r|
        invariant 0 <= k <= |r| && node == r[..k] && Valid() && node in f
        invariant forall q :: q in f <==> q in old(f) || (Lex.IsPrefix(q, r) && |q| <= k)
        invariant forall q :: q in old(f) ==> q in f && f[q] == old(f)[q] && hl[q] == old(hl)[q] && hr[q] == old(hr)[q]
        invariant forall q :: q in f && q !in old(f) ==> f[q] == 0 && hl[q] == 0.0 && hr[q] == 0.0
      {
        assert node + [r[k]] == r[..k + 1];
        var child := Get(node, r[k], true);
        node := child.value;
        k := k + 1;
      }
      assert node == r;
      assert forall q :: Lex.IsPrefix(q, r) ==> |q| <= k;
    }

    /** Overwrites the three counters of an existing node, as `node->f = ...`,
        `node->hl = ...` and `node->hr = ...` do through the node handle. */
    method SetCounters(node: seq<nat>, fv: nat, hlv: real, hrv: real)
      requires Valid() && node in f && fv < Word
      modifies this
      ensures Valid()
      ensures f == old(f)[node := fv] && hl == old(hl)[node := hlv] && hr == old(hr)[node := hrv]
    {
      f := f[node := fv];
      hl := hl[node := hlv];
      hr := hr[node := hrv];
      assert f.Keys == old(f).Keys;
    }

    /** `find(r)`: the node of `r`, or null as soon as a step is missing. */
    method Find(r: seq<nat>) returns (node: Option<seq<nat>>)
      requires Valid()
      ensures node == if r in f then Some(r) else None
    {
      node := Lookup(f.Keys, r);
    }

    /** `increase(r)`: one more on every node reached by the walks of `r`. */
    method Increase(r: seq<nat>)
      requires Valid()
      modifies this
      ensures Valid()
      ensures f == Walked(old(f), r, true) && hl == old(hl) && hr == old(hr)
    {
      f := Walk(f, r, true);
    }

    /** `decrease(r)`: one less on every node reached by the walks of `r`. */
    method Decrease(r: seq<nat>)
      requires Valid()
      modifies this
      ensures Valid()
      ensures f == Walked(old(f), r, false) && hl == old(hl) && hr == old(hr)
    {
      f := Walk(f, r, false);
    }

    /** `clear()` drops every child of the root and zeroes its counters. */
    method Clear()
      modifies this
      ensures Valid()
      ensures f == map[[] := 0] && hl == map[[] := 0.0] && hr == map[[] := 0.0]
    {
      f := map[[] := 0];
      hl := map[[] := 0.0];
      hr := map[[] := 0.0];
    }
  }

  /** A trie with `size_t` counters `f`, `avl` and `avr` on every node. */
  ghost predicate CountersValid(f: map<seq<nat>, nat>, avl: map<seq<nat>, nat>, avr: map<seq<nat>, nat>)
  {
    PrefixClosed(f.Keys) && Bounded(f) && Bounded(avl) && Bounded(avr) && avl.Keys == f.Keys && avr.Keys == f.Keys
  }

  /** `freq_trie` of include/esapp/freq_trie.hpp: 16-bit terms; a new node has every
      counter at 1. */
  class Trie {
    var f: map<seq<nat>, nat>
    var avl: map<seq<nat>, nat>
    var avr: map<seq<nat>, nat>

    ghost predicate Valid()
      reads this
    {
      CountersValid(f, avl, avr)
    }

    /** The root is a new node: every counter is 1. */
    constructor ()
      ensures Valid()
      ensures f == map[[] := 1] && avl == map[[] := 1] && avr == map[[] := 1]
    {
      f := map[[] := 1];
      avl := map[[] := 1];
      avr := map[[] := 1];
    }

    /** `get_root()`: the root node. */
    function Root(): (p: seq<nat>)
      reads this
      requires Valid()
      ensures p in f && |p| == 0
    {
      []
    }

    /** `node->get(key)` (const): the child, or null; never creates. */
    function Child(p: seq<nat>, key: nat): (child: Option<seq<nat>>)
      reads this
      requires Valid() && p in f
      ensures child.Some? <==> p + [key] in f
      ensures child.Some? ==> child.value == p + [key]
    {
      if p + [key] in f then Some(p + [key]) else None
    }

    /** `node->get(key, create)`: the existing child, else nothing unless `create`, in which
        case a new child with every counter at 1 is added. */
    method Get(p: seq<nat>, key: nat, create: bool) returns (child: Option<seq<nat>>)
      requires Valid() && p in f
      modifies this
      ensures Valid()
      ensures p + [key] in old(f) ==> child == Some(p + [key]) && f == old(f) && avl == old(avl) && avr == old(avr)
      ensures p + [key] !in old(f) && !create ==> child == None && f == old(f) && avl == old(avl) && avr == old(avr)
      ensures p + [key] !in old(f) && create ==>
        child == Some(p + [key]) && f == old(f)[p + [key] := 1]
        && avl == old(avl)[p + [key] := 1] && avr == old(avr)[p + [key] := 1]
    {
      var q := p + [key];
      if q in f {
        return Some(q);
      } else if !create {
        return None;
      }
      AddChildClosed(f.Keys, p, key);
      f := f[q := 1];
      assert f.Keys == old(f).Keys + {q};
      avl := avl[q := 1];
      avr := avr[q := 1];
      return Some(q);
    }

    /** Writes the counters of an existing node through its pointer (`node->f++` and the
        like); values are stored as `size_t`. */
    method SetCounters(p: seq<nat>, nf: int, nl: int, nr: int)
      requires Valid() && p in f
      modifies this
      ensures Valid()
      ensures f == old(f)[p := Wrap(nf)] && avl == old(avl)[p := Wrap(nl)] && avr == old(avr)[p := Wrap(nr)]
    {
      f := f[p := Wrap(nf)];
      assert f.Keys == old(f).Keys;
      avl := avl[p := Wrap(nl)];
      avr := avr[p := Wrap(nr)];
    }

    /** `find(r)`: the node of `r`, or null at the first missing step. */
    method Find(r: seq<nat>) returns (node: Option<seq<nat>>)
      requires Valid()
      ensures node == if r in f then Some(r) else None
    {
      node := Lookup(f.Keys, r);
    }

    /** `increase(r)` changes only `f`. */
    method Increase(r: seq<nat>)
      requires Valid()
      modifies this
      ensures Valid()
      ensures f == Walked(old(f), r, true) && avl == old(avl) && avr == old(avr)
    {
      f := Walk(f, r, true);
    }

    /** `decrease(r)` changes only `f`. */
    method Decrease(r: seq<nat>)
      requires Valid()
      modifies this
      ensures Valid()
      ensures f == Walked(old(f), r, false) && avl == old(avl) && avr == old(avr)
    {
      f := Walk(f, r, false);
    }

    /** `clear()` drops the root's children and sets its counters to 0. */
    method Clear()
      modifies this
      ensures Valid()
      ensures f == map[[] := 0] && avl == map[[] := 0] && avr == map[[] := 0]
    {
      f := map[[] := 0];
      avl := map[[] := 0];
      avr := map[[] := 0];
    }
  }

  /** `freq_trie<T>` of include/esapp/internal/freq_trie.hpp: terms of any type, modelled as
      their integer codes; no `increase` (callers count through `get_or_create`). */
  class InternalTrie {
    var f: map<seq<nat>, nat>
    var avl: map<seq<nat>, nat>
    var avr: map<seq<nat>, nat>

    ghost predicate Valid()
      reads this
    {
      CountersValid(f, avl, avr)
    }

    /** The root is a new node: every counter is 1. */
    constructor ()
      ensures Valid()
      ensures f == map[[] := 1] && avl == map[[] := 1] && avr == map[[] := 1]
    {
      f := map[[] := 1];
      avl := map[[] := 1];
      avr := map[[] := 1];
    }

    /** `get_root()`: the root node. */
    function Root(): (p: seq<nat>)
      reads this
      requires Valid()
      ensures p in f && |p| == 0
    {
      []
    }

    /** `node->get(key)`: the child, or null; never creates. */
    function Child(p: seq<nat>, key: nat): (child: Option<seq<nat>>)
      reads this
      requires Valid() && p in f
      ensures child.Some? <==> p + [key] in f
      ensures child.Some? ==> child.value == p + [key]
    {
      if p + [key] in f then Some(p + [key]) else None
    }

    /** `node->get_or_create(key)`: `(false, child)` when the child exists, otherwise exactly
        one new child with every counter at 1 and `(true, child)`. */
    method GetOrCreate(p: seq<nat>, key: nat) returns (created: bool, child: seq<nat>)
      requires Valid() && p in f
      modifies this
      ensures Valid() && child == p + [key] && child in f
      ensures created <==> child !in old(f)
      ensures !created ==> f == old(f) && avl == old(avl) && avr == old(avr)
      ensures created ==> f == old(f)[child := 1] && avl == old(avl)[child := 1] && avr == old(avr)[child := 1]
    {
      child := p + [key];
      if child in f {
        return false, child;
      }
      AddChildClosed(f.Keys, p, key);
      f := f[child := 1];
      assert f.Keys == old(f).Keys + {child};
      avl := avl[child := 1];
      avr := avr[child := 1];
      created := true;
    }

    /** `find(r)`: the node of `r`, or null at the first missing step. */
    method Find(r: seq<nat>) returns (node: Option<seq<nat>>)
      requires Valid()
      ensures node == if r in f then Some(r) else None
    {
      node := Lookup(f.Keys, r);
    }

    /** `decrease(r)` changes only `f`. */
    method Decrease(r: seq<nat>)
      requires Valid()
      modifies this
      ensures Valid()
      ensures f == Walked(old(f), r, false) && avl == old(avl) && avr == old(avr)
    {
      f := Walk(f, r, false);
    }

    /** Writes the counters of an existing node, as callers do through a node pointer;
        values are stored as `size_t`. */
    method SetCounters(p: seq<nat>, nf: int, nl: int, nr: int)
      requires Valid() && p in f
      modifies this
      ensures Valid()
      ensures f == old(f)[p := Wrap(nf)] && avl == old(avl)[p := Wrap(nl)] && avr == old(avr)[p := Wrap(nr)]
    {
      f := f[p := Wrap(nf)];
      assert f.Keys == old(f).Keys;
      avl := avl[p := Wrap(nl)];
      avr := avr[p := Wrap(nr)];
    }

    /** `clear()` drops the root's children and sets its counters to 0. */
    method Clear()
      modifies this
      ensures Valid()
      ensures f == map[[] := 0] && avl == map[[] := 0] && avr == map[[] := 0]
    {
      f := map[[] := 0];
      avl := map[[] := 0];
      avr := map[[] := 0];
    }
  }
}
