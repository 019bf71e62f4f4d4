/** The depth-first iterator of `FreqTrie` in src/trie.cpp (`BaseIterator`): a stack of
    (depth, node) pairs whose top is the current node. Advancing pops the top and pushes
    its children, in the unspecified order of the node's hash map, one level deeper; `begin()` is the root's
    iterator advanced once and `end()` the empty stack. Nodes are named by their paths, as
    in module Tries, and the node set is the trie's at the time of the walk. */
module TrieIteration {
  import opened TriePaths
  import Tries

  /** Stack entries: the depth and the node. */
  type Entry = (nat, seq<nat>)

  /** `p` is a prefix of `q`: `q` is `p` or lies below it. */
  predicate IsPrefixOf(p: seq<nat>, q: seq<nat>)
  {
    |p| <= |q| && q[..|p|] == p
  }

  /** Neither node lies below the other. */
  predicate Unrelated(p: seq<nat>, q: seq<nat>)
  {
    !IsPrefixOf(p, q) && !IsPrefixOf(q, p)
  }

  /** The node `p` and every node below it. */
  ghost function Subtree(keys: set<seq<nat>>, p: seq<nat>): set<seq<nat>>
  {
    set q | q in keys && IsPrefixOf(p, q)
  }

  /** The nodes the walk has still to visit from this stack: the subtrees of its entries. */
  ghost function Pending(keys: set<seq<nat>>, stack: seq<Entry>): set<seq<nat>>
    decreases |stack|
  {
    if stack == [] then {} else Pending(keys, stack[..|stack| - 1]) + Subtree(keys, stack[|stack| - 1].1)
  }

  /** Every entry is a node at its own depth, and no entry lies below another. */
  ghost predicate Shaped(keys: set<seq<nat>>, stack: seq<Entry>)
  {
    && (forall i :: 0 <= i < |stack| ==> stack[i].1 in keys && stack[i].0 == |stack[i].1|)
    && (forall i, j :: 0 <= i < j < |stack| ==> Unrelated(stack[i].1, stack[j].1))
  }

  /** `pushed` lists the children of `p`, one level below depth d, each once, in some
      order. */
  ghost predicate ChildrenListed(keys: set<seq<nat>>, p: seq<nat>, d: nat, pushed: seq<Entry>)
  {
    && (forall i :: 0 <= i < |pushed| ==> pushed[i].1 in Tries.Children(keys, p) && pushed[i].0 == d + 1)
    && (forall c :: c in Tries.Children(keys, p) ==> exists i :: 0 <= i < |pushed| && pushed[i].1 == c)
    && (forall i, j :: 0 <= i < j < |pushed| ==> pushed[i].1 != pushed[j].1)
  }

  /** The keys of the children of `p`. */
  function ChildKeys(keys: set<seq<nat>>, p: seq<nat>): (ks: set<nat>)
    ensures forall k :: k in ks <==> p + [k] in keys
  {
    var kids := Tries.Children(keys, p);
    var ks := set c | c in kids :: c[|p|];
    assert forall k :: p + [k] in keys ==> (p + [k])[..|p|] == p && (p + [k])[|p|] == k && p + [k] in kids;
    forall k | k in ks
      ensures p + [k] in keys
    {
      var c :| c in kids && c[|p|] == k;
      assert c == c[..|p|] + [c[|p|]];
    }
    ks
  }

  /** `order` lists the keys `ks`, each once. */
  ghost predicate Lists(order: seq<nat>, ks: set<nat>)
  {
    && (forall i, j :: 0 <= i < j < |order| ==> order[i] != order[j])
    && (forall k :: k in ks <==> k in order)
  }

  /** The entries for the children of `p` with the keys `order`, one level below d. */
  function Entries(p: seq<nat>, d: nat, order: seq<nat>): (r: seq<Entry>)
    ensures |r| == |order|
  {
    seq(|order|, i requires 0 <= i < |order| => (d + 1, p + [order[i]]))
  }

  class TrieIterator {
    const keys: set<seq<nat>>
    var stack: seq<Entry>

    /** The default constructor: the empty stack, which is `end()`. */
    constructor End(keys: set<seq<nat>>)
      ensures this.keys == keys && stack == []
    {
      this.keys := keys;
      stack := [];
    }

    /** The constructor from a node: that node at depth 0. */
    constructor At(keys: set<seq<nat>>, node: seq<nat>)
      ensures this.keys == keys && stack == [(0, node)]
    {
      this.keys := keys;
      stack := [(0, node)];
    }

    /** `operator*`: the entry on top. */
    function Top(): (e: Entry)
      reads this
      requires stack != []
      ensures e in stack
    {
      stack[|stack| - 1]
    }

    /** `operator==`: an empty stack equals only an empty stack; otherwise the tops are
        compared. */
    predicate Equal(other: TrieIterator)
      reads this, other
    {
      if other.stack == [] then stack == [] else stack != [] && Top() == other.Top()
    }

    /** `operator++`: the top is popped and its children pushed one level deeper, in
        whatever order the hash map of children yields them. */
    method Increment()
      requires stack != [] && PrefixClosed(keys)
      modifies this
      ensures |old(stack)| - 1 <= |stack|
      ensures stack[..|old(stack)| - 1] == old(stack)[..|old(stack)| - 1]
      ensures var top := old(stack)[|old(stack)| - 1];
        ChildrenListed(keys, top.1, top.0, stack[|old(stack)| - 1..])
    {
      var (d, p) := stack[|stack| - 1];
      var rest := stack[..|stack| - 1];
      var ks := ChildKeys(keys, p);
      ghost var all := ks;
      var order: seq<nat> := [];
      while ks != {}
        invariant ks <= all
        invariant forall k :: k in all <==> k in ks || k in order
        invariant forall i, j :: 0 <= i < j < |order| ==> order[i] != order[j]
        invariant forall i :: 0 <= i < |order| ==> order[i] !in ks
        decreases ks
      {
        var k :| k in ks;
        order := order + [k];
        ks := ks - {k};
      }
      stack := rest + Entries(p, d, order);
      assert stack[|rest|..] == Entries(p, d, order);
      EntriesListed(keys, p, d, order);
    }
  }

  /** The entries for a listing of the child keys list the children. */
  lemma EntriesListed(keys: set<seq<nat>>, p: seq<nat>, d: nat, order: seq<nat>)
    requires Lists(order, ChildKeys(keys, p))
    ensures ChildrenListed(keys, p, d, Entries(p, d, order))
  {
    var pushed := Entries(p, d, order);
    forall i | 0 <= i < |pushed|
      ensures pushed[i].1 in Tries.Children(keys, p) && pushed[i].0 == d + 1
    {
      assert order[i] in ChildKeys(keys, p);
      assert (p + [order[i]])[..|p|] == p;
    }
    forall c | c in Tries.Children(keys, p)
      ensures exists i :: 0 <= i < |pushed| && pushed[i].1 == c
    {
      assert c == p + [c[|p|]];
      var i :| 0 <= i < |order| && order[i] == c[|p|];
      assert pushed[i].1 == c;
    }
    forall i, j | 0 <= i < j < |pushed|
      ensures pushed[i].1 != pushed[j].1
    {
      assert pushed[i].1[|p|] == order[i] && pushed[j].1[|p|] == order[j];
    }
  }

  // -----------------------------------------------------------------------------------------
  // What advancing does to the nodes still to visit

  lemma {:induction false} PendingAppend(keys: set<seq<nat>>, a: seq<Entry>, b: seq<Entry>)
    ensures Pending(keys, a + b) == Pending(keys, a) + Pending(keys, b)
    decreases |b|
  {
    if b == [] {
      assert a + b == a;
    } else {
      var b' := b[..|b| - 1];
      assert (a + b)[..|a + b| - 1] == a + b' && (a + b)[|a + b| - 1] == b[|b| - 1];
      PendingAppend(keys, a, b');
    }
  }

  /** A node is still to visit exactly when it lies at or below an entry of the stack. */
  lemma {:induction false} PendingMember(keys: set<seq<nat>>, stack: seq<Entry>, q: seq<nat>)
    ensures q in Pending(keys, stack) <==> q in keys && exists i :: 0 <= i < |stack| && IsPrefixOf(stack[i].1, q)
    decreases |stack|
  {
    if stack != [] {
      var front := stack[..|stack| - 1];
      PendingMember(keys, front, q);
      if exists i :: 0 <= i < |stack| && IsPrefixOf(stack[i].1, q) {
        var i :| 0 <= i < |stack| && IsPrefixOf(stack[i].1, q);
        if i < |front| {
          assert front[i] == stack[i];
        }
      }
      if exists i :: 0 <= i < |front| && IsPrefixOf(front[i].1, q) {
        var i :| 0 <= i < |front| && IsPrefixOf(front[i].1, q);
        assert stack[i] == front[i];
      }
    }
  }

  /** The children of `p`, listed, cover the subtree of `p` without `p` itself. */
  lemma ChildrenPending(keys: set<seq<nat>>, p: seq<nat>, d: nat, pushed: seq<Entry>)
    requires PrefixClosed(keys) && ChildrenListed(keys, p, d, pushed)
    ensures Pending(keys, pushed) == Subtree(keys, p) - {p}
  {
    forall q | q in Pending(keys, pushed)
      ensures q in Subtree(keys, p) && q != p
    {
      PendingMember(keys, pushed, q);
      var i :| 0 <= i < |pushed| && IsPrefixOf(pushed[i].1, q);
      var c := pushed[i].1;
      assert q[..|p|] == q[..|c|][..|p|];
    }
    forall q | q in Subtree(keys, p) && q != p
      ensures q in Pending(keys, pushed)
    {
      PrefixIn(keys, q, |p| + 1);
      var c := q[..|p| + 1];
      assert c[..|p|] == p;
      assert c in Tries.Children(keys, p);
      var i :| 0 <= i < |pushed| && pushed[i].1 == c;
      PendingMember(keys, pushed, q);
    }
  }

  /** Advancing past the top entry visits it: the nodes still to visit lose exactly it. */
  lemma AdvancePending(keys: set<seq<nat>>, stack: seq<Entry>, stack': seq<Entry>)
    requires PrefixClosed(keys) && Shaped(keys, stack) && stack != []
    requires |stack| - 1 <= |stack'| && stack'[..|stack| - 1] == stack[..|stack| - 1]
    requires ChildrenListed(keys, stack[|stack| - 1].1, stack[|stack| - 1].0, stack'[|stack| - 1..])
    ensures Pending(keys, stack') == Pending(keys, stack) - {stack[|stack| - 1].1}
  {
    var (d, p) := stack[|stack| - 1];
    var rest, pushed := stack[..|stack| - 1], stack'[|stack| - 1..];
    assert stack' == rest + pushed;
    var before, subtree := Pending(keys, rest), Subtree(keys, p);
    assert Pending(keys, stack) == before + subtree;
    PendingAppend(keys, rest, pushed);
    ChildrenPending(keys, p, d, pushed);
    assert Pending(keys, stack') == before + (subtree - {p});
    TopNotPending(keys, stack);
    RemoveOutside(before, subtree, p);
  }

  /** Removing an element outside `a` from `a + b` removes it from `b`. */
  lemma RemoveOutside<T>(a: set<T>, b: set<T>, x: T)
    requires x !in a
    ensures (a + b) - {x} == a + (b - {x})
  {
  }

  /** The top entry's node lies in no subtree of the entries below it. */
  lemma TopNotPending(keys: set<seq<nat>>, stack: seq<Entry>)
    requires Shaped(keys, stack) && stack != []
    ensures stack[|stack| - 1].1 !in Pending(keys, stack[..|stack| - 1])
  {
    var rest, p := stack[..|stack| - 1], stack[|stack| - 1].1;
    PendingMember(keys, rest, p);
    forall i | 0 <= i < |rest|
      ensures !IsPrefixOf(rest[i].1, p)
    {
      assert Unrelated(stack[i].1, stack[|stack| - 1].1);
    }
  }

  /** Advancing keeps the stack's shape. */
  lemma AdvanceShaped(keys: set<seq<nat>>, stack: seq<Entry>, stack': seq<Entry>)
    requires Shaped(keys, stack) && stack != []
    requires |stack| - 1 <= |stack'| && stack'[..|stack| - 1] == stack[..|stack| - 1]
    requires ChildrenListed(keys, stack[|stack| - 1].1, stack[|stack| - 1].0, stack'[|stack| - 1..])
    ensures Shaped(keys, stack')
  {
    var (d, p) := stack[|stack| - 1];
    var rest, pushed := stack[..|stack| - 1], stack'[|stack| - 1..];
    assert stack' == rest + pushed;
    forall i | 0 <= i < |stack'|
      ensures stack'[i].1 in keys && stack'[i].0 == |stack'[i].1|
    {
      if i >= |rest| {
        assert stack'[i] == pushed[i - |rest|];
      }
    }
    forall i, j | 0 <= i < j < |stack'|
      ensures Unrelated(stack'[i].1, stack'[j].1)
    {
      if j < |rest| {
        assert stack'[i] == stack[i] && stack'[j] == stack[j];
      } else if i < |rest| {
        assert stack'[i] == stack[i] && stack'[j] == pushed[j - |rest|];
        ChildUnrelated(stack[i].1, p, pushed[j - |rest|].1);
      } else {
        var a, b := pushed[i - |rest|].1, pushed[j - |rest|].1;
        assert |a| == |b| && a != b;
      }
    }
  }

  /** A node unrelated to `p` is unrelated to every child of `p`. */
  lemma ChildUnrelated(r: seq<nat>, p: seq<nat>, c: seq<nat>)
    requires Unrelated(r, p) && |c| == |p| + 1 && c[..|p|] == p
    ensures Unrelated(r, c)
  {
    if |r| <= |p| {
      assert c[..|r|] == p[..|r|];
    }
    if |c| <= |r| {
      assert r[..|p|] == r[..|c|][..|p|];
    }
  }

  /** The nodes of the visited entries. */
  ghost function Paths(visited: seq<Entry>): set<seq<nat>>
  {
    set i | 0 <= i < |visited| :: visited[i].1
  }

  /** Each visited entry is a node other than the root, at its own depth, and none is
      visited twice. */
  ghost predicate Visits(keys: set<seq<nat>>, visited: seq<Entry>)
  {
    && (forall i :: 0 <= i < |visited| ==> visited[i].1 in keys && visited[i].0 == |visited[i].1| >= 1)
    && (forall i, j :: 0 <= i < j < |visited| ==> visited[i].1 != visited[j].1)
  }

  /** The walk so far: what was visited and what is still to visit are the nodes other than
      the root, apart. */
  ghost predicate WalkAt(keys: set<seq<nat>>, visited: seq<Entry>, stack: seq<Entry>)
  {
    && Shaped(keys, stack) && Visits(keys, visited)
    && Paths(visited) !! Pending(keys, stack)
    && Paths(visited) + Pending(keys, stack) == keys - {[]}
  }

  /** Visiting the top and advancing keeps the walk's invariant. */
  lemma WalkStep(keys: set<seq<nat>>, visited: seq<Entry>, stack: seq<Entry>, stack': seq<Entry>)
    requires PrefixClosed(keys) && WalkAt(keys, visited, stack) && stack != []
    requires |stack| - 1 <= |stack'| && stack'[..|stack| - 1] == stack[..|stack| - 1]
    requires ChildrenListed(keys, stack[|stack| - 1].1, stack[|stack| - 1].0, stack'[|stack| - 1..])
    ensures WalkAt(keys, visited + [stack[|stack| - 1]], stack')
    ensures Pending(keys, stack') < Pending(keys, stack)
  {
    var top := stack[|stack| - 1];
    assert top.1 in Pending(keys, stack) by {
      PendingMember(keys, stack, top.1);
      assert IsPrefixOf(stack[|stack| - 1].1, top.1);
    }
    AdvanceShaped(keys, stack, stack');
    AdvancePending(keys, stack, stack');
    VisitsSnoc(keys, visited, top);
  }

  /** Visiting a node not visited yet keeps the visits distinct and adds its path. */
  lemma VisitsSnoc(keys: set<seq<nat>>, visited: seq<Entry>, top: Entry)
    requires Visits(keys, visited) && top.1 !in Paths(visited)
    requires top.1 in keys && top.0 == |top.1| >= 1
    ensures Visits(keys, visited + [top]) && Paths(visited + [top]) == Paths(visited) + {top.1}
  {
    var v := visited + [top];
    assert forall i :: 0 <= i < |visited| ==> v[i] == visited[i];
    assert v[|visited|] == top;
    forall i, j | 0 <= i < j < |v|
      ensures v[i].1 != v[j].1
    {
      if j == |visited| {
        assert v[i].1 in Paths(visited);
      }
    }
  }

  /** A loop from `begin()` to `end()`: every node but the root is visited exactly once,
      with its depth, which is at least 1. */
  method Walk(keys: set<seq<nat>>) returns (visited: seq<Entry>)
    requires PrefixClosed(keys)
    ensures Visits(keys, visited) && Paths(visited) == keys - {[]}
  {
    var it := new TrieIterator.At(keys, []);
    assert Pending(keys, it.stack) == keys by {
      assert it.stack[..0] == [];
      forall q | q in keys
        ensures IsPrefixOf([], q)
      {
        assert q[..0] == [];
      }
    }
    ghost var s0 := it.stack;
    it.Increment();
    AdvanceShaped(keys, s0, it.stack);
    AdvancePending(keys, s0, it.stack);
    var end := new TrieIterator.End(keys);
    visited := [];
    while !it.Equal(end)
      invariant it.keys == keys && end.stack == [] && WalkAt(keys, visited, it.stack)
      decreases Pending(keys, it.stack)
    {
      ghost var before := it.stack;
      visited := visited + [it.Top()];
      it.Increment();
      WalkStep(keys, visited[..|visited| - 1], before, it.stack);
      assert visited[..|visited| - 1] + [before[|before| - 1]] == visited;
    }
    assert it.stack == [];
  }
}
