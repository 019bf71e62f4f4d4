/** Lexicographic order and common prefixes of term-id sequences.
    Every suffix array of the model is specified with these definitions: suffixes are
    compared with `Less`, a proper prefix sorting first, and the LCP arrays stop
    at the boundary id 0 (`Lcp0`). */
module Lex {

  /** Strict lexicographic order; a proper prefix is smaller than its extensions. */
  predicate Less(a: seq<nat>, b: seq<nat>)
    decreases |a|
  {
    |b| > 0 && (|a| == 0 || a[0] < b[0] || (a[0] == b[0] && Less(a[1..], b[1..])))
  }

  /** `t` is a prefix of `a`. */
  predicate IsPrefix(t: seq<nat>, a: seq<nat>)
  {
    |t| <= |a| && a[..|t|] == t
  }

  /** Length of the common prefix of `a` and `b` that contains no boundary id 0. */
  function Lcp0(a: seq<nat>, b: seq<nat>): (r: nat)
    ensures r <= |a| && r <= |b|
    decreases |a|
  {
    if |a| > 0 && |b| > 0 && a[0] == b[0] && a[0] != 0 then 1 + Lcp0(a[1..], b[1..]) else 0
  }

  /** Length of the plain common prefix of `a` and `b`. */
  function Lcp(a: seq<nat>, b: seq<nat>): (r: nat)
    ensures r <= |a| && r <= |b|
    decreases |a|
  {
    if |a| > 0 && |b| > 0 && a[0] == b[0] then 1 + Lcp(a[1..], b[1..]) else 0
  }

  lemma {:induction false} LessIrreflexive(a: seq<nat>)
    ensures !Less(a, a)
    decreases |a|
  {
    if |a| > 0 { LessIrreflexive(a[1..]); }
  }

  lemma {:induction false} LessTransitive(a: seq<nat>, b: seq<nat>, c: seq<nat>)
    requires Less(a, b) && Less(b, c)
    ensures Less(a, c)
    decreases |a|
  {
    if |a| > 0 && a[0] == b[0] && b[0] == c[0] {
      LessTransitive(a[1..], b[1..], c[1..]);
    }
  }

  lemma LessAsymmetric(a: seq<nat>, b: seq<nat>)
    requires Less(a, b)
    ensures !Less(b, a)
  {
    if Less(b, a) {
      LessTransitive(a, b, a);
      LessIrreflexive(a);
    }
  }

  /** Any two different sequences are ordered one way or the other. */
  lemma {:induction false} LessTotal(a: seq<nat>, b: seq<nat>)
    requires a != b
    ensures Less(a, b) || Less(b, a)
    decreases |a|
  {
    if |a| > 0 && |b| > 0 && a[0] == b[0] {
      assert a == [a[0]] + a[1..] && b == [b[0]] + b[1..];
      LessTotal(a[1..], b[1..]);
    }
  }

  /** The first symbol never decreases along the order. */
  lemma LessHead(a: seq<nat>, b: seq<nat>)
    requires Less(a, b) && |a| > 0
    ensures a[0] <= b[0]
  {
  }

  /** A prefix is never greater than the sequence it starts. */
  lemma {:induction false} PrefixNotGreater(t: seq<nat>, a: seq<nat>)
    requires IsPrefix(t, a)
    ensures !Less(a, t)
    decreases |t|
  {
    if |t| > 0 {
      assert a[1..][..|t| - 1] == t[1..];
      PrefixNotGreater(t[1..], a[1..]);
    }
  }

  /** Common prefixes of `Lcp0`: the first `Lcp0(a, b)` symbols agree and are non-zero,
      and the scan stops there for one of the three reasons. */
  lemma {:induction false} Lcp0Spec(a: seq<nat>, b: seq<nat>)
    ensures forall k :: 0 <= k < Lcp0(a, b) ==> a[k] == b[k] && a[k] != 0
    ensures var l := Lcp0(a, b); l == |a| || l == |b| || a[l] != b[l] || a[l] == 0
    decreases |a|
  {
    if |a| > 0 && |b| > 0 && a[0] == b[0] && a[0] != 0 {
      Lcp0Spec(a[1..], b[1..]);
    }
  }

  /** `Lcp0` is determined by the agreeing, non-zero positions. */
  lemma {:induction false} Lcp0Exact(a: seq<nat>, b: seq<nat>, l: nat)
    requires l <= |a| && l <= |b|
    requires forall k :: 0 <= k < l ==> a[k] == b[k] && a[k] != 0
    requires l == |a| || l == |b| || a[l] != b[l] || a[l] == 0
    ensures Lcp0(a, b) == l
    decreases l
  {
    if l > 0 {
      Lcp0Exact(a[1..], b[1..], l - 1);
    }
  }

  lemma Lcp0Symmetric(a: seq<nat>, b: seq<nat>)
    ensures Lcp0(a, b) == Lcp0(b, a)
  {
    Lcp0Spec(a, b);
    Lcp0Exact(b, a, Lcp0(a, b));
  }

  /** Plain common prefix: the first `Lcp(a, b)` symbols agree and the next one does not. */
  lemma {:induction false} LcpSpec(a: seq<nat>, b: seq<nat>)
    ensures forall k :: 0 <= k < Lcp(a, b) ==> a[k] == b[k]
    ensures var l := Lcp(a, b); l == |a| || l == |b| || a[l] != b[l]
    decreases |a|
  {
    if |a| > 0 && |b| > 0 && a[0] == b[0] {
      LcpSpec(a[1..], b[1..]);
    }
  }

  lemma {:induction false} LcpExact(a: seq<nat>, b: seq<nat>, l: nat)
    requires l <= |a| && l <= |b|
    requires forall k :: 0 <= k < l ==> a[k] == b[k]
    requires l == |a| || l == |b| || a[l] != b[l]
    ensures Lcp(a, b) == l
    decreases l
  {
    if l > 0 {
      LcpExact(a[1..], b[1..], l - 1);
    }
  }

  /** `t` is a prefix of `a` exactly when their plain common prefix covers `t`. */
  lemma LcpPrefix(t: seq<nat>, a: seq<nat>)
    ensures IsPrefix(t, a) <==> Lcp(t, a) == |t|
  {
    LcpSpec(t, a);
    if IsPrefix(t, a) {
      LcpExact(t, a, |t|);
    }
  }

  /** Order decided by the first difference after a common prefix. */
  lemma {:induction false} LessAtMismatch(a: seq<nat>, b: seq<nat>, l: nat)
    requires l <= |a| && l <= |b|
    requires forall k :: 0 <= k < l ==> a[k] == b[k]
    ensures l < |a| && l < |b| && a[l] < b[l] ==> Less(a, b)
    ensures l == |a| && l < |b| ==> Less(a, b)
    ensures l < |a| && l < |b| && a[l] > b[l] ==> Less(b, a)
    ensures l < |a| && l == |b| ==> Less(b, a)
    decreases l
  {
    if l > 0 {
      LessAtMismatch(a[1..], b[1..], l - 1);
    }
  }

  /** Kasai's step: dropping the shared first symbol keeps the order and shortens the
      boundary-free common prefix by one. */
  lemma Lcp0Shift(a: seq<nat>, b: seq<nat>)
    requires Lcp0(a, b) > 0
    ensures Lcp0(a[1..], b[1..]) == Lcp0(a, b) - 1
    ensures Less(b, a) ==> Less(b[1..], a[1..])
  {
  }

  /** Sandwich: a sequence between `x` and `z` shares at least their common prefix with `z`. */
  lemma {:induction false} Lcp0Sandwich(x: seq<nat>, y: seq<nat>, z: seq<nat>)
    requires Less(x, y) && Less(y, z)
    ensures Lcp0(z, x) <= Lcp0(z, y)
    decreases |x|
  {
    if Lcp0(z, x) > 0 {
      LessHead(x, y);
      LessHead(y, z);
      assert x[0] == y[0] == z[0];
      Lcp0Sandwich(x[1..], y[1..], z[1..]);
    }
  }
}
