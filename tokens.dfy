/** Tokenisation: the input is cut into maximal runs of one character class, tried in a
    fixed order, and a character of no class becomes a token of its own. Five scanners
    of the repository do this with different class lists and with or without dropping
    whitespace. `RunEnd`, `TokenEnd` and `Tokens` below are their common specification;
    the scanners over wide strings are in this module, those over UTF-8 bytes in
    `ByteTokens`. */
module Tokens {
  import opened Options
  import opened Utf8

  /** `ischs`: a CJK unified ideograph, U+4E00 to U+9FFF. */
  predicate IsChs(c: nat)
  {
    0x4E00 <= c <= 0x9FFF
  }

  /** `isfwalnum`: a fullwidth Latin letter or digit, Ａ-Ｚ (U+FF21 to U+FF3A),
      ａ-ｚ (U+FF41 to U+FF5A) or ０-９ (U+FF10 to U+FF19). */
  predicate IsFwAlnum(c: nat)
  {
    || 0xFF21 <= c <= 0xFF3A
    || 0xFF41 <= c <= 0xFF5A
    || 0xFF10 <= c <= 0xFF19
  }

  /** A character class: `ischs`, `isfwalnum`, or one of the locale's `iswalnum`,
      `iswspace`, `isalnum` and `isspace`, which the model leaves abstract as the set of
      characters it accepts; `NoSkip` holds for no character (the scanners that keep
      whitespace skip nothing between tokens). */
  datatype Class = Chs | FwAlnum | Locale(chars: set<nat>) | NoSkip

  predicate Holds(p: Class, c: nat)
  {
    match p
    case Chs => IsChs(c)
    case FwAlnum => IsFwAlnum(c)
    case Locale(chars) => c in chars
    case NoSkip => false
  }

  /** The end of the longest run from `i` whose characters are all of class `p`. */
  function RunEnd(cs: seq<nat>, i: nat, p: Class): (j: nat)
    requires i <= |cs|
    ensures i <= j <= |cs|
    decreases |cs| - i
  {
    if i == |cs| || !Holds(p, cs[i]) then i else RunEnd(cs, i + 1, p)
  }

  /** `RunEnd` ends the longest run: every character before it from `i` is of class `p`,
      and the one at it, if any, is not. */
  lemma {:induction false} RunEndIsRun(cs: seq<nat>, i: nat, p: Class)
    requires i <= |cs|
    ensures forall k :: i <= k < RunEnd(cs, i, p) ==> Holds(p, cs[k])
    ensures RunEnd(cs, i, p) < |cs| ==> !Holds(p, cs[RunEnd(cs, i, p)])
    decreases |cs| - i
  {
    if i < |cs| && Holds(p, cs[i]) {
      RunEndIsRun(cs, i + 1, p);
    }
  }

  /** The first class of `classes` that `c` belongs to, if any. */
  function FirstClass(c: nat, classes: seq<Class>): (r: Option<nat>)
    ensures r.Some? ==> r.value < |classes| && Holds(classes[r.value], c)
    ensures r.Some? ==> forall t :: 0 <= t < r.value ==> !Holds(classes[t], c)
    ensures r.None? ==> forall t :: 0 <= t < |classes| ==> !Holds(classes[t], c)
  {
    if classes == [] then None
    else if Holds(classes[0], c) then Some(0)
    else match FirstClass(c, classes[1..])
      case None => None
      case Some(t) => Some(t + 1)
  }

  /** Where the token starting at `i` ends: the scanners try `scan` with each class in
      turn and keep the first run that is not empty; if none is, the token is the one
      character at `i`. */
  function TokenEnd(cs: seq<nat>, i: nat, classes: seq<Class>): (j: nat)
    requires i < |cs|
    ensures i < j <= |cs|
    decreases |classes|
  {
    if classes == [] then i + 1
    else
      var j := RunEnd(cs, i, classes[0]);
      if j > i then j else TokenEnd(cs, i, classes[1..])
  }

  lemma TokenEndCons(cs: seq<nat>, i: nat, p: Class, rest: seq<Class>)
    requires i < |cs|
    ensures TokenEnd(cs, i, [p] + rest) == if RunEnd(cs, i, p) > i then RunEnd(cs, i, p) else TokenEnd(cs, i, rest)
  {
    assert ([p] + rest)[0] == p && ([p] + rest)[1..] == rest;
  }

  /** `[a, b)` is a token of `cs`: the longest run from `a` of the first class `cs[a]`
      belongs to, or `cs[a]` alone when it belongs to none. */
  predicate IsToken(cs: seq<nat>, a: nat, b: nat, classes: seq<Class>)
    requires a < b <= |cs|
  {
    match FirstClass(cs[a], classes)
    case None => b == a + 1
    case Some(t) =>
      && (forall k :: a <= k < b ==> Holds(classes[t], cs[k]))
      && (b == |cs| || !Holds(classes[t], cs[b]))
  }

  /** The token `TokenEnd` finds is the longest run of the first class that holds. */
  lemma {:induction false} TokenEndIsToken(cs: seq<nat>, i: nat, classes: seq<Class>)
    requires i < |cs|
    ensures IsToken(cs, i, TokenEnd(cs, i, classes), classes)
    decreases |classes|
  {
    if classes != [] {
      RunEndIsRun(cs, i, classes[0]);
    }
    if classes != [] && RunEnd(cs, i, classes[0]) == i {
      TokenEndIsToken(cs, i, classes[1..]);
      match FirstClass(cs[i], classes[1..])
      case None =>
      case Some(t) =>
        assert classes[1..][t] == classes[t + 1];
    }
  }

  /** The tokens from `i` as `[start, end)` spans: a token, then the run of `skip` after
      it, then the tokens after that. */
  function Tokens(cs: seq<nat>, i: nat, classes: seq<Class>, skip: Class): (ts: seq<(nat, nat)>)
    requires i <= |cs|
    ensures forall k :: 0 <= k < |ts| ==> i <= ts[k].0 < ts[k].1 <= |cs|
    decreases |cs| - i
  {
    if i == |cs| then []
    else
      var j := TokenEnd(cs, i, classes);
      [(i, j)] + Tokens(cs, RunEnd(cs, j, skip), classes, skip)
  }

  /** The characters of each span. */
  function Words(cs: seq<nat>, ts: seq<(nat, nat)>): (ws: seq<seq<nat>>)
    requires forall k :: 0 <= k < |ts| ==> ts[k].0 <= ts[k].1 <= |cs|
    ensures |ws| == |ts|
  {
    if ts == [] then [] else [cs[ts[0].0..ts[0].1]] + Words(cs, ts[1..])
  }

  /** One token, then the tokens after it. */
  lemma TokensStep(cs: seq<nat>, i: nat, classes: seq<Class>, skip: Class)
    requires i < |cs|
    ensures var j := TokenEnd(cs, i, classes);
      Words(cs, Tokens(cs, i, classes, skip)) == [cs[i..j]] + Words(cs, Tokens(cs, RunEnd(cs, j, skip), classes, skip))
  {
    var j := TokenEnd(cs, i, classes);
    var rest := Tokens(cs, RunEnd(cs, j, skip), classes, skip);
    assert ([(i, j)] + rest)[1..] == rest;
  }

  /** The token texts from `i`, read straight off the input: what a tokenizer yields. */
  function TokenWords(cs: seq<nat>, i: nat, classes: seq<Class>, skip: Class): seq<seq<nat>>
    requires i <= |cs|
    decreases |cs| - i
  {
    if i == |cs| then []
    else
      var j := TokenEnd(cs, i, classes);
      [cs[i..j]] + TokenWords(cs, RunEnd(cs, j, skip), classes, skip)
  }

  /** The texts a tokenizer yields are exactly the characters of the spans `Tokens`
      describes. */
  lemma {:induction false} TokenWordsAreSpans(cs: seq<nat>, i: nat, classes: seq<Class>, skip: Class)
    requires i <= |cs|
    ensures TokenWords(cs, i, classes, skip) == Words(cs, Tokens(cs, i, classes, skip))
    decreases |cs| - i
  {
    if i < |cs| {
      var j := TokenEnd(cs, i, classes);
      TokenWordsAreSpans(cs, RunEnd(cs, j, skip), classes, skip);
      TokensStep(cs, i, classes, skip);
    }
  }

  /** The words one after another. */
  function Concat(ws: seq<seq<nat>>): seq<nat>
  {
    if ws == [] then [] else ws[0] + Concat(ws[1..])
  }

  lemma ConcatCons(w: seq<nat>, ws: seq<seq<nat>>)
    ensures Concat([w] + ws) == w + Concat(ws)
  {
    assert ([w] + ws)[1..] == ws;
  }

  /** The characters of `cs` not of class `p`, in order. */
  function Drop(cs: seq<nat>, p: Class): (r: seq<nat>)
    ensures forall k :: 0 <= k < |r| ==> !Holds(p, r[k])
  {
    if cs == [] then [] else (if Holds(p, cs[0]) then [] else [cs[0]]) + Drop(cs[1..], p)
  }

  /** Every token is a run as `IsToken` describes, the tokens come in order and do not
      overlap, and only characters of class `skip` lie between them. */
  lemma {:induction false} TokensAreRuns(cs: seq<nat>, i: nat, classes: seq<Class>, skip: Class)
    requires i <= |cs|
    ensures var ts := Tokens(cs, i, classes, skip);
      && (forall k :: 0 <= k < |ts| ==> IsToken(cs, ts[k].0, ts[k].1, classes))
      && (forall a, b :: 0 <= a < b < |ts| ==> ts[a].1 <= ts[b].0)
      && (|ts| > 0 ==> ts[0].0 == i)
      && (forall k, m :: 0 <= k < |ts| - 1 && ts[k].1 <= m < ts[k + 1].0 ==> Holds(skip, cs[m]))
    decreases |cs| - i
  {
    if i < |cs| {
      var j := TokenEnd(cs, i, classes);
      var n := RunEnd(cs, j, skip);
      TokenEndIsToken(cs, i, classes);
      RunEndIsRun(cs, j, skip);
      TokensAreRuns(cs, n, classes, skip);
      var ts := Tokens(cs, i, classes, skip);
      var rest := Tokens(cs, n, classes, skip);
      assert ts == [(i, j)] + rest;
      forall k, m | 0 <= k < |ts| - 1 && ts[k].1 <= m < ts[k + 1].0
        ensures Holds(skip, cs[m])
      {
        if k > 0 {
          assert ts[k] == rest[k - 1] && ts[k + 1] == rest[k];
        }
      }
    }
  }

  /** With nothing skipped, the tokens put back together give the input. */
  lemma {:induction false} TokensCover(cs: seq<nat>, i: nat, classes: seq<Class>)
    requires i <= |cs|
    ensures Concat(Words(cs, Tokens(cs, i, classes, NoSkip))) == cs[i..]
    decreases |cs| - i
  {
    if i < |cs| {
      var j := TokenEnd(cs, i, classes);
      assert RunEnd(cs, j, NoSkip) == j;
      TokensCover(cs, j, classes);
      TokensStep(cs, i, classes, NoSkip);
      ConcatCons(cs[i..j], Words(cs, Tokens(cs, j, classes, NoSkip)));
      assert cs[i..] == cs[i..j] + cs[j..];
    }
  }

  /** No class of `classes` shares a character with `space`. */
  ghost predicate Disjoint(classes: seq<Class>, space: Class)
  {
    forall t, c :: 0 <= t < |classes| && Holds(space, c) ==> !Holds(classes[t], c)
  }

  /** Skipping whitespace after every token, and starting past whitespace: when no class
      shares a character with `space`, no token holds whitespace and the tokens put back
      together give the input with its whitespace removed. */
  lemma {:induction false} TokensDropSpace(cs: seq<nat>, i: nat, classes: seq<Class>, space: Class)
    requires i <= |cs| && (i < |cs| ==> !Holds(space, cs[i]))
    requires Disjoint(classes, space)
    ensures Concat(Words(cs, Tokens(cs, i, classes, space))) == Drop(cs[i..], space)
    decreases |cs| - i
  {
    if i < |cs| {
      var j := TokenEnd(cs, i, classes);
      var n := RunEnd(cs, j, space);
      var ws := Words(cs, Tokens(cs, n, classes, space));
      assert Concat(Words(cs, Tokens(cs, i, classes, space))) == cs[i..j] + Concat(ws) by {
        TokensStep(cs, i, classes, space);
        ConcatCons(cs[i..j], ws);
      }
      assert Concat(ws) == Drop(cs[n..], space) by {
        RunEndIsRun(cs, j, space);
        TokensDropSpace(cs, n, classes, space);
      }
      assert Drop(cs[i..], space) == cs[i..j] + Drop(cs[n..], space) by {
        RunEndIsRun(cs, j, space);
        TokenNoSpace(cs, i, classes, space);
        DropGap(cs, i, j, n, space);
      }
    }
  }

  /** Dropping whitespace from a word without any, a run of whitespace, and the rest. */
  lemma DropGap(cs: seq<nat>, i: nat, j: nat, n: nat, space: Class)
    requires i <= j <= n <= |cs|
    requires forall k :: i <= k < j ==> !Holds(space, cs[k])
    requires forall k :: j <= k < n ==> Holds(space, cs[k])
    ensures Drop(cs[i..], space) == cs[i..j] + Drop(cs[n..], space)
  {
    assert Drop(cs[j..], space) == Drop(cs[n..], space) by {
      assert cs[j..] == cs[j..n] + cs[n..];
      DropAppend(cs[j..n], cs[n..], space);
      DropSlice(cs, j, n, space, true);
    }
    assert cs[i..] == cs[i..j] + cs[j..];
    DropAppend(cs[i..j], cs[j..], space);
    DropSlice(cs, i, j, space, false);
  }

  /** A slice all of whose characters are of class `p`, or none of them. */
  lemma DropSlice(cs: seq<nat>, i: nat, j: nat, p: Class, all: bool)
    requires i <= j <= |cs|
    requires forall k :: i <= k < j ==> Holds(p, cs[k]) == all
    ensures Drop(cs[i..j], p) == if all then [] else cs[i..j]
  {
    var w := cs[i..j];
    assert forall k :: 0 <= k < |w| ==> w[k] == cs[i + k];
    if all {
      DropAll(w, p);
    } else {
      DropNone(w, p);
    }
  }

  /** A token that starts on a character other than whitespace holds no whitespace. */
  lemma TokenNoSpace(cs: seq<nat>, i: nat, classes: seq<Class>, space: Class)
    requires i < |cs| && !Holds(space, cs[i])
    requires Disjoint(classes, space)
    ensures forall k :: i <= k < TokenEnd(cs, i, classes) ==> !Holds(space, cs[k])
  {
    TokenEndIsToken(cs, i, classes);
  }

  lemma {:induction false} DropAppend(a: seq<nat>, b: seq<nat>, p: Class)
    ensures Drop(a + b, p) == Drop(a, p) + Drop(b, p)
    decreases |a|
  {
    if a != [] {
      var x := if Holds(p, a[0]) then [] else [a[0]];
      assert (a + b)[0] == a[0] && (a + b)[1..] == a[1..] + b;
      assert Drop(a + b, p) == x + Drop(a[1..] + b, p);
      DropAppend(a[1..], b, p);
      assert Drop(a + b, p) == x + (Drop(a[1..], p) + Drop(b, p));
    } else {
      assert a + b == b;
    }
  }

  lemma {:induction false} DropNone(a: seq<nat>, p: Class)
    requires forall k :: 0 <= k < |a| ==> !Holds(p, a[k])
    ensures Drop(a, p) == a
    decreases |a|
  {
    if a != [] {
      DropNone(a[1..], p);
    }
  }

  lemma {:induction false} DropAll(a: seq<nat>, p: Class)
    requires forall k :: 0 <= k < |a| ==> Holds(p, a[k])
    ensures Drop(a, p) == []
    decreases |a|
  {
    if a != [] {
      DropAll(a[1..], p);
    }
  }

  // -----------------------------------------------------------------------------------------
  // The scanners over wide strings

  /** The classes of include/token_iterator.hpp and include/tokenize_iterator.hpp. */
  function WideClasses(alnum: Class): (r: seq<Class>)
    ensures |r| == 3 && r[0] == Chs && r[1] == FwAlnum && r[2] == alnum
  {
    [Chs, FwAlnum, alnum]
  }

  /** The classes of src/tok.cpp. */
  function TokClasses(alnum: Class): (r: seq<Class>)
    ensures |r| == 2 && r[0] == Chs && r[1] == alnum
  {
    [Chs, alnum]
  }

  /** `token_iterator` of include/token_iterator.hpp, and `tokenize_iterator` of
      include/tokenize_iterator.hpp, which is the same class under another name: the
      wide string, the position `it_` in it, the current token and `has_next_`. */
  class WideTokenizer {
    const text: seq<nat>
    const alnum: Class
    const space: Class
    var it: nat
    var token: seq<nat>
    var hasNext: bool

    predicate Valid()
      reads this
    {
      it <= |text|
    }

    /** The constructor skips leading whitespace and reads the first token. */
    constructor (s: seq<nat>, alnum: Class, space: Class)
      ensures text == s && this.alnum == alnum && this.space == space && Valid()
      ensures var i := RunEnd(s, 0, space);
        && hasNext == (i < |s|)
        && (!hasNext ==> token == [] && it == i)
        && (hasNext ==> var j := TokenEnd(s, i, WideClasses(alnum)); token == s[i..j] && it == RunEnd(s, j, space))
    {
      text := s;
      this.alnum := alnum;
      this.space := space;
      it := 0;
      token := [];
      hasNext := false;
      new;
      Skip(space);
      Next();
    }

    /** `skip(pred)`: moves past the longest run of `pred` characters. */
    method Skip(pred: Class)
      requires Valid()
      modifies `it
      ensures Valid() && it == RunEnd(text, old(it), pred)
    {
      while it != |text| && Holds(pred, text[it])
        invariant old(it) <= it <= |text|
        invariant RunEnd(text, old(it), pred) == RunEnd(text, it, pred)
        decreases |text| - it
      {
        it := it + 1;
      }
    }

    /** `scan(pred)`: skips the run of `pred` characters; if it is not empty, it becomes
        the token and the result is true; otherwise nothing changes. */
    method Scan(pred: Class) returns (scanned: bool)
      requires Valid()
      modifies `it, `token
      ensures Valid() && it == RunEnd(text, old(it), pred)
      ensures scanned == (it > old(it))
      ensures token == if scanned then text[old(it)..it] else old(token)
    {
      var begin := it;
      Skip(pred);
      scanned := begin != it;
      if scanned {
        token := text[begin..it];
      }
    }

    /** `next()`: `has_next_` records whether input remains; if none does the token is
        emptied, otherwise the next token is read and the whitespace after it skipped. */
    method Next()
      requires Valid()
      modifies `it, `token, `hasNext
      ensures Valid()
      ensures hasNext == (old(it) < |text|)
      ensures !hasNext ==> token == [] && it == old(it)
      ensures hasNext ==> var j := TokenEnd(text, old(it), WideClasses(alnum));
        token == text[old(it)..j] && it == RunEnd(text, j, space)
    {
      hasNext := it != |text|;
      if !hasNext {
        token := [];
        return;
      }
      ReadToken();
      Skip(space);
    }

    /** The body of `next()` that reads one token: the first of the wide classes that
        matches, or the single character under the cursor when none does. */
    method ReadToken()
      requires Valid() && it < |text|
      modifies `it, `token
      ensures Valid() && it == TokenEnd(text, old(it), WideClasses(alnum))
      ensures token == text[old(it)..it]
    {
      ghost var i := it;
      assert WideClasses(alnum) == [Chs] + ([FwAlnum] + ([alnum] + []));
      TokenEndCons(text, i, Chs, [FwAlnum] + ([alnum] + []));
      TokenEndCons(text, i, FwAlnum, [alnum] + []);
      TokenEndCons(text, i, alnum, []);
      var scanned := Scan(Chs);
      if !scanned {
        scanned := Scan(FwAlnum);
      }
      if !scanned {
        scanned := Scan(alnum);
      }
      if !scanned {
        token := [text[it]];
        it := it + 1;
      }
    }

    /** `ended()`: the input was used up when `next()` last ran. */
    predicate Ended()
      reads this
    {
      !hasNext
    }

    /** `equal`: only the position and `has_next_` are compared. */
    predicate Equal(other: WideTokenizer)
      reads this, other
    {
      it == other.it && hasNext == other.hasNext
    }
  }

  /** The tokens a `token_iterator` has yet to yield from its state: the current one, if
      `has_next_`, and those after `it_`. */
  function WidePending(s: seq<nat>, it: nat, token: seq<nat>, hasNext: bool, alnum: Class, space: Class): seq<seq<nat>>
    requires it <= |s|
  {
    if hasNext then [token] + TokenWords(s, it, WideClasses(alnum), space) else []
  }

  /** What `next()` does to the tokens still to come: it yields the current one, and the
      iterator moves forward. */
  lemma WideAdvance(s: seq<nat>, done: seq<seq<nat>>, it: nat, token: seq<nat>, alnum: Class, space: Class,
                    it': nat, token': seq<nat>, hasNext': bool)
    requires it <= |s| && it' <= |s|
    requires hasNext' == (it < |s|)
    requires !hasNext' ==> token' == [] && it' == it
    requires hasNext' ==> var j := TokenEnd(s, it, WideClasses(alnum));
      token' == s[it..j] && it' == RunEnd(s, j, space)
    ensures done + WidePending(s, it, token, true, alnum, space)
         == (done + [token]) + WidePending(s, it', token', hasNext', alnum, space)
    ensures hasNext' ==> it < it'
  {
    assert WidePending(s, it, token, true, alnum, space) == [token] + WidePending(s, it', token', hasNext', alnum, space);
  }

  /** Iterating a `token_iterator` over `s` until `ended()`: the tokens of `s` with the
      whitespace before and after each one skipped. */
  method TokenizeWide(s: seq<nat>, alnum: Class, space: Class) returns (tokens: seq<seq<nat>>)
    ensures tokens == TokenWords(s, RunEnd(s, 0, space), WideClasses(alnum), space)
  {
    var t := new WideTokenizer(s, alnum, space);
    ghost var all := TokenWords(s, RunEnd(s, 0, space), WideClasses(alnum), space);
    tokens := [];
    while !t.Ended()
      invariant fresh(t) && t.Valid() && t.text == s && t.alnum == alnum && t.space == space
      invariant all == tokens + WidePending(s, t.it, t.token, t.hasNext, alnum, space)
      decreases if t.hasNext then |s| - t.it + 1 else 0
    {
      ghost var it, token, done := t.it, t.token, tokens;
      tokens := tokens + [t.token];
      t.Next();
      WideAdvance(s, done, it, token, alnum, space, t.it, t.token, t.hasNext);
    }
  }

  /** `TokenIterator` of src/tok.cpp and include/tok.hpp: the wide string, the position
      `begin_`, the current token and `at_end_`. */
  class TokIterator {
    const text: seq<nat>
    const alnum: Class
    const space: Class
    var begin: nat
    var token: seq<nat>
    var atEnd: bool

    predicate Valid()
      reads this
    {
      begin <= |text| && (atEnd ==> begin == |text|)
    }

    /** `TokenIterator(begin, end)`: `at_end_` holds for an empty range; otherwise the
        first token is read. The range is `s[b..]`. */
    constructor At(s: seq<nat>, b: nat, alnum: Class, space: Class)
      requires b <= |s|
      ensures text == s && this.alnum == alnum && this.space == space && Valid()
      ensures b == |s| ==> atEnd && begin == b && token == []
      ensures b < |s| ==> var i := RunEnd(s, b, space);
        && atEnd == (i == |s|)
        && (atEnd ==> token == [] && begin == i)
        && (!atEnd ==> var j := TokenEnd(s, i, TokClasses(alnum)); token == s[i..j] && begin == j)
    {
      text := s;
      this.alnum := alnum;
      this.space := space;
      begin := b;
      token := [];
      atEnd := b == |s|;
      new;
      if !atEnd {
        Increment();
      }
    }

    /** A copy, for postfix `++`. */
    constructor Copy(other: TokIterator)
      ensures text == other.text && alnum == other.alnum && space == other.space
      ensures begin == other.begin && token == other.token && atEnd == other.atEnd
    {
      text := other.text;
      alnum := other.alnum;
      space := other.space;
      begin := other.begin;
      token := other.token;
      atEnd := other.atEnd;
    }

    /** `end()`: the iterator on the empty range at the end, which is at its end. */
    method End() returns (e: TokIterator)
      ensures fresh(e) && e.Valid() && e.text == text && e.begin == |text| && e.atEnd
    {
      e := new TokIterator.At(text, |text|, alnum, space);
    }

    /** `skip(pred)`: moves `begin_` past the longest run of `pred` characters. */
    method Skip(pred: Class)
      requires Valid()
      modifies `begin
      ensures Valid() && begin == RunEnd(text, old(begin), pred)
    {
      while begin != |text| && Holds(pred, text[begin])
        invariant old(begin) <= begin <= |text|
        invariant RunEnd(text, old(begin), pred) == RunEnd(text, begin, pred)
        decreases |text| - begin
      {
        begin := begin + 1;
      }
    }

    /** `scan(pred)`: true exactly when it moved past a run of `pred` characters, which
        is then the token; otherwise neither the position nor the token changes. */
    method Scan(pred: Class) returns (scanned: bool)
      requires Valid()
      modifies `begin, `token
      ensures Valid() && begin == RunEnd(text, old(begin), pred)
      ensures scanned == (begin > old(begin))
      ensures token == if scanned then text[old(begin)..begin] else old(token)
    {
      var start := begin;
      Skip(pred);
      scanned := start != begin;
      if scanned {
        token := text[start..begin];
      }
    }

    /** Prefix `++`: whitespace is skipped first; at the end `at_end_` is set and the
        token emptied, otherwise the next token is read. */
    method Increment()
      requires Valid()
      modifies `begin, `token, `atEnd
      ensures Valid()
      ensures var i := RunEnd(text, old(begin), space);
        if i == |text| then atEnd && token == [] && begin == i
        else atEnd == old(atEnd) && token == text[i..TokenEnd(text, i, TokClasses(alnum))]
             && begin == TokenEnd(text, i, TokClasses(alnum))
    {
      Skip(space);
      if begin == |text| {
        atEnd := true;
        token := [];
        return;
      }
      ghost var i := begin;
      assert !atEnd;
      assert TokClasses(alnum) == [Chs] + ([alnum] + []);
      TokenEndCons(text, i, Chs, [alnum] + []);
      TokenEndCons(text, i, alnum, []);
      var scanned := Scan(Chs);
      if !scanned {
        scanned := Scan(alnum);
      }
      if !scanned {
        token := [text[begin]];
        begin := begin + 1;
      }
    }

    /** Postfix `++`: the iterator as it was before advancing. */
    method PostIncrement() returns (prev: TokIterator)
      requires Valid()
      modifies `begin, `token, `atEnd
      ensures fresh(prev) && prev.text == text
      ensures prev.begin == old(begin) && prev.token == old(token) && prev.atEnd == old(atEnd)
      ensures Valid() && var i := RunEnd(text, old(begin), space);
        if i == |text| then atEnd && token == [] && begin == i
        else atEnd == old(atEnd) && token == text[i..TokenEnd(text, i, TokClasses(alnum))]
             && begin == TokenEnd(text, i, TokClasses(alnum))
    {
      prev := new TokIterator.Copy(this);
      Increment();
    }

    /** `operator==`: only the position and `at_end_` are compared. */
    predicate Equal(other: TokIterator)
      reads this, other
    {
      begin == other.begin && atEnd == other.atEnd
    }
  }

  /** The tokens a `TokenIterator` has yet to yield from its state: none once `at_end_`,
      otherwise the current one and those after `begin_`. */
  function TokPending(s: seq<nat>, begin: nat, token: seq<nat>, atEnd: bool, alnum: Class, space: Class): seq<seq<nat>>
    requires begin <= |s|
  {
    if atEnd then [] else [token] + TokenWords(s, RunEnd(s, begin, space), TokClasses(alnum), space)
  }

  /** What `++` does to the tokens still to come: it yields the current one, and the
      iterator moves forward. */
  lemma TokAdvance(s: seq<nat>, done: seq<seq<nat>>, b: nat, token: seq<nat>, alnum: Class, space: Class,
                   b': nat, token': seq<nat>, atEnd': bool)
    requires b <= |s| && b' <= |s|
    requires var i := RunEnd(s, b, space);
      if i == |s| then atEnd' && token' == [] && b' == i
      else !atEnd' && token' == s[i..TokenEnd(s, i, TokClasses(alnum))] && b' == TokenEnd(s, i, TokClasses(alnum))
    ensures done + TokPending(s, b, token, false, alnum, space)
         == (done + [token]) + TokPending(s, b', token', atEnd', alnum, space)
    ensures !atEnd' ==> b < b'
  {
    assert TokPending(s, b, token, false, alnum, space) == [token] + TokPending(s, b', token', atEnd', alnum, space);
  }

  /** The loop `for (it = TokenIterator(s); it != it.end(); ++it)`: the tokens of `s` with
      the whitespace before each one skipped. */
  method TokenizeTok(s: seq<nat>, alnum: Class, space: Class) returns (tokens: seq<seq<nat>>)
    ensures tokens == TokenWords(s, RunEnd(s, 0, space), TokClasses(alnum), space)
  {
    var t := new TokIterator.At(s, 0, alnum, space);
    var e := t.End();
    ghost var all := TokenWords(s, RunEnd(s, 0, space), TokClasses(alnum), space);
    tokens := [];
    if s == [] {
      return;
    }
    while !t.Equal(e)
      invariant fresh(t) && t.Valid() && t.text == s && t.alnum == alnum && t.space == space
      invariant t != e && e.begin == |s| && e.atEnd
      invariant all == tokens + TokPending(s, t.begin, t.token, t.atEnd, alnum, space)
      decreases if t.atEnd then 0 else |s| - t.begin + 1
    {
      ghost var b, token, done := t.begin, t.token, tokens;
      tokens := tokens + [t.token];
      t.Increment();
      TokAdvance(s, done, b, token, alnum, space, t.begin, t.token, t.atEnd);
    }
  }
}
