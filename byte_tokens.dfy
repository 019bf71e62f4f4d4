/** The two tokenizers over UTF-8 bytes. The one of src/token_iterator.hpp reads code
    points through the `utf8_decode_iterator` of src/utf8_decode_iterator.hpp
    (`Utf8Reader`); the one of include/esapp/internal/token_iterator.hpp through that of
    include/esapp/internal/utf8_decode_iterator.hpp (`Utf8Cursor`). Both keep whitespace
    runs as tokens and skip nothing between tokens. Each ties the decoder's state to an
    index `m` into the code points `DecodeFrom(s, 0)` decodes from the whole input: the
    decoder stands on code point `m`. */
module ByteTokens {
  import opened Options
  import opened Utf8
  import opened Tokens

  /** The classes tried, in order: `ischs`, `isfwalnum`, `iswalnum` and `iswspace`. */
  function ByteClasses(alnum: Class, space: Class): (r: seq<Class>)
    ensures |r| == 4 && r[0] == Chs && r[1] == FwAlnum && r[2] == alnum && r[3] == space
  {
    [Chs, FwAlnum, alnum, space]
  }

  /** Decoding resumed at the end of the `k`-th code point gives the rest of the code
      points, their ends and the same error. */
  lemma {:induction false} DecodeFromDrop(s: seq<byte>, i: nat, k: nat)
    requires i <= |s| && k < |DecodeFrom(s, i).cps|
    ensures var d := DecodeFrom(s, i);
      && i < d.ends[k] <= |s|
      && DecodeFrom(s, d.ends[k]) == Decoding(d.cps[k + 1..], d.ends[k + 1..], d.error)
    decreases k
  {
    var d := DecodeFrom(s, i);
    if i < |s| {
      match DecodeAt(s, i)
      case Char(cp, e) =>
        var rest := DecodeFrom(s, e);
        assert d.cps == [cp] + rest.cps && d.ends == [e] + rest.ends && d.error == rest.error;
        if k > 0 {
          DecodeFromDrop(s, e, k - 1);
          assert d.cps[k + 1..] == rest.cps[k..];
          assert d.ends[k + 1..] == rest.ends[k..];
        }
      case Fail(_, _) =>
    }
  }

  /** Steps the decoder takes from code point `k` to code point `k + 1` of the input. */
  lemma DecodeFromNext(s: seq<byte>, k: nat)
    requires k < |DecodeFrom(s, 0).cps|
    ensures var d := DecodeFrom(s, 0);
      && 0 < d.ends[k] <= |s|
      && (d.ends[k] == |s| ==> k + 1 == |d.cps| && d.error.None?)
      && (d.ends[k] < |s| ==> var r := DecodeAt(s, d.ends[k]);
            if r.Char? then k + 1 < |d.cps| && d.cps[k + 1] == r.cp && d.ends[k + 1] == r.end
            else k + 1 == |d.cps| && d.error == Some(r.error))
  {
    DecodeFromDrop(s, 0, k);
  }

  /** The code points `DecodeFrom(s, 0)` starts with. */
  lemma DecodeFromStart(s: seq<byte>)
    ensures var d := DecodeFrom(s, 0);
      && (s == [] ==> d == Decoding([], [], None))
      && (s != [] ==> var r := DecodeAt(s, 0);
            if r.Char? then 0 < |d.cps| && d.cps[0] == r.cp && d.ends[0] == r.end
            else d.cps == [] && d.error == Some(r.error))
  {
  }

  // -----------------------------------------------------------------------------------------
  // The reader of src/utf8_decode_iterator.hpp, seen as a stream

  /** What the reader yields from `s`: the decoded code points, without a last U+0000 when
      decoding did not fail. */
  function ReaderStream(s: seq<byte>): seq<nat>
  {
    Trim(DecodeFrom(s, 0).cps, DecodeFrom(s, 0).error)
  }

  /** The stream is the decoded code points, all of them when decoding failed. */
  lemma ReaderStreamPrefix(s: seq<byte>)
    ensures var d := DecodeFrom(s, 0); var ts := ReaderStream(s);
      && |ts| <= |d.cps| && ts == d.cps[..|ts|]
      && (d.error.Some? ==> ts == d.cps)
      && (|ts| < |d.cps| ==> |ts| == |d.cps| - 1 && d.cps[|ts|] == 0)
  {
  }

  /** The reader (`pos`, `ch`) stands on code point `m` of `s`, just past its last byte,
      or is exhausted with `char_` 0. */
  ghost predicate ReaderAt(s: seq<byte>, m: nat, pos: nat, ch: nat)
  {
    var d := DecodeFrom(s, 0);
    && m <= |d.cps|
    && (m < |d.cps| ==> ch == d.cps[m] && pos == d.ends[m])
    && (m == |d.cps| ==> d.error.None? && pos == |s| && ch == 0)
  }

  /** The reader's `valid()` holds exactly while code points of the stream remain, and
      `char_` is then the current one. */
  lemma ReaderMore(s: seq<byte>, m: nat, pos: nat, ch: nat)
    requires ReaderAt(s, m, pos, ch)
    ensures pos <= |s|
    ensures (pos < |s| || ch != 0) <==> m < |ReaderStream(s)|
    ensures m < |ReaderStream(s)| ==> ch == ReaderStream(s)[m] && pos == DecodeFrom(s, 0).ends[m]
  {
    var d := DecodeFrom(s, 0);
    if m < |d.cps| {
      DecodeFromDrop(s, 0, m);
      if pos < |s| {
        assert DecodeFrom(s, pos).cps != [] || DecodeFrom(s, pos).error.Some?;
      }
    }
  }

  /** Where `next()` takes a reader that stands on code point `m`. */
  lemma ReaderStep(s: seq<byte>, m: nat, pos: nat, ch: nat)
    requires ReaderAt(s, m, pos, ch) && m < |DecodeFrom(s, 0).cps|
    ensures var d := DecodeFrom(s, 0);
      && pos <= |s|
      && (pos == |s| ==> m + 1 == |d.cps| && d.error.None? && ReaderAt(s, m + 1, |s|, 0))
      && (pos < |s| ==> var r := DecodeAt(s, pos);
            if r.Char? then m + 1 < |d.cps| && ReaderAt(s, m + 1, r.end, r.cp)
            else m + 1 == |d.cps| && d.error == Some(r.error))
  {
    DecodeFromNext(s, m);
  }

  /** The reader the constructor leaves on `s`. */
  lemma ReaderStart(s: seq<byte>)
    ensures s == [] ==> ReaderAt(s, 0, 0, 0)
    ensures s != [] ==> var r := DecodeAt(s, 0);
      if r.Char? then ReaderAt(s, 0, r.end, r.cp)
      else DecodeFrom(s, 0).error == Some(r.error) && ReaderStream(s) == []
  {
    DecodeFromStart(s);
  }

  /** What `next()` does to a reader on code point `m` of the stream: it moves to code
      point `m + 1`, or fails when `m` is the last good one. `pos'`, `ch'` and `err` are
      what the reader's `next()` leaves. */
  lemma ReaderAdvance(s: seq<byte>, m: nat, pos: nat, ch: nat, pos': nat, ch': nat, err: Option<DecodeError>)
    requires ReaderAt(s, m, pos, ch) && m < |ReaderStream(s)|
    requires pos == |s| ==> err == None && pos' == |s| && ch' == 0
    requires pos < |s| ==> match DecodeAt(s, pos)
      case Char(c, e) => err == None && pos' == e && ch' == c
      case Fail(x, at) => err == Some(x)
    ensures var ts := ReaderStream(s);
      err.None? ==>
        && ReaderAt(s, m + 1, pos', ch') && m + 1 <= |ts|
        && (DecodeFrom(s, 0).error.Some? ==> m + 1 < |ts|)
    ensures err.Some? ==> err == DecodeFrom(s, 0).error && m + 1 == |ReaderStream(s)|
  {
    ReaderStep(s, m, pos, ch);
  }

  /** One more code point of class `pred` extends the run from `m0`. */
  lemma RunStep(ts: seq<nat>, pred: Class, m0: nat, m: nat, run: seq<nat>)
    requires m0 <= m < |ts| && Holds(pred, ts[m])
    requires RunEnd(ts, m0, pred) == RunEnd(ts, m, pred) && run == ts[m0..m]
    ensures RunEnd(ts, m0, pred) == RunEnd(ts, m + 1, pred)
    ensures run + [ts[m]] == ts[m0..m + 1]
  {
    assert ts[m0..m + 1] == ts[m0..m] + [ts[m]];
  }

  /** The last element of `xs` left out. */
  function DropLast<T>(xs: seq<T>): (r: seq<T>)
    ensures xs != [] ==> xs == r + [xs[|xs| - 1]]
    ensures xs == [] ==> r == []
  {
    if xs == [] then [] else xs[..|xs| - 1]
  }

  /** Every token is non-empty and, put back together, the tokens give the stream. */
  lemma ByteTokensCover(ts: seq<nat>, alnum: Class, space: Class)
    ensures Concat(TokenWords(ts, 0, ByteClasses(alnum, space), NoSkip)) == ts
  {
    TokenWordsAreSpans(ts, 0, ByteClasses(alnum, space), NoSkip);
    TokensCover(ts, 0, ByteClasses(alnum, space));
  }

  /** With nothing skipped, a token is followed directly by the next one. */
  lemma TokenWordsStep(ts: seq<nat>, i: nat, classes: seq<Class>)
    requires i < |ts|
    ensures var j := TokenEnd(ts, i, classes);
      TokenWords(ts, i, classes, NoSkip) == [ts[i..j]] + TokenWords(ts, j, classes, NoSkip)
  {
    var j := TokenEnd(ts, i, classes);
    assert RunEnd(ts, j, NoSkip) == j;
  }

  /** The state `next()` leaves, from code point `m0` of the stream on: at the end of the
      stream an empty token and nothing else changed; otherwise the token that starts at
      `m0`, with the reader on the code point after it and `it_` at its last code point's
      end, or, when decoding fails past the token's last code point, that error. */
  ghost predicate ReadToken(s: seq<byte>, classes: seq<Class>, m0: nat, m: nat, token: seq<nat>,
                            it0: nat, it: nat, err: Option<DecodeError>)
    requires m0 <= |ReaderStream(s)|
  {
    var ts := ReaderStream(s);
    if err.Some? then err == DecodeFrom(s, 0).error && (m0 == |ts| || TokenEnd(ts, m0, classes) == |ts|)
    else if m0 == |ts| then token == [] && m == m0 && it == it0
    else
      var j := TokenEnd(ts, m0, classes);
      m == j && token == ts[m0..j] && it == DecodeFrom(s, 0).ends[j - 1]
  }

  /** `next()` falling back to the single current code point reads the token at `m0`. */
  lemma ByteSingle(s: seq<byte>, m0: nat, m: nat, token: seq<nat>, it0: nat, it: nat, err: Option<DecodeError>)
    requires m0 < |ReaderStream(s)| && token == [ReaderStream(s)[m0]] && it == DecodeFrom(s, 0).ends[m0]
    requires err.None? ==> m == m0 + 1
    requires err.Some? ==> err == DecodeFrom(s, 0).error && m0 + 1 == |ReaderStream(s)|
    ensures ReadToken(s, [], m0, m, token, it0, it, err)
  {
    assert ReaderStream(s)[m0..m0 + 1] == [ReaderStream(s)[m0]];
  }

  /** A `scan` of the first class that moves the reader, or fails, settles `next()`. */
  lemma ByteScanned(s: seq<byte>, classes: seq<Class>, m0: nat, m: nat, token: seq<nat>, it0: nat, it: nat,
                    scanned: bool, err: Option<DecodeError>)
    requires classes != [] && m0 < |ReaderStream(s)|
    requires var ts := ReaderStream(s); var j := RunEnd(ts, m0, classes[0]);
      if err.None? then m == j && scanned == (j > m0) && (scanned ==> token == ts[m0..j] && it == DecodeFrom(s, 0).ends[j - 1])
      else err == DecodeFrom(s, 0).error && j == |ts| && m0 < j
    requires err.Some? || scanned
    ensures ReadToken(s, classes, m0, m, token, it0, it, err)
  {
  }

  /** A `scan` of the first class that does not move the reader leaves `next()` to the
      other classes. */
  lemma BytePassed(s: seq<byte>, classes: seq<Class>, m0: nat, m: nat, token: seq<nat>, it0: nat, it: nat, err: Option<DecodeError>)
    requires classes != [] && m0 < |ReaderStream(s)| && RunEnd(ReaderStream(s), m0, classes[0]) == m0
    requires ReadToken(s, classes[1..], m0, m, token, it0, it, err)
    ensures ReadToken(s, classes, m0, m, token, it0, it, err)
  {
  }

  /** `token_iterator` of src/token_iterator.hpp: the reader it wraps, the current token
      and `it_`, the byte position just past the token's last code point. `m` is the
      code point of the stream the reader stands on. */
  class ByteTokenizer {
    const text: seq<byte>
    const alnum: Class
    const space: Class
    const reader: Utf8Reader
    var token: seq<nat>
    var it: nat
    ghost var m: nat

    ghost predicate Valid()
      reads this, reader
    {
      && reader.bytes == text && reader.Valid()
      && ReaderAt(text, m, reader.pos, reader.ch) && m <= |ReaderStream(text)|
      && (DecodeFrom(text, 0).error.Some? ==> m < |ReaderStream(text)|)
    }

    /** `valid()`: the reader is valid or the token is not empty. */
    predicate More()
      reads this, reader
    {
      reader.More() || token != []
    }

    constructor Over(s: seq<byte>, r: Utf8Reader, alnum: Class, space: Class)
      ensures text == s && reader == r && this.alnum == alnum && this.space == space
      ensures token == [] && it == 0 && m == 0
    {
      text := s;
      reader := r;
      this.alnum := alnum;
      this.space := space;
      token := [];
      it := 0;
      m := 0;
    }

    /** The constructor: the reader is built on `s`, which decodes the first code point
        and may throw, and the first token is read. */
    static method Open(s: seq<byte>, alnum: Class, space: Class) returns (t: ByteTokenizer, err: Option<DecodeError>)
      ensures fresh(t) && fresh(t.reader) && t.text == s && t.alnum == alnum && t.space == space
      ensures err.None? ==> t.Valid()
      ensures ReadToken(s, ByteClasses(alnum, space), 0, t.m, t.token, 0, t.it, err)
    {
      var r;
      r, err := Utf8Reader.Open(s);
      t := new ByteTokenizer.Over(s, r, alnum, space);
      ReaderStart(s);
      if err.Some? {
        return;
      }
      ReaderMore(s, 0, r.pos, r.ch);
      err := t.Next();
    }

    /** `skip(pred)`: while the reader is valid and its code point is of class `pred`,
        `it_` takes the reader's position and the reader moves on. The code points passed
        are returned, as `scan` reads them back from its copy of the reader. */
    method Skip(pred: Class) returns (run: seq<nat>, err: Option<DecodeError>)
      requires Valid()
      modifies `it, `m, reader
      ensures var ts := ReaderStream(text); var j := RunEnd(ts, old(m), pred);
        if err.None? then
          && Valid() && m == j && run == ts[old(m)..j]
          && it == (if j == old(m) then old(it) else DecodeFrom(text, 0).ends[j - 1])
        else err == DecodeFrom(text, 0).error && j == |ts| && old(m) < j
    {
      run := [];
      err := None;
      ghost var ts := ReaderStream(text);
      ghost var m0 := m;
      ReaderMore(text, m, reader.pos, reader.ch);
      while reader.More() && Holds(pred, reader.ch)
        invariant Valid() && m0 <= m && err.None?
        invariant RunEnd(ts, m0, pred) == RunEnd(ts, m, pred)
        invariant run == ts[m0..m]
        invariant it == if m == m0 then old(it) else DecodeFrom(text, 0).ends[m - 1]
        invariant reader.More() <==> m < |ts|
        invariant m < |ts| ==> reader.ch == ts[m] && reader.pos == DecodeFrom(text, 0).ends[m]
        decreases |ts| - m
      {
        run, err := SkipOne(pred, m0, run);
        if err.Some? {
          return;
        }
      }
    }

    /** One turn of `skip`'s loop: `it_` takes the reader's position, the code point is
        kept and the reader moves on. */
    method SkipOne(pred: Class, ghost m0: nat, run: seq<nat>) returns (run': seq<nat>, err: Option<DecodeError>)
      requires Valid() && m0 <= m < |ReaderStream(text)|
      requires reader.ch == ReaderStream(text)[m] && reader.pos == DecodeFrom(text, 0).ends[m]
      requires Holds(pred, reader.ch)
      requires RunEnd(ReaderStream(text), m0, pred) == RunEnd(ReaderStream(text), m, pred)
      requires run == ReaderStream(text)[m0..m]
      modifies `it, `m, reader
      ensures var ts := ReaderStream(text);
        if err.None? then
          && Valid() && m0 <= m && m == old(m) + 1
          && RunEnd(ts, m0, pred) == RunEnd(ts, m, pred)
          && run' == ts[m0..m]
          && it == DecodeFrom(text, 0).ends[m - 1]
          && (reader.More() <==> m < |ts|)
          && (m < |ts| ==> reader.ch == ts[m] && reader.pos == DecodeFrom(text, 0).ends[m])
        else err == DecodeFrom(text, 0).error && RunEnd(ts, m0, pred) == |ts| && m0 < |ts|
    {
      RunStep(ReaderStream(text), pred, m0, m, run);
      it := reader.pos;
      run' := run + [reader.ch];
      err := Step();
    }

    /** The nested generator's `next()`: the reader moves on to the next code point,
        which may throw. */
    method Step() returns (err: Option<DecodeError>)
      requires Valid() && m < |ReaderStream(text)|
      modifies `m, reader
      ensures var ts := ReaderStream(text);
        if err.None? then
          && Valid() && m == old(m) + 1
          && (reader.More() <==> m < |ts|)
          && (m < |ts| ==> reader.ch == ts[m] && reader.pos == DecodeFrom(text, 0).ends[m])
        else err == DecodeFrom(text, 0).error && old(m) + 1 == |ts|
    {
      ghost var pos, ch := reader.pos, reader.ch;
      err := reader.Next();
      ReaderAdvance(text, m, pos, ch, reader.pos, reader.ch, err);
      if err.None? {
        m := m + 1;
        ReaderMore(text, m, reader.pos, reader.ch);
      }
    }

    /** `scan(pred)`: true exactly when the reader moved past a run of class `pred`, which
        then becomes the token; otherwise nothing changes. */
    method Scan(pred: Class) returns (scanned: bool, err: Option<DecodeError>)
      requires Valid()
      modifies `it, `m, `token, reader
      ensures var ts := ReaderStream(text); var j := RunEnd(ts, old(m), pred);
        if err.None? then
          && Valid() && m == j && scanned == (j > old(m))
          && token == (if scanned then ts[old(m)..j] else old(token))
          && it == (if scanned then DecodeFrom(text, 0).ends[j - 1] else old(it))
        else err == DecodeFrom(text, 0).error && j == |ts| && old(m) < j
    {
      var run;
      run, err := Skip(pred);
      scanned := run != [];
      if err.None? && scanned {
        token := run;
      }
    }

    /** `next()`: an invalid reader empties the token; otherwise the token is the run of
        CJK characters, else of fullwidth alphanumerics, else of `iswalnum`, else of
        `iswspace` characters, else the single current code point. */
    method Next() returns (err: Option<DecodeError>)
      requires Valid()
      modifies `it, `m, `token, reader
      ensures err.None? ==> Valid()
      ensures ReadToken(text, ByteClasses(alnum, space), old(m), m, token, old(it), it, err)
    {
      ReaderMore(text, m, reader.pos, reader.ch);
      if !reader.More() {
        token := [];
        return None;
      }
      err := ScanFirst(ByteClasses(alnum, space));
    }

    /** The chain `scan(p0) || scan(p1) || ...` of `next()` over `classes`, which falls
        back to the single current code point when no scan moves the reader. */
    method ScanFirst(classes: seq<Class>) returns (err: Option<DecodeError>)
      requires Valid() && m < |ReaderStream(text)|
      requires reader.ch == ReaderStream(text)[m] && reader.pos == DecodeFrom(text, 0).ends[m]
      modifies `it, `m, `token, reader
      ensures err.None? ==> Valid()
      ensures ReadToken(text, classes, old(m), m, token, old(it), it, err)
      decreases |classes|
    {
      ghost var m0, it0 := m, it;
      if classes == [] {
        token := [reader.ch];
        it := reader.pos;
        err := Step();
        ByteSingle(text, m0, m, token, it0, it, err);
        return;
      }
      var scanned;
      scanned, err := Scan(classes[0]);
      if err.Some? || scanned {
        ByteScanned(text, classes, m0, m, token, it0, it, scanned, err);
        return;
      }
      err := ScanFirst(classes[1..]);
      BytePassed(text, classes, m0, m, token, it0, it, err);
    }

    /** One turn of the loop `for (token_iterator t(s); t; ++t)`: the token and its
        `position()` are collected, then `++` runs. */
    method Yield(ghost words: seq<seq<nat>>, ghost allStops: seq<nat>, tokens: seq<seq<nat>>, stops: seq<nat>)
      returns (tokens': seq<seq<nat>>, stops': seq<nat>, err: Option<DecodeError>)
      requires Valid() && token != []
      requires words == tokens + Unread(ReaderStream(text), ByteClasses(alnum, space), m, token)
      requires allStops == stops + UnreadStops(text, ByteClasses(alnum, space), m, token, it)
      modifies `it, `m, `token, reader
      ensures err.Some? ==> err == DecodeFrom(text, 0).error && DropLast(words) == tokens' && DropLast(allStops) == stops'
      ensures err.None? ==>
        && Valid() && (token == [] ==> m == |ReaderStream(text)|)
        && words == tokens' + Unread(ReaderStream(text), ByteClasses(alnum, space), m, token)
        && allStops == stops' + UnreadStops(text, ByteClasses(alnum, space), m, token, it)
        && 2 * (|ReaderStream(text)| - m) + (if token == [] then 0 else 1) < 2 * (|ReaderStream(text)| - old(m)) + 1
    {
      ghost var classes := ByteClasses(alnum, space);
      ghost var m0, token0, it0 := m, token, it;
      tokens' := tokens + [token];
      stops' := stops + [it];
      err := Next();
      if err.Some? {
        WordsFail(ReaderStream(text), classes, tokens, m0, token0);
        StopsFail(text, classes, stops, m0, token0, it0);
        return;
      }
      WordsAdvance(ReaderStream(text), classes, tokens, m0, token0, m, token);
      StopsAdvance(text, classes, stops, m0, token0, it0, m, token, it);
    }

    /** The rest of the loop `for (token_iterator t(s); t; ++t)`: while the tokenizer is
        valid, its token and position are collected and `++` runs. The tokens not yet read
        are all collected, or all but the last when decoding fails. */
    method Drain(ghost words: seq<seq<nat>>, ghost allStops: seq<nat>, tokens0: seq<seq<nat>>, stops0: seq<nat>)
      returns (tokens: seq<seq<nat>>, stops: seq<nat>, err: Option<DecodeError>)
      requires Valid() && (token == [] ==> m == |ReaderStream(text)|)
      requires words == tokens0 + Unread(ReaderStream(text), ByteClasses(alnum, space), m, token)
      requires allStops == stops0 + UnreadStops(text, ByteClasses(alnum, space), m, token, it)
      modifies this, reader
      ensures err == DecodeFrom(text, 0).error
      ensures tokens == if err.None? then words else DropLast(words)
      ensures stops == if err.None? then allStops else DropLast(allStops)
    {
      tokens, stops, err := tokens0, stops0, None;
      while More()
        invariant err.None? && Valid() && (token == [] ==> m == |ReaderStream(text)|)
        invariant words == tokens + Unread(ReaderStream(text), ByteClasses(alnum, space), m, token)
        invariant allStops == stops + UnreadStops(text, ByteClasses(alnum, space), m, token, it)
        decreases 2 * (|ReaderStream(text)| - m) + (if token == [] then 0 else 1)
      {
        ReaderMore(text, m, reader.pos, reader.ch);
        tokens, stops, err := Yield(words, allStops, tokens, stops);
        if err.Some? {
          return;
        }
      }
    }

    /** `position()`: `it_`. */
    function Position(): nat
      reads this
    {
      it
    }
  }

  // -----------------------------------------------------------------------------------------
  // Reading every token of a string

  /** The tokens of the stream `ts` a tokenizer on code point `m` with current token
      `token` has still to yield, the current one first. */
  function Unread(ts: seq<nat>, classes: seq<Class>, m: nat, token: seq<nat>): seq<seq<nat>>
    requires m <= |ts|
  {
    if token == [] then [] else [token] + TokenWords(ts, m, classes, NoSkip)
  }

  /** `++` on a tokenizer that holds a token: the token is yielded and the next state has
      the rest to yield. `m'` and `token'` are where reading the next token leaves it. */
  lemma WordsAdvance(ts: seq<nat>, classes: seq<Class>, done: seq<seq<nat>>, m: nat, token: seq<nat>, m': nat, token': seq<nat>)
    requires m <= |ts| && token != []
    requires m == |ts| ==> token' == [] && m' == m
    requires m < |ts| ==> m' == TokenEnd(ts, m, classes) && token' == ts[m..m']
    ensures m' <= |ts| && (token' == [] ==> m' == |ts|)
    ensures done + Unread(ts, classes, m, token) == (done + [token]) + Unread(ts, classes, m', token')
    ensures 2 * (|ts| - m') + (if token' == [] then 0 else 1) < 2 * (|ts| - m) + 1
  {
    if m < |ts| {
      TokenWordsStep(ts, m, classes);
    }
    assert Unread(ts, classes, m, token) == [token] + Unread(ts, classes, m', token');
  }

  /** When reading the token after `token` fails, that token was the last one. */
  lemma WordsFail(ts: seq<nat>, classes: seq<Class>, done: seq<seq<nat>>, m: nat, token: seq<nat>)
    requires m < |ts| && token != [] && TokenEnd(ts, m, classes) == |ts|
    ensures DropLast(done + Unread(ts, classes, m, token)) == done + [token]
  {
    TokenWordsStep(ts, m, classes);
    assert TokenWords(ts, |ts|, classes, NoSkip) == [];
    assert done + Unread(ts, classes, m, token) == (done + [token]) + [ts[m..|ts|]];
  }

  /** A stream has no token, or one when its first token reaches its end. */
  lemma WordsAtMostOne(ts: seq<nat>, classes: seq<Class>)
    requires ts == [] || TokenEnd(ts, 0, classes) == |ts|
    ensures DropLast(TokenWords(ts, 0, classes, NoSkip)) == []
  {
    if ts != [] {
      TokenWordsStep(ts, 0, classes);
      assert TokenWords(ts, |ts|, classes, NoSkip) == [];
    }
  }

  /** The `position()` of each token from code point `i` on: the end of its last code
      point. */
  function TokenStops(cs: seq<nat>, ends: seq<nat>, i: nat, classes: seq<Class>): seq<nat>
    requires i <= |cs| <= |ends|
    decreases |cs| - i
  {
    if i == |cs| then []
    else
      var j := TokenEnd(cs, i, classes);
      [ends[j - 1]] + TokenStops(cs, ends, j, classes)
  }

  /** One stop per token, at the end of the token's last code point. */
  lemma {:induction false} TokenStopsAreEnds(cs: seq<nat>, ends: seq<nat>, i: nat, classes: seq<Class>)
    requires i <= |cs| <= |ends|
    ensures var spans := Tokens.Tokens(cs, i, classes, NoSkip); var st := TokenStops(cs, ends, i, classes);
      |st| == |spans| && forall k :: 0 <= k < |st| ==> st[k] == ends[spans[k].1 - 1]
    decreases |cs| - i
  {
    if i < |cs| {
      var j := TokenEnd(cs, i, classes);
      assert RunEnd(cs, j, NoSkip) == j;
      TokenStopsAreEnds(cs, ends, j, classes);
      var spans, rest := Tokens.Tokens(cs, i, classes, NoSkip), Tokens.Tokens(cs, j, classes, NoSkip);
      var st, restStops := TokenStops(cs, ends, i, classes), TokenStops(cs, ends, j, classes);
      assert spans == [(i, j)] + rest;
      assert st == [ends[j - 1]] + restStops;
      forall k | 0 <= k < |st|
        ensures st[k] == ends[spans[k].1 - 1]
      {
        if k > 0 {
          assert st[k] == restStops[k - 1] && spans[k] == rest[k - 1];
        }
      }
    }
  }

  /** The positions of the tokens `Unread` lists, for the tokenizer of
      src/token_iterator.hpp on `s`. */
  ghost function UnreadStops(s: seq<byte>, classes: seq<Class>, m: nat, token: seq<nat>, it: nat): seq<nat>
    requires m <= |ReaderStream(s)|
  {
    ReaderStreamPrefix(s);
    if token == [] then [] else [it] + TokenStops(ReaderStream(s), DecodeFrom(s, 0).ends, m, classes)
  }

  /** `WordsAdvance` for the positions. */
  lemma StopsAdvance(s: seq<byte>, classes: seq<Class>, doneStops: seq<nat>,
                     m: nat, token: seq<nat>, it: nat, m': nat, token': seq<nat>, it': nat)
    requires m <= |ReaderStream(s)| && token != []
    requires ReadToken(s, classes, m, m', token', it, it', None)
    ensures doneStops + UnreadStops(s, classes, m, token, it) == (doneStops + [it]) + UnreadStops(s, classes, m', token', it')
  {
    var ts, ends := ReaderStream(s), DecodeFrom(s, 0).ends;
    ReaderStreamPrefix(s);
    var rest := TokenStops(ts, ends, m, classes);
    assert UnreadStops(s, classes, m, token, it) == [it] + rest;
    if m < |ts| {
      assert rest == [it'] + TokenStops(ts, ends, m', classes);
      assert token' != [] by { assert ts[m] == token'[0]; }
      assert UnreadStops(s, classes, m', token', it') == rest;
    } else {
      assert rest == [] == UnreadStops(s, classes, m', token', it');
    }
  }

  /** `WordsFail` for the positions. */
  lemma StopsFail(s: seq<byte>, classes: seq<Class>, doneStops: seq<nat>, m: nat, token: seq<nat>, it: nat)
    requires m < |ReaderStream(s)| && token != [] && TokenEnd(ReaderStream(s), m, classes) == |ReaderStream(s)|
    ensures DropLast(doneStops + UnreadStops(s, classes, m, token, it)) == doneStops + [it]
  {
    var ts := ReaderStream(s);
    ReaderStreamPrefix(s);
    var ends := DecodeFrom(s, 0).ends;
    var j := TokenEnd(ts, m, classes);
    assert TokenStops(ts, ends, m, classes) == [ends[j - 1]] + TokenStops(ts, ends, j, classes);
    assert TokenStops(ts, ends, j, classes) == [];
    assert doneStops + UnreadStops(s, classes, m, token, it) == (doneStops + [it]) + [ends[j - 1]];
  }

  /** The loop `for (token_iterator t(s); t; ++t)` of `fit_and_segment` over one string,
      collecting each token and its `position()`. All tokens of the stream are read, or,
      when decoding fails, all but the last, which was being read when it failed. */
  method TokenizeBytes(s: seq<byte>, alnum: Class, space: Class) returns (tokens: seq<seq<nat>>, stops: seq<nat>, err: Option<DecodeError>)
    ensures err == DecodeFrom(s, 0).error
    ensures var all := TokenWords(ReaderStream(s), 0, ByteClasses(alnum, space), NoSkip);
      tokens == if err.None? then all else DropLast(all)
    ensures var all := (ReaderStreamPrefix(s); TokenStops(ReaderStream(s), DecodeFrom(s, 0).ends, 0, ByteClasses(alnum, space)));
      stops == if err.None? then all else DropLast(all)
  {
    ghost var classes := ByteClasses(alnum, space);
    ghost var ts := ReaderStream(s);
    ReaderStreamPrefix(s);
    ghost var words := TokenWords(ts, 0, classes, NoSkip);
    ghost var allStops := TokenStops(ts, DecodeFrom(s, 0).ends, 0, classes);
    var t;
    t, err := ByteTokenizer.Open(s, alnum, space);
    tokens, stops := [], [];
    if err.Some? {
      WordsAtMostOne(ts, classes);
      if ts != [] {
        assert TokenStops(ts, DecodeFrom(s, 0).ends, TokenEnd(ts, 0, classes), classes) == [];
      }
      return;
    }
    WordsAdvance(ts, classes, [], 0, [0], t.m, t.token);
    StopsAdvance(s, classes, [], 0, [0], 0, t.m, t.token, t.it);
    tokens, stops, err := t.Drain(words, allStops, tokens, stops);
  }

  // -----------------------------------------------------------------------------------------
  // The tokenizer of include/esapp/internal/token_iterator.hpp

  /** The cursor (`base`, `cp`) stands on code point `m` of `s`, its base iterator on the
      code point's last byte, or on the end of the range with `codepoint_` 0. */
  ghost predicate CursorAt(s: seq<byte>, m: nat, base: nat, cp: nat)
  {
    var d := DecodeFrom(s, 0);
    && m <= |d.cps|
    && (m < |d.cps| ==> cp == d.cps[m] && base + 1 == d.ends[m])
    && (m == |d.cps| ==> d.error.None? && base == |s| && cp == 0)
  }

  /** The cursor is at the end of the range exactly when no code point is left. */
  lemma CursorMore(s: seq<byte>, m: nat, base: nat, cp: nat)
    requires CursorAt(s, m, base, cp)
    ensures base <= |s| && (base == |s| <==> m == |DecodeFrom(s, 0).cps|)
  {
    if m < |DecodeFrom(s, 0).cps| {
      DecodeFromDrop(s, 0, m);
    }
  }

  /** The cursor the constructor leaves on `s`. */
  lemma CursorStart(s: seq<byte>)
    ensures s == [] ==> CursorAt(s, 0, 0, 0)
    ensures s != [] ==> var r := DecodeAt(s, 0);
      if r.Char? then CursorAt(s, 0, r.end - 1, r.cp)
      else DecodeFrom(s, 0).error == Some(r.error) && DecodeFrom(s, 0).cps == []
  {
    DecodeFromStart(s);
  }

  /** What `increment()` does to a cursor on code point `m`: it moves to code point
      `m + 1`, or fails when `m` is the last good one. `base'`, `cp'` and `err` are what
      `increment()` leaves. */
  lemma CursorAdvance(s: seq<byte>, m: nat, base: nat, cp: nat, base': nat, cp': nat, err: Option<DecodeError>)
    requires CursorAt(s, m, base, cp) && m < |DecodeFrom(s, 0).cps|
    requires base + 1 == |s| ==> err == None && base' == |s| && cp' == 0
    requires base + 1 < |s| ==> match DecodeAt(s, base + 1)
      case Char(c, e) => err == None && base' == e - 1 && cp' == c
      case Fail(x, at) => err == Some(x)
    ensures var d := DecodeFrom(s, 0);
      err.None? ==> CursorAt(s, m + 1, base', cp') && (d.error.Some? ==> m + 1 < |d.cps|)
    ensures err.Some? ==> err == DecodeFrom(s, 0).error && m + 1 == |DecodeFrom(s, 0).cps|
  {
    DecodeFromNext(s, m);
  }

  /** The state `next_token()` leaves, from code point `m0` on: at the end an empty token
      with the adaptor's base at the end of the range; otherwise the token that starts at
      `m0`, with the cursor on the code point after it and the base on the token's last
      byte; or, when decoding fails past the token's last code point, that error. */
  ghost predicate CursorReadToken(s: seq<byte>, classes: seq<Class>, m0: nat, m: nat, token: seq<nat>, base: nat,
                                  err: Option<DecodeError>)
    requires m0 <= |DecodeFrom(s, 0).cps|
  {
    var d := DecodeFrom(s, 0);
    if err.Some? then err == d.error && (m0 == |d.cps| || TokenEnd(d.cps, m0, classes) == |d.cps|)
    else if m0 == |d.cps| then token == [] && m == m0 && base == |s|
    else
      var j := TokenEnd(d.cps, m0, classes);
      m == j && token == d.cps[m0..j] && base + 1 == d.ends[j - 1]
  }

  /** `next_token()` falling back to the single current code point reads the token at
      `m0`. */
  lemma CursorSingle(s: seq<byte>, m0: nat, m: nat, token: seq<nat>, base: nat, err: Option<DecodeError>)
    requires var d := DecodeFrom(s, 0); m0 < |d.cps| && token == [d.cps[m0]] && base + 1 == d.ends[m0]
    requires err.None? ==> m == m0 + 1
    requires err.Some? ==> err == DecodeFrom(s, 0).error && m0 + 1 == |DecodeFrom(s, 0).cps|
    ensures CursorReadToken(s, [], m0, m, token, base, err)
  {
    var cps := DecodeFrom(s, 0).cps;
    assert cps[m0..m0 + 1] == [cps[m0]];
  }

  /** A `scan_while` of the first class that takes a code point, or fails, settles
      `next_token()`. */
  lemma CursorScanned(s: seq<byte>, classes: seq<Class>, m0: nat, m: nat, token: seq<nat>, base: nat,
                      found: bool, err: Option<DecodeError>)
    requires classes != [] && m0 < |DecodeFrom(s, 0).cps|
    requires var d := DecodeFrom(s, 0); var j := RunEnd(d.cps, m0, classes[0]);
      if err.None? then m == j && found == (j > m0) && token == d.cps[m0..j] && (j == m0 || base + 1 == d.ends[j - 1])
      else err == d.error && j == |d.cps| && m0 < j
    requires err.Some? || found
    ensures CursorReadToken(s, classes, m0, m, token, base, err)
  {
  }

  /** A `scan_while` of the first class that takes nothing leaves `next_token()` to the
      other classes. */
  lemma CursorPassed(s: seq<byte>, classes: seq<Class>, m0: nat, m: nat, token: seq<nat>, base: nat, err: Option<DecodeError>)
    requires classes != [] && m0 < |DecodeFrom(s, 0).cps| && RunEnd(DecodeFrom(s, 0).cps, m0, classes[0]) == m0
    requires CursorReadToken(s, classes[1..], m0, m, token, base, err)
    ensures CursorReadToken(s, classes, m0, m, token, base, err)
  {
  }

  /** `token_iterator` of include/esapp/internal/token_iterator.hpp: the decode iterator
      `u8_it_` (the end iterator `u8_end_` is the one whose base is the end of the range),
      the current token and the adaptor's base iterator `base`. `m` is the code point the
      cursor stands on. */
  class CursorTokenizer {
    const text: seq<byte>
    const alnum: Class
    const space: Class
    const cursor: Utf8Cursor
    var token: seq<nat>
    var base: nat
    ghost var m: nat

    ghost predicate Valid()
      reads this, cursor
    {
      && cursor.bytes == text && cursor.Valid() && CursorAt(text, m, cursor.base, cursor.cp)
      && (DecodeFrom(text, 0).error.Some? ==> m < |DecodeFrom(text, 0).cps|)
    }

    constructor Over(s: seq<byte>, c: Utf8Cursor, alnum: Class, space: Class)
      ensures text == s && cursor == c && this.alnum == alnum && this.space == space
      ensures token == [] && base == 0 && m == 0
    {
      text := s;
      cursor := c;
      this.alnum := alnum;
      this.space := space;
      token := [];
      base := 0;
      m := 0;
    }

    /** `token_iterator(it, end)` on the whole of `s`: the cursor decodes the first code
        point, which may throw, and the first token is read. */
    static method Open(s: seq<byte>, alnum: Class, space: Class) returns (t: CursorTokenizer, err: Option<DecodeError>)
      ensures fresh(t) && fresh(t.cursor) && t.text == s && t.alnum == alnum && t.space == space
      ensures err.None? ==> t.Valid()
      ensures CursorReadToken(s, ByteClasses(alnum, space), 0, t.m, t.token, t.base, err)
    {
      var c;
      c, err := Utf8Cursor.Open(s, 0);
      t := new CursorTokenizer.Over(s, c, alnum, space);
      CursorStart(s);
      if err.Some? {
        return;
      }
      err := t.NextToken();
    }

    /** `++u8_it_`, which may throw. */
    method Advance() returns (err: Option<DecodeError>)
      requires Valid() && m < |DecodeFrom(text, 0).cps|
      modifies `m, cursor
      ensures err.None? ==> Valid() && m == old(m) + 1
      ensures err.Some? ==> err == DecodeFrom(text, 0).error && old(m) + 1 == |DecodeFrom(text, 0).cps|
    {
      ghost var b, c := cursor.base, cursor.cp;
      CursorMore(text, m, b, c);
      err := cursor.Increment();
      CursorAdvance(text, m, b, c, cursor.base, cursor.cp, err);
      if err.None? {
        m := m + 1;
      }
    }

    /** `next_token()`: the token is cleared; at the end the base moves to the end of the
        range; otherwise the token is the run of CJK characters, else of fullwidth
        alphanumerics, else of `iswalnum`, else of `iswspace` characters, else the single
        current code point. */
    method NextToken() returns (err: Option<DecodeError>)
      requires Valid()
      modifies `base, `m, `token, cursor
      ensures err.None? ==> Valid()
      ensures CursorReadToken(text, ByteClasses(alnum, space), old(m), m, token, base, err)
    {
      token := [];
      CursorMore(text, m, cursor.base, cursor.cp);
      if cursor.AtEnd() {
        base := cursor.base;
        return None;
      }
      err := ScanFirst(ByteClasses(alnum, space));
    }

    /** The chain `!scan_while(p0) && !scan_while(p1) && ...` of `next_token()` over
        `classes`, then the single current code point when no scan took any. */
    method ScanFirst(classes: seq<Class>) returns (err: Option<DecodeError>)
      requires Valid() && m < |DecodeFrom(text, 0).cps| && token == []
      modifies `base, `m, `token, cursor
      ensures err.None? ==> Valid()
      ensures CursorReadToken(text, classes, old(m), m, token, base, err)
      decreases |classes|
    {
      ghost var m0 := m;
      if classes == [] {
        token := [cursor.cp];
        base := cursor.base;
        err := Advance();
        CursorSingle(text, m0, m, token, base, err);
        return;
      }
      var found;
      found, err := ScanWhile(classes[0]);
      if err.Some? || found {
        CursorScanned(text, classes, m0, m, token, base, found, err);
        return;
      }
      err := ScanFirst(classes[1..]);
      CursorPassed(text, classes, m0, m, token, base, err);
    }

    /** `scan_while(pred)` on an empty token: the maximal run of class `pred` becomes the
        token, the base following each of its code points; the result says whether the
        token is non-empty. */
    method ScanWhile(pred: Class) returns (found: bool, err: Option<DecodeError>)
      requires Valid() && token == []
      modifies `base, `m, `token, cursor
      ensures var d := DecodeFrom(text, 0); var j := RunEnd(d.cps, old(m), pred);
        if err.None? then
          && Valid() && m == j && found == (j > old(m)) && token == d.cps[old(m)..j]
          && (if j == old(m) then base == old(base) else base + 1 == d.ends[j - 1])
        else err == d.error && j == |d.cps| && old(m) < j
    {
      found, err := false, None;
      ghost var cps := DecodeFrom(text, 0).cps;
      ghost var m0 := m;
      CursorMore(text, m, cursor.base, cursor.cp);
      while !cursor.AtEnd() && Holds(pred, cursor.cp)
        invariant Valid() && m0 <= m && err.None?
        invariant RunEnd(cps, m0, pred) == RunEnd(cps, m, pred)
        invariant token == cps[m0..m]
        invariant if m == m0 then base == old(base) else base + 1 == DecodeFrom(text, 0).ends[m - 1]
        invariant cursor.AtEnd() <==> m == |cps|
        decreases |cps| - m
      {
        err := ScanOne(pred, m0);
        if err.Some? {
          return;
        }
      }
      found := |token| > 0;
    }

    /** One turn of `scan_while`'s loop: the code point joins the token, the base takes the
        cursor's and the cursor moves on. */
    method ScanOne(pred: Class, ghost m0: nat) returns (err: Option<DecodeError>)
      requires Valid() && m0 <= m < |DecodeFrom(text, 0).cps| && Holds(pred, cursor.cp)
      requires RunEnd(DecodeFrom(text, 0).cps, m0, pred) == RunEnd(DecodeFrom(text, 0).cps, m, pred)
      requires token == DecodeFrom(text, 0).cps[m0..m]
      modifies `base, `m, `token, cursor
      ensures var d := DecodeFrom(text, 0);
        if err.None? then
          && Valid() && m0 <= m && m == old(m) + 1
          && RunEnd(d.cps, m0, pred) == RunEnd(d.cps, m, pred)
          && token == d.cps[m0..m] && base + 1 == d.ends[m - 1]
          && (cursor.AtEnd() <==> m == |d.cps|)
        else err == d.error && RunEnd(d.cps, m0, pred) == |d.cps| && m0 < |d.cps|
    {
      RunStep(DecodeFrom(text, 0).cps, pred, m0, m, token);
      token := token + [cursor.cp];
      base := cursor.base;
      err := Advance();
      if err.None? {
        CursorMore(text, m, cursor.base, cursor.cp);
      }
    }

    /** One turn of the loop `for (it = token_iterator(b, e); it != token_iterator(e, e);
        ++it)`: the token is collected, then `++` runs. */
    method Yield(ghost words: seq<seq<nat>>, tokens: seq<seq<nat>>) returns (tokens': seq<seq<nat>>, err: Option<DecodeError>)
      requires Valid() && token != []
      requires words == tokens + Unread(DecodeFrom(text, 0).cps, ByteClasses(alnum, space), m, token)
      modifies `base, `m, `token, cursor
      ensures err.Some? ==> err == DecodeFrom(text, 0).error && DropLast(words) == tokens'
      ensures var cps := DecodeFrom(text, 0).cps;
        err.None? ==>
          && Valid() && (token == [] ==> m == |cps|) && (token == [] <==> base == |text|)
          && words == tokens' + Unread(cps, ByteClasses(alnum, space), m, token)
          && 2 * (|cps| - m) + (if token == [] then 0 else 1) < 2 * (|cps| - old(m)) + 1
    {
      ghost var classes := ByteClasses(alnum, space);
      ghost var m0, token0 := m, token;
      tokens' := tokens + [token];
      err := NextToken();
      if err.Some? {
        WordsFail(DecodeFrom(text, 0).cps, classes, tokens, m0, token0);
        return;
      }
      WordsAdvance(DecodeFrom(text, 0).cps, classes, tokens, m0, token0, m, token);
      CursorBase(text, classes, m0, m, token, base);
    }
  }

  /** After `next_token()` the base is at the end of the range exactly when the token is
      empty. */
  lemma CursorBase(s: seq<byte>, classes: seq<Class>, m0: nat, m: nat, token: seq<nat>, base: nat)
    requires m0 <= |DecodeFrom(s, 0).cps| && CursorReadToken(s, classes, m0, m, token, base, None)
    ensures token == [] <==> base == |s|
  {
    var d := DecodeFrom(s, 0);
    if m0 < |d.cps| {
      DecodeFromDrop(s, 0, m - 1);
    }
  }

  /** Every token of `s`, read with the iterator protocol of
      include/esapp/internal/token_iterator.hpp: the loop runs until the iterator equals
      the end iterator, whose base is the end of the range. All tokens of the decoded code
      points are read, or, when decoding fails, all but the last. */
  method TokenizeCursor(s: seq<byte>, alnum: Class, space: Class) returns (tokens: seq<seq<nat>>, err: Option<DecodeError>)
    ensures err == DecodeFrom(s, 0).error
    ensures var all := TokenWords(DecodeFrom(s, 0).cps, 0, ByteClasses(alnum, space), NoSkip);
      tokens == if err.None? then all else DropLast(all)
  {
    ghost var classes := ByteClasses(alnum, space);
    ghost var cps := DecodeFrom(s, 0).cps;
    ghost var words := TokenWords(cps, 0, classes, NoSkip);
    var t;
    t, err := CursorTokenizer.Open(s, alnum, space);
    tokens := [];
    if err.Some? {
      WordsAtMostOne(cps, classes);
      return;
    }
    WordsAdvance(cps, classes, [], 0, [0], t.m, t.token);
    CursorBase(s, classes, 0, t.m, t.token, t.base);
    while t.base != |s|
      invariant fresh(t) && fresh(t.cursor) && t.Valid() && t.text == s && t.alnum == alnum && t.space == space
      invariant err.None? && (t.token == [] ==> t.m == |cps|) && (t.token == [] <==> t.base == |s|)
      invariant words == tokens + Unread(cps, classes, t.m, t.token)
      decreases 2 * (|cps| - t.m) + (if t.token == [] then 0 else 1)
    {
      tokens, err := t.Yield(words, tokens);
      if err.Some? {
        return;
      }
    }
  }
}
