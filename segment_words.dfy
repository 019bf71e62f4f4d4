/** The words `fit_and_segment` of src/segmenter.cpp hands back for one string. The string
    is read token by token again; a token that starts with a CJK character is cut into words
    by `segment_sequence` at the cuts found for it, any other token that does not start with
    whitespace is one word, and whitespace tokens are dropped. Words are byte ranges of the
    string. */
module SegmentWords {
  import opened Options
  import opened Utf8
  import opened Tokens
  import opened ByteTokens
  import Preserve

  /** The words put back together. */
  function Join(ws: seq<seq<byte>>): seq<byte>
  {
    if ws == [] then [] else ws[0] + Join(ws[1..])
  }

  lemma {:induction false} JoinAppend(a: seq<seq<byte>>, b: seq<seq<byte>>)
    ensures Join(a + b) == Join(a) + Join(b)
    decreases |a|
  {
    if a != [] {
      assert (a + b)[0] == a[0] && (a + b)[1..] == a[1..] + b;
      JoinAppend(a[1..], b);
      calc {
        Join(a + b);
        a[0] + Join(a[1..] + b);
        a[0] + (Join(a[1..]) + Join(b));
        (a[0] + Join(a[1..])) + Join(b);
      }
    } else {
      assert a + b == b;
    }
  }

  // -----------------------------------------------------------------------------------------
  // Cutting one token

  /** Byte positions that never go down and stay within `hi`. */
  predicate Rising(b: seq<nat>, hi: nat)
  {
    && (forall k :: 0 <= k < |b| ==> b[k] <= hi)
    && (forall i, j :: 0 <= i < j < |b| ==> b[i] <= b[j])
  }

  /** The byte ranges of `s` between consecutive positions of `b`. */
  function Pieces(s: seq<byte>, b: seq<nat>): (ws: seq<seq<byte>>)
    requires Rising(b, |s|)
    ensures |ws| == if |b| == 0 then 0 else |b| - 1
    decreases |b|
  {
    if |b| < 2 then [] else [s[b[0]..b[1]]] + Pieces(s, b[1..])
  }

  /** The ranges from position i on: the one that starts there, then the rest. */
  lemma PiecesStep(s: seq<byte>, b: seq<nat>, i: nat)
    requires Rising(b, |s|) && i + 1 < |b|
    ensures Pieces(s, b[i..]) == [s[b[i]..b[i + 1]]] + Pieces(s, b[i + 1..])
  {
    assert b[i..][1..] == b[i + 1..];
  }

  /** The ranges between positions that never go down cover the bytes from the first
      position to the last. */
  lemma {:induction false} PiecesJoin(s: seq<byte>, b: seq<nat>)
    requires Rising(b, |s|) && |b| >= 1
    ensures Join(Pieces(s, b)) == s[b[0]..b[|b| - 1]]
    decreases |b|
  {
    if |b| >= 2 {
      PiecesJoin(s, b[1..]);
      assert s[b[0]..b[|b| - 1]] == s[b[0]..b[1]] + s[b[1]..b[|b| - 1]];
    }
  }

  /** The word bounds `segment_sequence` uses: `begin + 3 * pos` for each cut, from `begin`
      to `end`, as if every code point took three bytes. */
  function ThreeByteBounds(begin: nat, end: nat, seg: seq<nat>): (b: seq<nat>)
    ensures |b| == |seg| + 2
  {
    [begin] + seq(|seg|, k requires 0 <= k < |seg| => begin + 3 * seg[k]) + [end]
  }

  /** `segment_sequence(words, begin, end, seg)` as written: the range `[begin, end)` of
      the string is cut at byte `begin + 3 * pos` for each cut `pos`, and each piece is
      appended to `words`. */
  method SegmentSequenceAsWritten(words0: seq<seq<byte>>, s: seq<byte>, begin: nat, end: nat, seg: seq<nat>)
    returns (words: seq<seq<byte>>)
    requires Rising(ThreeByteBounds(begin, end, seg), |s|)
    ensures words == words0 + Pieces(s, ThreeByteBounds(begin, end, seg))
  {
    ghost var b := ThreeByteBounds(begin, end, seg);
    words := words0;
    var prev := 0;
    for i := 0 to |seg|
      invariant begin + 3 * prev == b[i]
      invariant words0 + Pieces(s, b) == words + Pieces(s, b[i..])
    {
      PiecesStep(s, b, i);
      words := words + [s[begin + prev * 3..begin + seg[i] * 3]];
      prev := seg[i];
    }
    PiecesStep(s, b, |seg|);
    words := words + [s[begin + prev * 3..end]];
    assert b[|seg| + 1..] == [end];
  }

  /** Code point ends of a token that starts at `begin`: strictly increasing, past
      `begin` and within `hi`. */
  predicate CodePointEnds(begin: nat, ends: seq<nat>, hi: nat)
  {
    && (forall k :: 0 <= k < |ends| ==> begin < ends[k] <= hi)
    && (forall i, j :: 0 <= i < j < |ends| ==> ends[i] < ends[j])
  }

  /** The word bounds at code point boundaries: the end of the `pos`-th code point of the
      token for each cut `pos`, from `begin` to the end of its last code point. */
  function CodePointBounds(begin: nat, ends: seq<nat>, seg: seq<nat>): (b: seq<nat>)
    requires Preserve.ValidCuts(seg, |ends|) && |ends| > 0
    ensures |b| == |seg| + 2
  {
    [begin] + seq(|seg|, k requires 0 <= k < |seg| => ends[seg[k] - 1]) + [ends[|ends| - 1]]
  }

  /** Bounds taken at code point ends rise. */
  lemma CodePointBoundsRise(begin: nat, ends: seq<nat>, seg: seq<nat>, hi: nat)
    requires Preserve.ValidCuts(seg, |ends|) && |ends| > 0 && CodePointEnds(begin, ends, hi)
    ensures Rising(CodePointBounds(begin, ends, seg), hi)
  {
    var b := CodePointBounds(begin, ends, seg);
    forall i, j | 0 <= i < j < |b|
      ensures b[i] <= b[j]
    {
      if 0 < i && j < |b| - 1 {
        assert b[i] == ends[seg[i - 1] - 1] && b[j] == ends[seg[j - 1] - 1];
      } else if 0 < i {
        assert b[i] == ends[seg[i - 1] - 1];
      } else if j < |b| - 1 {
        assert b[j] == ends[seg[j - 1] - 1];
      }
    }
  }

  /** `segment_sequence` cutting at code point boundaries: the `pos`-th cut of the token
      that starts at `begin` falls at the end of its `pos`-th code point, whatever the
      length of each code point's encoding. */
  method SegmentSequence(words0: seq<seq<byte>>, s: seq<byte>, begin: nat, ends: seq<nat>, seg: seq<nat>)
    returns (words: seq<seq<byte>>)
    requires Preserve.ValidCuts(seg, |ends|) && |ends| > 0 && CodePointEnds(begin, ends, |s|)
    ensures words == words0 + Pieces(s, CodePointBounds(begin, ends, seg))
    ensures Join(words) == Join(words0) + s[begin..ends[|ends| - 1]]
  {
    ghost var b := CodePointBounds(begin, ends, seg);
    CodePointBoundsRise(begin, ends, seg, |s|);
    words := words0;
    var from := begin;
    for i := 0 to |seg|
      invariant from == b[i]
      invariant words0 + Pieces(s, b) == words + Pieces(s, b[i..])
    {
      PiecesStep(s, b, i);
      var to := ends[seg[i] - 1];
      words := words + [s[from..to]];
      from := to;
    }
    PiecesStep(s, b, |seg|);
    words := words + [s[from..ends[|ends| - 1]]];
    assert b[|seg| + 1..] == [ends[|ends| - 1]];
    PiecesJoin(s, b);
    JoinAppend(words0, Pieces(s, b));
  }

  /** Where every code point of the token takes three bytes, as every character from U+4E00
      to U+9FFF does in the shortest form of section 3 of RFC 3629, both ways of cutting
      agree. */
  lemma ThreeByteAgrees(begin: nat, ends: seq<nat>, seg: seq<nat>)
    requires Preserve.ValidCuts(seg, |ends|) && |ends| > 0
    requires forall k :: 0 <= k < |ends| ==> ends[k] == begin + 3 * (k + 1)
    ensures CodePointBounds(begin, ends, seg) == ThreeByteBounds(begin, begin + 3 * |ends|, seg)
  {
    var b, c := CodePointBounds(begin, ends, seg), ThreeByteBounds(begin, begin + 3 * |ends|, seg);
    forall k | 0 <= k < |b|
      ensures b[k] == c[k]
    {
      if 0 < k < |b| - 1 {
        assert b[k] == ends[seg[k - 1] - 1] && c[k] == begin + 3 * seg[k - 1];
      }
    }
  }

  /** U+4E00 twice, first in the four-byte overlong form the decoder accepts, then in its
      three-byte form. */
  const OverlongPair: seq<byte> := [0xF0, 0x84, 0xB8, 0x80, 0xE4, 0xB8, 0x80]

  /** Both characters decode, the first ending after four bytes. */
  lemma OverlongPairDecodes()
    ensures DecodeFrom(OverlongPair, 0) == Decoding([0x4E00, 0x4E00], [4, 7], None)
  {
    var s := OverlongPair;
    DecodeOverlong(0x4E00, s[4..]);
    assert [0xF0, Cont(0x4E00 / 64 / 64), Cont(0x4E00 / 64), Cont(0x4E00)] + s[4..] == s;
    DecodeEncode(0x4E00, []);
    assert Encode(0x4E00) == s[4..];
    DecodeEncodeAt(s, 4, 0x4E00);
  }

  /** Cutting once, at m, gives the bytes before m and those from m on. */
  lemma TwoPieces(s: seq<byte>, m: nat)
    requires m <= |s|
    ensures Pieces(s, [0, m, |s|]) == [s[..m], s[m..]]
  {
    var b := [0, m, |s|];
    PiecesStep(s, b, 0);
    PiecesStep(s, b, 1);
    assert b[0..] == b && Pieces(s, b[2..]) == [];
    assert s[b[0]..b[1]] == s[..m] && s[b[1]..b[2]] == s[m..];
  }

  /** Cut after the first character, `segment_sequence` as written ends the first word three
      bytes in, inside that character: the word is not valid UTF-8. Cutting at the end of
      the character gives two words that are each one character. */
  lemma OverlongMisplacesCut()
    ensures Pieces(OverlongPair, ThreeByteBounds(0, 7, [1])) == [OverlongPair[..3], OverlongPair[3..]]
    ensures DecodeFrom(OverlongPair[..3], 0).error == Some(OutOfRange)
    ensures Pieces(OverlongPair, CodePointBounds(0, [4, 7], [1])) == [OverlongPair[..4], OverlongPair[4..]]
    ensures DecodeFrom(OverlongPair[..4], 0) == Decoding([0x4E00], [4], None)
    ensures DecodeFrom(OverlongPair[4..], 0) == Decoding([0x4E00], [3], None)
  {
    var s := OverlongPair;
    assert ThreeByteBounds(0, 7, [1]) == [0, 3, 7];
    assert CodePointBounds(0, [4, 7], [1]) == [0, 4, 7];
    TwoPieces(s, 3);
    TwoPieces(s, 4);
    DecodeOverlong(0x4E00, []);
    assert [0xF0, Cont(0x4E00 / 64 / 64), Cont(0x4E00 / 64), Cont(0x4E00)] == s[..4];
    DecodeEncode(0x4E00, []);
    assert Encode(0x4E00) == s[4..];
  }

  // -----------------------------------------------------------------------------------------
  // Strictly rising bounds give no empty word

  /** Positions that go up at every step. */
  predicate Strict(b: seq<nat>)
  {
    forall i, j :: 0 <= i < j < |b| ==> b[i] < b[j]
  }

  /** Piece k lies between positions k and k + 1. */
  lemma {:induction false} PiecesAt(s: seq<byte>, b: seq<nat>, k: nat)
    requires Rising(b, |s|) && k + 1 < |b|
    ensures Pieces(s, b)[k] == s[b[k]..b[k + 1]]
    decreases k
  {
    if k > 0 {
      PiecesAt(s, b[1..], k - 1);
    }
  }

  /** Between positions that go up at every step no piece is empty. */
  lemma PiecesNonEmpty(s: seq<byte>, b: seq<nat>)
    requires Rising(b, |s|) && Strict(b)
    ensures forall k :: 0 <= k < |Pieces(s, b)| ==> |Pieces(s, b)[k]| > 0
  {
    forall k | 0 <= k < |Pieces(s, b)|
      ensures |Pieces(s, b)[k]| > 0
    {
      PiecesAt(s, b, k);
    }
  }

  /** Cuts inside a token whose code points end at strictly rising positions give strictly
      rising bounds. */
  lemma CodePointBoundsStrict(begin: nat, ends: seq<nat>, seg: seq<nat>, hi: nat)
    requires Preserve.ValidCuts(seg, |ends|) && |ends| > 0 && CodePointEnds(begin, ends, hi)
    ensures Strict(CodePointBounds(begin, ends, seg))
  {
    var b := CodePointBounds(begin, ends, seg);
    forall i, j | 0 <= i < j < |b|
      ensures b[i] < b[j]
    {
      if 0 < i && j < |b| - 1 {
        assert b[i] == ends[seg[i - 1] - 1] && b[j] == ends[seg[j - 1] - 1];
      } else if 0 < i {
        assert b[i] == ends[seg[i - 1] - 1];
      } else if j < |b| - 1 {
        assert b[j] == ends[seg[j - 1] - 1];
      }
    }
  }

  // -----------------------------------------------------------------------------------------
  // The code points of a string end at strictly rising positions

  /** Every code point decoded from `i` ends past `i` and within the string, each past the
      one before. */
  lemma {:induction false} DecodeEndsRise(s: seq<byte>, i: nat)
    requires i <= |s|
    ensures CodePointEnds(i, DecodeFrom(s, i).ends, |s|)
    decreases |s| - i
  {
    if i < |s| {
      match DecodeAt(s, i)
      case Fail(_, _) =>
      case Char(cp, e) =>
        DecodeEndsRise(s, e);
        var ends := DecodeFrom(s, i).ends;
        assert ends == [e] + DecodeFrom(s, e).ends;
        forall a, c | 0 <= a < c < |ends|
          ensures ends[a] < ends[c]
        {
          if a > 0 {
            assert ends[a] == DecodeFrom(s, e).ends[a - 1];
          }
          assert ends[c] == DecodeFrom(s, e).ends[c - 1];
        }
    }
  }

  /** The ends of code points c to j - 1, after where code point c - 1 ends, or after 0. */
  lemma SliceEnds(ends: seq<nat>, c: nat, j: nat, begin: nat, hi: nat)
    requires CodePointEnds(0, ends, hi) && c < j <= |ends|
    requires begin == if c == 0 then 0 else ends[c - 1]
    ensures CodePointEnds(begin, ends[c..j], hi)
  {
  }

  // -----------------------------------------------------------------------------------------
  // The word list of one string

  /** The tokens `fit_and_segment` hands to the counter: those that start with a CJK
      character, in order. */
  function Kept(tokens: seq<seq<nat>>): (r: seq<seq<nat>>)
    ensures |r| <= |tokens|
    ensures forall k :: 0 <= k < |r| ==> r[k] != [] && IsChs(r[k][0])
  {
    if tokens == [] then []
    else (if tokens[0] != [] && IsChs(tokens[0][0]) then [tokens[0]] else []) + Kept(tokens[1..])
  }

  /** Nothing that starts with a CJK character is left out. */
  lemma {:induction false} KeptComplete(tokens: seq<seq<nat>>)
    ensures forall t :: t in tokens && t != [] && IsChs(t[0]) ==> t in Kept(tokens)
  {
    if tokens != [] {
      KeptComplete(tokens[1..]);
      forall t | t in tokens && t != [] && IsChs(t[0])
        ensures t in Kept(tokens)
      {
        if t != tokens[0] {
          assert t in tokens[1..];
        }
      }
    }
  }

  lemma {:induction false} KeptAppend(a: seq<seq<nat>>, b: seq<seq<nat>>)
    ensures Kept(a + b) == Kept(a) + Kept(b)
    decreases |a|
  {
    if a != [] {
      assert (a + b)[0] == a[0] && (a + b)[1..] == a[1..] + b;
      KeptAppend(a[1..], b);
      var h := if a[0] != [] && IsChs(a[0][0]) then [a[0]] else [];
      calc {
        Kept(a + b);
        h + Kept(a[1..] + b);
        h + (Kept(a[1..]) + Kept(b));
        (h + Kept(a[1..])) + Kept(b);
      }
    } else {
      assert a + b == b;
    }
  }

  /** A token that yields no word: one that starts with whitespace. */
  predicate Dropped(token: seq<nat>, space: Class)
  {
    token != [] && !IsChs(token[0]) && Holds(space, token[0])
  }

  /** The bytes of a token from `begin` to `end`, none when it is dropped. */
  function TokenBytes(s: seq<byte>, token: seq<nat>, begin: nat, end: nat, space: Class): seq<byte>
    requires begin <= end <= |s|
  {
    if Dropped(token, space) then [] else s[begin..end]
  }

  /** The bytes of every token that is not dropped, token `k` lying between positions `k`
      and `k + 1` of `b`. */
  function Unspaced(s: seq<byte>, tokens: seq<seq<nat>>, b: seq<nat>, space: Class): seq<byte>
    requires |b| == |tokens| + 1 && Rising(b, |s|)
    decreases |tokens|
  {
    if tokens == [] then []
    else TokenBytes(s, tokens[0], b[0], b[1], space) + Unspaced(s, tokens[1..], b[1..], space)
  }

  /** The bytes from token k on: those of token k, then the rest. */
  lemma UnspacedStep(s: seq<byte>, tokens: seq<seq<nat>>, b: seq<nat>, space: Class, k: nat)
    requires |b| == |tokens| + 1 && Rising(b, |s|) && k < |tokens|
    ensures Unspaced(s, tokens[k..], b[k..], space)
      == TokenBytes(s, tokens[k], b[k], b[k + 1], space) + Unspaced(s, tokens[k + 1..], b[k + 1..], space)
  {
    assert tokens[k..][1..] == tokens[k + 1..] && b[k..][1..] == b[k + 1..];
  }

  /** Without whitespace tokens, the bytes kept are all those from the first position to
      the last. */
  lemma {:induction false} UnspacedAll(s: seq<byte>, tokens: seq<seq<nat>>, b: seq<nat>, space: Class)
    requires |b| == |tokens| + 1 && Rising(b, |s|)
    requires forall k :: 0 <= k < |tokens| ==> !Dropped(tokens[k], space)
    ensures Unspaced(s, tokens, b, space) == s[b[0]..b[|b| - 1]]
    decreases |tokens|
  {
    if tokens != [] {
      assert !Dropped(tokens[0], space);
      UnspacedAll(s, tokens[1..], b[1..], space);
      assert s[b[0]..b[|b| - 1]] == s[b[0]..b[1]] + s[b[1]..b[|b| - 1]];
    }
  }

  /** Adding x in front of positions that rise from at least x keeps them rising. */
  lemma RisingCons(x: nat, b: seq<nat>, hi: nat)
    requires Rising(b, hi) && |b| > 0 && x <= b[0]
    ensures Rising([x] + b, hi)
  {
    var c := [x] + b;
    forall i, j | 0 <= i < j < |c|
      ensures c[i] <= c[j]
    {
      if i == 0 {
        assert c[j] == b[j - 1];
      } else {
        assert c[i] == b[i - 1] && c[j] == b[j - 1];
      }
    }
  }

  /** Where the token that starts at code point c begins: where code point c - 1 ends, or
      at 0. */
  function Start(ends: seq<nat>, c: nat): nat
    requires c <= |ends|
  {
    if c == 0 then 0 else ends[c - 1]
  }

  /** The positions the byte tokenizer reports, one per token, rise from where the first
      token starts. */
  lemma {:induction false} StopsRise(s: seq<byte>, c: nat, classes: seq<Class>)
    requires var d := DecodeFrom(s, 0); c <= |ReaderStream(s)| <= |d.ends|
    ensures var ts := ReaderStream(s); var ends := DecodeFrom(s, 0).ends;
      && |TokenStops(ts, ends, c, classes)| == |TokenWords(ts, c, classes, NoSkip)|
      && Rising([Start(ends, c)] + TokenStops(ts, ends, c, classes), |s|)
    decreases |ReaderStream(s)| - c
  {
    var ts, ends := ReaderStream(s), DecodeFrom(s, 0).ends;
    DecodeEndsRise(s, 0);
    if c < |ts| {
      var j := TokenEnd(ts, c, classes);
      assert RunEnd(ts, j, NoSkip) == j;
      StopsRise(s, j, classes);
      assert TokenStops(ts, ends, c, classes) == [ends[j - 1]] + TokenStops(ts, ends, j, classes);
      assert Start(ends, c) <= ends[j - 1] by {
        if c > 0 {
          assert c - 1 < j - 1;
        }
      }
      RisingCons(Start(ends, c), TokenStops(ts, ends, c, classes), |s|);
    }
  }

  /** The CJK tokens from token k on: token k if it is one, then the rest. */
  lemma KeptStep(tokens: seq<seq<nat>>, k: nat)
    requires k < |tokens|
    ensures Kept(tokens[k..]) == (if tokens[k] != [] && IsChs(tokens[k][0]) then [tokens[k]] else []) + Kept(tokens[k + 1..])
  {
    assert tokens[k..][1..] == tokens[k + 1..];
  }

  /** The body of the word loop for one token, `segment_sequence` cutting at code point
      boundaries: a CJK token is cut at the next list of cuts, which it consumes, any other
      token that does not start with whitespace is one word, and a whitespace token adds
      nothing. `ends` are where the token's code points end. */
  method AddToken(words0: seq<seq<byte>>, s: seq<byte>, token: seq<nat>, begin: nat, ends: seq<nat>, space: Class,
                  cuts: seq<seq<nat>>, next0: nat)
    returns (words: seq<seq<byte>>, next: nat)
    requires |token| == |ends| && |ends| > 0 && CodePointEnds(begin, ends, |s|)
    requires IsChs(token[0]) ==> next0 < |cuts| && Preserve.ValidCuts(cuts[next0], |token|)
    ensures words == words0 + TokenSegments(s, token, begin, ends, space, cuts, next0)
    ensures Join(words) == Join(words0) + TokenBytes(s, token, begin, ends[|ends| - 1], space)
    ensures |words| >= |words0| && words[..|words0|] == words0
    ensures forall k :: |words0| <= k < |words| ==> |words[k]| > 0
    ensures next == next0 + (if IsChs(token[0]) then 1 else 0)
  {
    var end := ends[|ends| - 1];
    assert begin < end;
    var ch := token[0];
    next := next0;
    if IsChs(ch) {
      words := SegmentSequence(words0, s, begin, ends, cuts[next]);
      next := next + 1;
      CodePointBoundsRise(begin, ends, cuts[next0], |s|);
      CodePointBoundsStrict(begin, ends, cuts[next0], |s|);
      PiecesNonEmpty(s, CodePointBounds(begin, ends, cuts[next0]));
    } else if !Holds(space, ch) {
      words := words0 + [s[begin..end]];
      JoinAppend(words0, [s[begin..end]]);
    } else {
      words := words0;
      assert Join(words0) + [] == Join(words0);
    }
  }

  /** The tokens and the positions of one string as the byte tokenizer yields them: one
      position per token, rising from 0; `ts` are the code points the reader yields and
      `ends` where they end. */
  ghost predicate Stream(s: seq<byte>, ts: seq<nat>, ends: seq<nat>, tokens: seq<seq<nat>>, stops: seq<nat>)
  {
    |ts| <= |ends| && |tokens| == |stops| && Rising([0] + stops, |s|)
  }

  /** Where the word loop over one string stands before token k, which starts at code point
      c and byte `begin`: the tokens and positions still to come are those of the stream
      from c. */
  ghost predicate StreamAt(s: seq<byte>, ts: seq<nat>, ends: seq<nat>, classes: seq<Class>,
                           tokens: seq<seq<nat>>, stops: seq<nat>, k: nat, c: nat, begin: nat)
    requires Stream(s, ts, ends, tokens, stops)
  {
    && k <= |tokens| && c <= |ts|
    && tokens[k..] == TokenWords(ts, c, classes, NoSkip)
    && stops[k..] == TokenStops(ts, ends, c, classes)
    && begin == ([0] + stops)[k] == Start(ends, c)
  }

  /** After token k the loop stands on the code point where it ends. */
  lemma StreamAdvance(s: seq<byte>, ts: seq<nat>, ends: seq<nat>, classes: seq<Class>, tokens: seq<seq<nat>>, stops: seq<nat>,
                      k: nat, c: nat, begin: nat, n: nat)
    requires Stream(s, ts, ends, tokens, stops) && StreamAt(s, ts, ends, classes, tokens, stops, k, c, begin) && k < |tokens|
    requires n == c + |tokens[k]|
    ensures StreamAt(s, ts, ends, classes, tokens, stops, k + 1, n, stops[k]) && stops[k] == ([0] + stops)[k + 1]
  {
    var j := TokenEnd(ts, c, classes);
    TokenNext(ts, classes, tokens, k, c);
    StopNext(ts, ends, classes, stops, k, c);
    assert n == j && 0 < n <= |ts|;
    assert Start(ends, n) == ends[n - 1] == stops[k] == ([0] + stops)[k + 1];
  }

  /** Token k is the one that starts at code point c; the tokens after it start where it
      ends. */
  lemma TokenNext(ts: seq<nat>, classes: seq<Class>, tokens: seq<seq<nat>>, k: nat, c: nat)
    requires c <= |ts| && k < |tokens| && tokens[k..] == TokenWords(ts, c, classes, NoSkip)
    ensures c < |ts| && var j := TokenEnd(ts, c, classes);
      tokens[k] == ts[c..j] && tokens[k + 1..] == TokenWords(ts, j, classes, NoSkip)
  {
    var j := TokenEnd(ts, c, classes);
    assert RunEnd(ts, j, NoSkip) == j;
    assert tokens[k..][1..] == tokens[k + 1..];
  }

  /** The position reported for token k is where its last code point ends. */
  lemma StopNext(ts: seq<nat>, ends: seq<nat>, classes: seq<Class>, stops: seq<nat>, k: nat, c: nat)
    requires c < |ts| <= |ends| && k < |stops| && stops[k..] == TokenStops(ts, ends, c, classes)
    ensures var j := TokenEnd(ts, c, classes);
      stops[k] == ends[j - 1] && stops[k + 1..] == TokenStops(ts, ends, j, classes)
  {
    assert stops[k..][1..] == stops[k + 1..];
  }

  /** From position `next` on, the cut lists fit the CJK tokens of `tokens`, in order. */
  ghost predicate CutsFit(tokens: seq<seq<nat>>, cuts: seq<seq<nat>>, next: nat)
  {
    && next + |Kept(tokens)| <= |cuts|
    && forall i :: 0 <= i < |Kept(tokens)| ==> Preserve.ValidCuts(cuts[next + i], |Kept(tokens)[i]|)
  }

  /** The cut lists from `next` on belong to the CJK tokens from token k on. */
  ghost predicate CutsAt(tokens: seq<seq<nat>>, cuts: seq<seq<nat>>, next0: nat, k: nat, next: nat)
  {
    && k <= |tokens|
    && next + |Kept(tokens[k..])| == next0 + |Kept(tokens)|
    && CutsFit(tokens[k..], cuts, next)
  }

  /** A first token that is a CJK token takes the cut list at `next`, which fits it; the
      tokens after it take the cut lists that follow. */
  lemma CutsFitNext(token: seq<nat>, rest: seq<seq<nat>>, cuts: seq<seq<nat>>, next: nat)
    requires CutsFit([token] + rest, cuts, next) && token != []
    ensures IsChs(token[0]) ==> next < |cuts| && Preserve.ValidCuts(cuts[next], |token|)
    ensures CutsFit(rest, cuts, next + if IsChs(token[0]) then 1 else 0)
  {
    var all := [token] + rest;
    assert all[0] == token && all[1..] == rest;
    var n := if IsChs(token[0]) then 1 else 0;
    var after := Kept(rest);
    assert Kept(all) == (if n == 1 then [token] else []) + after;
    forall i | 0 <= i < |after|
      ensures Preserve.ValidCuts(cuts[next + n + i], |after[i]|)
    {
      assert after[i] == Kept(all)[n + i];
    }
    if n == 1 {
      assert Kept(all)[0] == token;
    }
  }

  /** A CJK token k takes the cut list at `next`, which fits it. */
  lemma CutsNext(tokens: seq<seq<nat>>, cuts: seq<seq<nat>>, next0: nat, k: nat, next: nat)
    requires CutsAt(tokens, cuts, next0, k, next) && k < |tokens| && tokens[k] != []
    ensures IsChs(tokens[k][0]) ==> next < |cuts| && Preserve.ValidCuts(cuts[next], |tokens[k]|)
    ensures CutsAt(tokens, cuts, next0, k + 1, next + if IsChs(tokens[k][0]) then 1 else 0)
  {
    KeptStep(tokens, k);
    assert tokens[k..] == [tokens[k]] + tokens[k + 1..];
    CutsFitNext(tokens[k], tokens[k + 1..], cuts, next);
  }

  /** The token of the stream `ts` that starts at code point c, where the code points end
      at the strictly rising positions `ends`: its code points end past where it starts,
      the last within `hi`; the cut lists fit the token, and those after it fit the tokens
      after it. */
  lemma TokenAt(ts: seq<nat>, ends: seq<nat>, hi: nat, classes: seq<Class>, c: nat, cuts: seq<seq<nat>>, next: nat)
    requires CodePointEnds(0, ends, hi) && c < |ts| <= |ends|
    requires CutsFit(TokenWords(ts, c, classes, NoSkip), cuts, next)
    ensures var j := TokenEnd(ts, c, classes); var token := ts[c..j];
      && CodePointEnds(Start(ends, c), ends[c..j], hi) && Start(ends, c) < ends[c..j][j - c - 1] <= hi
      && (IsChs(token[0]) ==> next < |cuts| && Preserve.ValidCuts(cuts[next], |token|))
      && CutsFit(TokenWords(ts, j, classes, NoSkip), cuts, next + if IsChs(token[0]) then 1 else 0)
  {
    var j := TokenEnd(ts, c, classes);
    TokenWordsStep(ts, c, classes);
    CutsFitNext(ts[c..j], TokenWords(ts, j, classes, NoSkip), cuts, next);
    SliceEnds(ends, c, j, Start(ends, c), hi);
  }

  /** The words one token of `s` gives in `fit_and_segment`, the token starting at byte
      `begin` and its code points ending at `ends`: a CJK token is cut at the ends of the
      code points the cut list at `next` names, any other token that does not start with
      whitespace is one word, and a whitespace token gives none. */
  ghost function TokenSegments(s: seq<byte>, token: seq<nat>, begin: nat, ends: seq<nat>, space: Class,
                               cuts: seq<seq<nat>>, next: nat): seq<seq<byte>>
    requires |token| == |ends| && |ends| > 0 && CodePointEnds(begin, ends, |s|)
    requires IsChs(token[0]) ==> next < |cuts| && Preserve.ValidCuts(cuts[next], |token|)
  {
    if IsChs(token[0]) then
      CodePointBoundsRise(begin, ends, cuts[next], |s|);
      Pieces(s, CodePointBounds(begin, ends, cuts[next]))
    else if !Holds(space, token[0]) then
      assert begin < ends[|ends| - 1];
      [s[begin..ends[|ends| - 1]]]
    else
      []
  }

  /** The words `fit_and_segment` builds from the tokens of `s` that start at code point c
      or later, `ts` being the code points the reader yields and `ends` where they end:
      the words of each token in turn, the CJK tokens taking the cut lists from `next` on. */
  ghost function SegmentedFrom(s: seq<byte>, ts: seq<nat>, ends: seq<nat>, classes: seq<Class>, space: Class,
                               c: nat, cuts: seq<seq<nat>>, next: nat): seq<seq<byte>>
    requires CodePointEnds(0, ends, |s|) && c <= |ts| <= |ends|
    requires CutsFit(TokenWords(ts, c, classes, NoSkip), cuts, next)
    decreases |ts| - c
  {
    if c == |ts| then []
    else
      var j := TokenEnd(ts, c, classes);
      var token := ts[c..j];
      TokenAt(ts, ends, |s|, classes, c, cuts, next);
      TokenSegments(s, token, Start(ends, c), ends[c..j], space, cuts, next)
        + SegmentedFrom(s, ts, ends, classes, space, j, cuts, next + if IsChs(token[0]) then 1 else 0)
  }

  /** The words of all of `s`, the CJK tokens taking the cut lists from `next` on. */
  ghost function SegmentedWords(s: seq<byte>, alnum: Class, space: Class, cuts: seq<seq<nat>>, next: nat): seq<seq<byte>>
    requires CutsFit(StringTokens(s, alnum, space), cuts, next)
  {
    ReaderStreamPrefix(s);
    DecodeEndsRise(s, 0);
    SegmentedFrom(s, ReaderStream(s), DecodeFrom(s, 0).ends, ByteClasses(alnum, space), space, 0, cuts, next)
  }

  /** No word is empty. */
  predicate NonEmpty(words: seq<seq<byte>>)
  {
    forall i :: 0 <= i < |words| ==> |words[i]| > 0
  }

  /** The words so far put back together are the bytes kept from the tokens before k. */
  ghost predicate JoinedAt(s: seq<byte>, space: Class, tokens: seq<seq<nat>>, b: seq<nat>, k: nat, words: seq<seq<byte>>)
  {
    |b| == |tokens| + 1 && k <= |tokens| && Rising(b, |s|)
    && Join(words) + Unspaced(s, tokens[k..], b[k..], space) == Unspaced(s, tokens, b, space)
  }

  lemma JoinedNext(s: seq<byte>, space: Class, tokens: seq<seq<nat>>, b: seq<nat>, k: nat,
                   words: seq<seq<byte>>, words': seq<seq<byte>>)
    requires JoinedAt(s, space, tokens, b, k, words) && k < |tokens|
    requires Join(words') == Join(words) + TokenBytes(s, tokens[k], b[k], b[k + 1], space)
    ensures JoinedAt(s, space, tokens, b, k + 1, words')
  {
    UnspacedStep(s, tokens, b, space, k);
    var after := Unspaced(s, tokens[k + 1..], b[k + 1..], space);
    Regroup(Join(words), TokenBytes(s, tokens[k], b[k], b[k + 1], space), after, Unspaced(s, tokens, b, space));
  }

  /** Bytes kept so far, then those of one token, then the rest, are the bytes kept so
      far, then those from that token on. */
  lemma Regroup(done: seq<byte>, one: seq<byte>, rest: seq<byte>, all: seq<byte>)
    requires done + (one + rest) == all
    ensures (done + one) + rest == all
  {
  }

  lemma NonEmptyNext(words: seq<seq<byte>>, words': seq<seq<byte>>)
    requires NonEmpty(words)
    requires |words'| >= |words| && words'[..|words|] == words && forall i :: |words| <= i < |words'| ==> |words'[i]| > 0
    ensures NonEmpty(words')
  {
    forall i | 0 <= i < |words|
      ensures |words'[i]| > 0
    {
      assert words'[i] == words[i];
    }
  }

  /** Where the word loop over `s` stands before token k, which starts at code point c and
      byte `begin`: the tokens and cut lists still to come, and the words so far put back
      together. `SegmentedSoFar` below is the rest of the loop's invariant. */
  ghost predicate WordLoop(s: seq<byte>, ts: seq<nat>, ends: seq<nat>, classes: seq<Class>, space: Class,
                           tokens: seq<seq<nat>>, stops: seq<nat>, cuts: seq<seq<nat>>, next0: nat,
                           k: nat, c: nat, begin: nat, words: seq<seq<byte>>, next: nat)
  {
    && CodePointEnds(0, ends, |s|)
    && tokens == TokenWords(ts, 0, classes, NoSkip) && CutsFit(tokens, cuts, next0)
    && Stream(s, ts, ends, tokens, stops) && StreamAt(s, ts, ends, classes, tokens, stops, k, c, begin)
    && CutsAt(tokens, cuts, next0, k, next)
    && JoinedAt(s, space, tokens, [0] + stops, k, words) && NonEmpty(words)
  }

  /** The words so far, followed by those of the tokens from code point c on, which take
      the cut lists from `next` on, are the words of all the tokens. */
  ghost predicate SegmentedSoFar(s: seq<byte>, ts: seq<nat>, ends: seq<nat>, classes: seq<Class>, space: Class,
                                 cuts: seq<seq<nat>>, next0: nat, c: nat, words: seq<seq<byte>>, next: nat)
  {
    && CodePointEnds(0, ends, |s|) && c <= |ts| <= |ends|
    && CutsFit(TokenWords(ts, 0, classes, NoSkip), cuts, next0) && CutsFit(TokenWords(ts, c, classes, NoSkip), cuts, next)
    && words + SegmentedFrom(s, ts, ends, classes, space, c, cuts, next) == SegmentedFrom(s, ts, ends, classes, space, 0, cuts, next0)
  }

  /** Adding the words of the token at code point c keeps the words so far in step. */
  lemma SegmentedSoFarNext(s: seq<byte>, ts: seq<nat>, ends: seq<nat>, classes: seq<Class>, space: Class,
                           cuts: seq<seq<nat>>, next0: nat, c: nat, n: nat, words: seq<seq<byte>>, next: nat,
                           words': seq<seq<byte>>, next': nat)
    requires SegmentedSoFar(s, ts, ends, classes, space, cuts, next0, c, words, next)
    requires TokenAdded(s, ts, ends, classes, space, c, n, cuts, next, words, words', next')
    ensures SegmentedSoFar(s, ts, ends, classes, space, cuts, next0, n, words', next')
  {
    TokenAt(ts, ends, |s|, classes, c, cuts, next);
    SegmentedStep(s, ts, ends, classes, space, c, cuts, next);
    Regroup3(words, TokenSegments(s, ts[c..n], Start(ends, c), ends[c..n], space, cuts, next),
             SegmentedFrom(s, ts, ends, classes, space, n, cuts, next'));
  }

  /** One turn of the word loop: token k goes into the words. */
  method AddNext(s: seq<byte>, ghost ts: seq<nat>, ends: seq<nat>, ghost classes: seq<Class>, space: Class,
                 tokens: seq<seq<nat>>, stops: seq<nat>, cuts: seq<seq<nat>>, ghost next0: nat,
                 k: nat, c: nat, begin: nat, words: seq<seq<byte>>, next: nat)
    returns (words': seq<seq<byte>>, next': nat, c': nat, begin': nat)
    requires k < |tokens| && WordLoop(s, ts, ends, classes, space, tokens, stops, cuts, next0, k, c, begin, words, next)
    requires SegmentedSoFar(s, ts, ends, classes, space, cuts, next0, c, words, next)
    ensures WordLoop(s, ts, ends, classes, space, tokens, stops, cuts, next0, k + 1, c', begin', words', next')
    ensures SegmentedSoFar(s, ts, ends, classes, space, cuts, next0, c', words', next')
  {
    var token := tokens[k];
    var n := c + |token|;
    WordLoopToken(s, ts, ends, classes, space, tokens, stops, cuts, next0, k, c, begin, words, next, n);
    words', next' := AddTokenAt(words, s, ts, ends, classes, space, token, c, n, begin, cuts, next0, next);
    WordLoopNext(s, ts, ends, classes, space, tokens, stops, cuts, next0, k, c, begin, words, next, n, words', next');
    begin', c' := stops[k], n;
  }

  /** Where the word loop stands before token k, that token is the one of the stream at
      code point c and starts at `begin`, and the cut lists left fit the tokens from there. */
  lemma WordLoopToken(s: seq<byte>, ts: seq<nat>, ends: seq<nat>, classes: seq<Class>, space: Class,
                      tokens: seq<seq<nat>>, stops: seq<nat>, cuts: seq<seq<nat>>, next0: nat,
                      k: nat, c: nat, begin: nat, words: seq<seq<byte>>, next: nat, n: nat)
    requires k < |tokens| && WordLoop(s, ts, ends, classes, space, tokens, stops, cuts, next0, k, c, begin, words, next)
    requires n == c + |tokens[k]|
    ensures && CodePointEnds(0, ends, |s|) && c < n <= |ts| <= |ends|
            && n == TokenEnd(ts, c, classes) && tokens[k] == ts[c..n]
            && begin == Start(ends, c) && ends[n - 1] == stops[k]
  {
    TokenNext(ts, classes, tokens, k, c);
    StopNext(ts, ends, classes, stops, k, c);
  }

  /** The words and the next cut list after the words of the token of the stream `ts` at
      code point c, which ends at code point n, are added. */
  ghost predicate TokenAdded(s: seq<byte>, ts: seq<nat>, ends: seq<nat>, classes: seq<Class>, space: Class,
                             c: nat, n: nat, cuts: seq<seq<nat>>, next0: nat,
                             words0: seq<seq<byte>>, words: seq<seq<byte>>, next: nat)
  {
    && CodePointEnds(0, ends, |s|) && c < |ts| <= |ends| && n == TokenEnd(ts, c, classes)
    && CutsFit(TokenWords(ts, c, classes, NoSkip), cuts, next0)
    && (TokenAt(ts, ends, |s|, classes, c, cuts, next0);
        next == next0 + (if IsChs(ts[c..n][0]) then 1 else 0)
        && words == words0 + TokenSegments(s, ts[c..n], Start(ends, c), ends[c..n], space, cuts, next0))
  }

  /** Token k added to the words takes the word loop to token k + 1. */
  lemma WordLoopNext(s: seq<byte>, ts: seq<nat>, ends: seq<nat>, classes: seq<Class>, space: Class,
                     tokens: seq<seq<nat>>, stops: seq<nat>, cuts: seq<seq<nat>>, next0: nat,
                     k: nat, c: nat, begin: nat, words: seq<seq<byte>>, next: nat,
                     n: nat, words': seq<seq<byte>>, next': nat)
    requires k < |tokens| && WordLoop(s, ts, ends, classes, space, tokens, stops, cuts, next0, k, c, begin, words, next)
    requires n == c + |tokens[k]|
    requires |tokens[k]| > 0 && next' == next + (if IsChs(tokens[k][0]) then 1 else 0)
    requires Join(words') == Join(words) + TokenBytes(s, tokens[k], begin, stops[k], space)
    requires |words'| >= |words| && words'[..|words|] == words && forall i :: |words| <= i < |words'| ==> |words'[i]| > 0
    ensures WordLoop(s, ts, ends, classes, space, tokens, stops, cuts, next0, k + 1, n, stops[k], words', next')
  {
    assert StreamAt(s, ts, ends, classes, tokens, stops, k + 1, n, stops[k]) by {
      StreamAdvance(s, ts, ends, classes, tokens, stops, k, c, begin, n);
    }
    assert CutsAt(tokens, cuts, next0, k + 1, next') by {
      TokenNext(ts, classes, tokens, k, c);
      CutsNext(tokens, cuts, next0, k, next);
    }
    assert JoinedAt(s, space, tokens, [0] + stops, k + 1, words') by {
      StreamAdvance(s, ts, ends, classes, tokens, stops, k, c, begin, n);
      assert begin == ([0] + stops)[k] && stops[k] == ([0] + stops)[k + 1];
      JoinedNext(s, space, tokens, [0] + stops, k, words, words');
    }
    assert NonEmpty(words') by {
      NonEmptyNext(words, words');
    }
  }

  /** Before the first token, nothing is done. */
  lemma WordLoopStart(s: seq<byte>, alnum: Class, space: Class, tokens: seq<seq<nat>>, stops: seq<nat>,
                      cuts: seq<seq<nat>>, next0: nat)
    requires Tokenized(s, alnum, space, tokens, stops) && CutsFit(tokens, cuts, next0)
    ensures WordLoop(s, ReaderStream(s), DecodeFrom(s, 0).ends, ByteClasses(alnum, space), space,
                     tokens, stops, cuts, next0, 0, 0, 0, [], next0)
    ensures SegmentedSoFar(s, ReaderStream(s), DecodeFrom(s, 0).ends, ByteClasses(alnum, space), space,
                           cuts, next0, 0, [], next0)
  {
    ReaderStreamPrefix(s);
    StopsRise(s, 0, ByteClasses(alnum, space));
    DecodeEndsRise(s, 0);
    assert tokens[0..] == tokens;
  }

  /** After the last token, the words are all of them. */
  lemma WordLoopEnd(s: seq<byte>, alnum: Class, space: Class, tokens: seq<seq<nat>>, stops: seq<nat>,
                    cuts: seq<seq<nat>>, next0: nat, c: nat, begin: nat, words: seq<seq<byte>>, next: nat)
    requires Tokenized(s, alnum, space, tokens, stops) && CutsFit(tokens, cuts, next0)
    requires WordLoop(s, ReaderStream(s), DecodeFrom(s, 0).ends, ByteClasses(alnum, space), space,
                      tokens, stops, cuts, next0, |tokens|, c, begin, words, next)
    requires SegmentedSoFar(s, ReaderStream(s), DecodeFrom(s, 0).ends, ByteClasses(alnum, space), space,
                            cuts, next0, c, words, next)
    ensures words == SegmentedWords(s, alnum, space, cuts, next0)
    ensures Join(words) == KeptBytes(s, alnum, space) && NonEmpty(words)
    ensures next == next0 + |Kept(tokens)|
  {
    assert tokens[|tokens|..] == [];
  }

  /** `AddToken` on the token of the stream `ts` that starts at code point c and ends at
      code point n: the words so far, followed by those of the tokens from n on, are still
      the words of all the tokens. */
  method AddTokenAt(words0: seq<seq<byte>>, s: seq<byte>, ghost ts: seq<nat>, ends: seq<nat>, ghost classes: seq<Class>,
                    space: Class, token: seq<nat>, c: nat, n: nat, begin: nat, cuts: seq<seq<nat>>,
                    ghost first: nat, next0: nat)
    returns (words: seq<seq<byte>>, next: nat)
    requires SegmentedSoFar(s, ts, ends, classes, space, cuts, first, c, words0, next0)
    requires c < n <= |ts| && n == TokenEnd(ts, c, classes) && token == ts[c..n] && begin == Start(ends, c)
    ensures SegmentedSoFar(s, ts, ends, classes, space, cuts, first, n, words, next)
    ensures next == next0 + (if IsChs(token[0]) then 1 else 0)
    ensures Join(words) == Join(words0) + TokenBytes(s, token, begin, ends[n - 1], space)
    ensures |words| >= |words0| && words[..|words0|] == words0
    ensures forall i :: |words0| <= i < |words| ==> |words[i]| > 0
  {
    TokenAt(ts, ends, |s|, classes, c, cuts, next0);
    words, next := AddToken(words0, s, token, begin, ends[c..n], space, cuts, next0);
    assert ends[c..n][|ends[c..n]| - 1] == ends[n - 1];
    SegmentedSoFarNext(s, ts, ends, classes, space, cuts, first, c, n, words0, next0, words, next);
  }

  /** The words from code point c on: those of the token there, then those after it. */
  lemma SegmentedStep(s: seq<byte>, ts: seq<nat>, ends: seq<nat>, classes: seq<Class>, space: Class,
                      c: nat, cuts: seq<seq<nat>>, next: nat)
    requires CodePointEnds(0, ends, |s|) && c < |ts| <= |ends|
    requires CutsFit(TokenWords(ts, c, classes, NoSkip), cuts, next)
    ensures (TokenAt(ts, ends, |s|, classes, c, cuts, next);
      var j := TokenEnd(ts, c, classes); var token := ts[c..j];
      SegmentedFrom(s, ts, ends, classes, space, c, cuts, next)
        == TokenSegments(s, token, Start(ends, c), ends[c..j], space, cuts, next)
           + SegmentedFrom(s, ts, ends, classes, space, j, cuts, next + if IsChs(token[0]) then 1 else 0))
  {
  }

  lemma Regroup3(a: seq<seq<byte>>, b: seq<seq<byte>>, c: seq<seq<byte>>)
    ensures (a + b) + c == a + (b + c)
  {
  }

  /** The words `fit_and_segment` builds for one string from the tokens and the positions
      the byte tokenizer yields for it, taking cuts from position `next0` of the cut lists
      of all CJK tokens: put back together they are the string's bytes without its
      whitespace tokens, none is empty, and one cut list is used per CJK token. */
  method StringWords(s: seq<byte>, alnum: Class, space: Class, tokens: seq<seq<nat>>, stops: seq<nat>,
                     cuts: seq<seq<nat>>, next0: nat)
    returns (words: seq<seq<byte>>, next: nat)
    requires Tokenized(s, alnum, space, tokens, stops) && CutsFit(tokens, cuts, next0)
    ensures words == SegmentedWords(s, alnum, space, cuts, next0)
    ensures Join(words) == KeptBytes(s, alnum, space) && NonEmpty(words)
    ensures next == next0 + |Kept(tokens)|
  {
    WordLoopStart(s, alnum, space, tokens, stops, cuts, next0);
    ghost var ts, classes := ReaderStream(s), ByteClasses(alnum, space);
    var ends := DecodeFrom(s, 0).ends;
    words, next := [], next0;
    var begin: nat, c: nat := 0, 0;
    for k := 0 to |tokens|
      invariant WordLoop(s, ts, ends, classes, space, tokens, stops, cuts, next0, k, c, begin, words, next)
      invariant SegmentedSoFar(s, ts, ends, classes, space, cuts, next0, c, words, next)
    {
      words, next, c, begin := AddNext(s, ts, ends, classes, space, tokens, stops, cuts, next0, k, c, begin, words, next);
    }
    WordLoopEnd(s, alnum, space, tokens, stops, cuts, next0, c, begin, words, next);
  }

  // -----------------------------------------------------------------------------------------
  // All strings

  /** The tokens the byte tokenizer yields for a string it reads to the end. */
  function StringTokens(s: seq<byte>, alnum: Class, space: Class): seq<seq<nat>>
  {
    TokenWords(ReaderStream(s), 0, ByteClasses(alnum, space), NoSkip)
  }

  /** The position past each of those tokens. */
  function StringStops(s: seq<byte>, alnum: Class, space: Class): seq<nat>
  {
    ReaderStreamPrefix(s);
    TokenStops(ReaderStream(s), DecodeFrom(s, 0).ends, 0, ByteClasses(alnum, space))
  }

  /** The bytes of a string without its whitespace tokens (and without a final NUL, which
      the tokenizer never yields). */
  ghost function KeptBytes(s: seq<byte>, alnum: Class, space: Class): seq<byte>
  {
    ReaderStreamPrefix(s);
    StopsRise(s, 0, ByteClasses(alnum, space));
    Unspaced(s, StringTokens(s, alnum, space), [0] + StringStops(s, alnum, space), space)
  }

  /** The tokens of every string, string by string. */
  function AllTokens(ss: seq<seq<byte>>, alnum: Class, space: Class): seq<seq<seq<nat>>>
  {
    seq(|ss|, i requires 0 <= i < |ss| => StringTokens(ss[i], alnum, space))
  }

  /** Lists that every string's tokenization agrees with are the tokens of all strings. */
  lemma TokenizedAll(ss: seq<seq<byte>>, alnum: Class, space: Class, lists: seq<seq<seq<nat>>>, stopLists: seq<seq<nat>>)
    requires |lists| == |stopLists| == |ss|
    requires forall t :: 0 <= t < |ss| ==> Tokenized(ss[t], alnum, space, lists[t], stopLists[t])
    ensures lists == AllTokens(ss, alnum, space)
  {
  }

  /** The error that stops the first string that does not decode, if any. */
  function FirstError(ss: seq<seq<byte>>): Option<DecodeError>
  {
    if ss == [] then None
    else if DecodeFrom(ss[0], 0).error.Some? then DecodeFrom(ss[0], 0).error
    else FirstError(ss[1..])
  }

  /** No error is reported exactly when every string decodes. */
  lemma {:induction false} FirstErrorNone(ss: seq<seq<byte>>)
    ensures FirstError(ss).None? <==> forall t :: 0 <= t < |ss| ==> DecodeFrom(ss[t], 0).error.None?
  {
    if ss != [] {
      FirstErrorNone(ss[1..]);
      assert forall t :: 1 <= t < |ss| ==> ss[t] == ss[1..][t - 1];
    }
  }

  /** When every string before i decodes, the first error is that of string i, if any. */
  lemma {:induction false} FirstErrorAt(ss: seq<seq<byte>>, i: nat)
    requires i < |ss| && DecodeFrom(ss[i], 0).error.Some?
    requires forall t :: 0 <= t < i ==> DecodeFrom(ss[t], 0).error.None?
    ensures FirstError(ss) == DecodeFrom(ss[i], 0).error
    decreases i
  {
    if i > 0 {
      assert forall t :: 0 <= t < i - 1 ==> ss[1..][t] == ss[t + 1];
      FirstErrorAt(ss[1..], i - 1);
    }
  }

  /** The CJK tokens of every string, one string after another. */
  function KeptAll(lists: seq<seq<seq<nat>>>): (r: seq<seq<nat>>)
    ensures forall k :: 0 <= k < |r| ==> r[k] != [] && IsChs(r[k][0])
  {
    if lists == [] then [] else Kept(lists[0]) + KeptAll(lists[1..])
  }

  lemma {:induction false} KeptAllAppend(a: seq<seq<seq<nat>>>, b: seq<seq<seq<nat>>>)
    ensures KeptAll(a + b) == KeptAll(a) + KeptAll(b)
    decreases |a|
  {
    if a == [] {
      assert a + b == b;
    } else {
      assert (a + b)[0] == a[0] && (a + b)[1..] == a[1..] + b;
      KeptAllAppend(a[1..], b);
      calc {
        KeptAll(a + b);
        Kept(a[0]) + KeptAll(a[1..] + b);
        Kept(a[0]) + (KeptAll(a[1..]) + KeptAll(b));
        (Kept(a[0]) + KeptAll(a[1..])) + KeptAll(b);
      }
    }
  }

  /** `s` decodes, and `tokens` and `stops` are what the byte tokenizer yields for it. */
  ghost predicate Tokenized(s: seq<byte>, alnum: Class, space: Class, tokens: seq<seq<nat>>, stops: seq<nat>)
  {
    DecodeFrom(s, 0).error.None? && tokens == StringTokens(s, alnum, space) && stops == StringStops(s, alnum, space)
  }

  /** One string through the byte tokenizer. */
  method TokenizeString(s: seq<byte>, alnum: Class, space: Class) returns (tokens: seq<seq<nat>>, stops: seq<nat>, err: Option<DecodeError>)
    ensures err == DecodeFrom(s, 0).error
    ensures err.None? ==> Tokenized(s, alnum, space, tokens, stops)
  {
    tokens, stops, err := TokenizeBytes(s, alnum, space);
  }

  /** The first loop of `fit_and_segment`, which reads every string through the byte
      tokenizer (the counter is fed from it): the tokens and positions of every string, or
      the error of the first string that does not decode. */
  method TokenizeAll(ss: seq<seq<byte>>, alnum: Class, space: Class)
    returns (lists: seq<seq<seq<nat>>>, stopLists: seq<seq<nat>>, err: Option<DecodeError>)
    ensures err == FirstError(ss)
    ensures err.None? ==> |lists| == |stopLists| == |ss|
    ensures err.None? ==> forall t :: 0 <= t < |ss| ==> Tokenized(ss[t], alnum, space, lists[t], stopLists[t])
  {
    lists, stopLists := [], [];
    for i := 0 to |ss|
      invariant |lists| == |stopLists| == i
      invariant forall t :: 0 <= t < i ==> Tokenized(ss[t], alnum, space, lists[t], stopLists[t])
    {
      var tokens, stops, e := TokenizeString(ss[i], alnum, space);
      if e.Some? {
        FirstErrorAt(ss, i);
        return [], [], e;
      }
      lists, stopLists := lists + [tokens], stopLists + [stops];
    }
    err := None;
    FirstErrorNone(ss);
  }

  /** From position `next` on, the cut lists fit the CJK tokens of the strings `rest`. */
  ghost predicate CutsFrom(rest: seq<seq<seq<nat>>>, cuts: seq<seq<nat>>, next: nat)
  {
    && next + |KeptAll(rest)| <= |cuts|
    && forall k :: 0 <= k < |KeptAll(rest)| ==> Preserve.ValidCuts(cuts[next + k], |KeptAll(rest)[k]|)
  }

  /** The CJK tokens of string i take the cut lists from `next` on; the strings after it
      take those that follow. */
  lemma CutsFromNext(lists: seq<seq<seq<nat>>>, cuts: seq<seq<nat>>, i: nat, next: nat)
    requires i < |lists| && CutsFrom(lists[i..], cuts, next)
    ensures CutsFit(lists[i], cuts, next) && CutsFrom(lists[i + 1..], cuts, next + |Kept(lists[i])|)
  {
    var rest := lists[i..];
    assert rest[0] == lists[i] && rest[1..] == lists[i + 1..];
    var mine, after := Kept(lists[i]), KeptAll(lists[i + 1..]);
    assert KeptAll(rest) == mine + after;
    forall j | 0 <= j < |mine|
      ensures Preserve.ValidCuts(cuts[next + j], |mine[j]|)
    {
      assert KeptAll(rest)[j] == mine[j];
    }
    forall k | 0 <= k < |after|
      ensures Preserve.ValidCuts(cuts[next + |mine| + k], |after[k]|)
    {
      assert KeptAll(rest)[|mine| + k] == after[k];
    }
  }

  /** The CJK tokens of the strings before string i + 1: those before string i, then
      those of string i. */
  lemma KeptAllPrefix(lists: seq<seq<seq<nat>>>, i: nat)
    requires i < |lists|
    ensures KeptAll(lists[..i + 1]) == KeptAll(lists[..i]) + Kept(lists[i])
  {
    var one: seq<seq<seq<nat>>> := [lists[i]];
    assert lists[..i + 1] == lists[..i] + one;
    KeptAllAppend(lists[..i], one);
    assert one[1..] == [];
  }

  /** `words` is the word list of string t, its CJK tokens taking the cut lists after
      those of the strings before it. */
  ghost predicate ListedAs(ss: seq<seq<byte>>, alnum: Class, space: Class, lists: seq<seq<seq<nat>>>,
                           cuts: seq<seq<nat>>, t: nat, words: seq<seq<byte>>)
    requires t < |ss| == |lists|
  {
    && CutsFit(StringTokens(ss[t], alnum, space), cuts, |KeptAll(lists[..t])|)
    && words == SegmentedWords(ss[t], alnum, space, cuts, |KeptAll(lists[..t])|)
    && Join(words) == KeptBytes(ss[t], alnum, space) && NonEmpty(words)
  }

  /** Appending the word list of the next string keeps every word list in its place. */
  lemma ListedSnoc(ss: seq<seq<byte>>, alnum: Class, space: Class, lists: seq<seq<seq<nat>>>,
                   cuts: seq<seq<nat>>, wordLists: seq<seq<seq<byte>>>, words: seq<seq<byte>>)
    requires |wordLists| < |ss| == |lists|
    requires forall t :: 0 <= t < |wordLists| ==> ListedAs(ss, alnum, space, lists, cuts, t, wordLists[t])
    requires ListedAs(ss, alnum, space, lists, cuts, |wordLists|, words)
    ensures var w := wordLists + [words];
      forall t :: 0 <= t < |w| ==> ListedAs(ss, alnum, space, lists, cuts, t, w[t])
  {
    var w := wordLists + [words];
    forall t | 0 <= t < |w|
      ensures ListedAs(ss, alnum, space, lists, cuts, t, w[t])
    {
      if t < |wordLists| {
        assert w[t] == wordLists[t];
      }
    }
  }

  /** One turn of the last loop: the word list of string i, whose CJK tokens take the cut
      lists from `next` on. */
  method ListNext(ss: seq<seq<byte>>, alnum: Class, space: Class, lists: seq<seq<seq<nat>>>, stopLists: seq<seq<nat>>,
                  cuts: seq<seq<nat>>, i: nat, next: nat)
    returns (words: seq<seq<byte>>, next': nat)
    requires i < |lists| == |stopLists| == |ss|
    requires Tokenized(ss[i], alnum, space, lists[i], stopLists[i])
    requires CutsFrom(lists[i..], cuts, next) && next == |KeptAll(lists[..i])|
    ensures CutsFrom(lists[i + 1..], cuts, next') && next' == |KeptAll(lists[..i + 1])|
    ensures ListedAs(ss, alnum, space, lists, cuts, i, words)
  {
    CutsFromNext(lists, cuts, i, next);
    KeptAllPrefix(lists, i);
    words, next' := StringWords(ss[i], alnum, space, lists[i], stopLists[i], cuts, next);
  }

  /** Every string has a word list, that of string t cutting its CJK tokens with the cut
      lists after those of the CJK tokens of the strings before it. */
  ghost predicate SegmentedAll(ss: seq<seq<byte>>, alnum: Class, space: Class, lists: seq<seq<seq<nat>>>,
                               cuts: seq<seq<nat>>, wordLists: seq<seq<seq<byte>>>)
  {
    && |wordLists| == |ss| == |lists|
    && forall t :: 0 <= t < |ss| ==>
      && CutsFit(StringTokens(ss[t], alnum, space), cuts, |KeptAll(lists[..t])|)
      && wordLists[t] == SegmentedWords(ss[t], alnum, space, cuts, |KeptAll(lists[..t])|)
  }

  /** The last loop of `fit_and_segment`: the word list of every string, the CJK tokens
      taking the cut lists in order, so that those of string t start after the cut lists
      of the CJK tokens of the strings before it. Put back together, each string's words
      are its bytes without its whitespace tokens, and no word is empty. */
  method WordLists(ss: seq<seq<byte>>, alnum: Class, space: Class, lists: seq<seq<seq<nat>>>, stopLists: seq<seq<nat>>,
                   cuts: seq<seq<nat>>)
    returns (wordLists: seq<seq<seq<byte>>>)
    requires |lists| == |stopLists| == |ss|
    requires forall t :: 0 <= t < |ss| ==> Tokenized(ss[t], alnum, space, lists[t], stopLists[t])
    requires CutsFrom(lists, cuts, 0)
    ensures |wordLists| == |ss|
    ensures SegmentedAll(ss, alnum, space, lists, cuts, wordLists)
    ensures forall t :: 0 <= t < |ss| ==> Join(wordLists[t]) == KeptBytes(ss[t], alnum, space) && NonEmpty(wordLists[t])
  {
    wordLists := [];
    var next := 0;
    assert lists[0..] == lists && lists[..0] == [];
    for i := 0 to |ss|
      invariant |wordLists| == i && CutsFrom(lists[i..], cuts, next) && next == |KeptAll(lists[..i])|
      invariant forall t :: 0 <= t < i ==> ListedAs(ss, alnum, space, lists, cuts, t, wordLists[t])
    {
      var words;
      words, next := ListNext(ss, alnum, space, lists, stopLists, cuts, i, next);
      ListedSnoc(ss, alnum, space, lists, cuts, wordLists, words);
      wordLists := wordLists + [words];
    }
    forall t | 0 <= t < |ss|
      ensures && CutsFit(StringTokens(ss[t], alnum, space), cuts, |KeptAll(lists[..t])|)
              && wordLists[t] == SegmentedWords(ss[t], alnum, space, cuts, |KeptAll(lists[..t])|)
      ensures Join(wordLists[t]) == KeptBytes(ss[t], alnum, space) && NonEmpty(wordLists[t])
    {
      assert ListedAs(ss, alnum, space, lists, cuts, t, wordLists[t]);
    }
  }
}
