/** UTF-8 decoding as the three decoders of the repository do it: the free function
    `decode_utf8` of include/esapp/internal/decode_utf8.hpp, the `utf8_decode_iterator` of
    src/utf8_decode_iterator.hpp and the `utf8_decode_iterator` of
    include/esapp/internal/utf8_decode_iterator.hpp. All three classify the lead byte by
    the masks of section 3 of RFC 3629, keep its payload bits and append 6 bits from each
    continuation byte. They check neither for overlong forms nor for surrogates nor for
    values past U+10FFFF. */
module Utf8 {
  import opened Options
  // Bit masks on a byte are written as the equivalent arithmetic on its value: `b & 0xE0
  // == 0xC0` is `b / 32 == 6`, `b & 0x1F` is `b % 32`, `b & 0x3F` is `b % 64`.

  /** A byte of the input `std::string`. */
  newtype byte = b: int | 0 <= b < 256

  /** `invalid_byte_sequence` and `std::out_of_range`. */
  datatype DecodeError = InvalidByteSequence | OutOfRange

  /** One decoding step from a position: the code point and the position just past its
      last byte, or the error and the position of the byte that caused it (the end of the
      input for `OutOfRange`). */
  datatype Decoded = Char(cp: nat, end: nat) | Fail(error: DecodeError, at: nat)

  /** The continuation bytes a lead byte announces and the payload bits it keeps, or
      `None` for a byte that cannot start a sequence. The decoders test the masks of
      section 3 of RFC 3629 (`b & 0x80 == 0`, `b & 0xE0 == 0xC0`, `b & 0xF0 == 0xE0`,
      `b & 0xF8 == 0xF0`) and keep `b & 0x1F`, `b & 0x0F` or `b & 0x07`: on a byte value
      these are the ranges below and the remainders modulo 32, 16 and 8. */
  function Lead(b: byte): (r: Option<(nat, nat)>)
    ensures r.Some? ==> r.value.0 <= 3
  {
    if b < 0x80 then Some((0, b as nat))
    else if 0xC0 <= b < 0xE0 then Some((1, (b - 0xC0) as nat))
    else if 0xE0 <= b < 0xF0 then Some((2, (b - 0xE0) as nat))
    else if 0xF0 <= b < 0xF8 then Some((3, (b - 0xF0) as nat))
    else None
  }

  /** A continuation byte has the form `10xxxxxx` (`b & 0xC0 == 0x80`). */
  predicate IsContinuation(b: byte)
  {
    0x80 <= b < 0xC0
  }

  /** The bits of a byte past a `10` marker (`b & 0x3F`). */
  function Low6(b: byte): (v: nat)
    ensures v < 64
  {
    b as nat % 64
  }

  /** Reading `k` more continuation bytes from `j` onto the value `acc`. */
  function Continue(s: seq<byte>, j: nat, k: nat, acc: nat): (r: Decoded)
    requires j <= |s|
    ensures r.Char? ==> r.end == j + k <= |s|
    ensures r.Fail? ==> j <= r.at <= |s| && r.at < j + k
    decreases k
  {
    if k == 0 then Char(acc, j)
    else if j == |s| then Fail(OutOfRange, j)
    else if !IsContinuation(s[j]) then Fail(InvalidByteSequence, j)
    else Continue(s, j + 1, k - 1, acc * 64 + Low6(s[j]))
  }

  /** The code point whose encoding starts at `i`, as all three decoders compute it. */
  function DecodeAt(s: seq<byte>, i: nat): (r: Decoded)
    requires i < |s|
    ensures r.Char? ==> i < r.end <= |s|
    ensures r.Fail? ==> i <= r.at <= |s|
  {
    match Lead(s[i])
    case None => Fail(InvalidByteSequence, i)
    case Some((k, v)) => Continue(s, i + 1, k, v)
  }

  // -----------------------------------------------------------------------------------------
  // The encoding of section 3 of RFC 3629, and the decoder as its inverse

  /** The shortest-form UTF-8 encoding of a code point up to U+10FFFF: the lead byte
      carries the bits above the last 6, 12 or 18, each continuation byte 6 more. */
  function Encode(cp: nat): (e: seq<byte>)
    requires cp <= 0x10FFFF
    ensures 1 <= |e| <= 4
  {
    var r1 := cp / 64;
    var r2 := r1 / 64;
    var r3 := r2 / 64;
    if cp < 0x80 then [cp as byte]
    else if cp < 0x800 then [(0xC0 + r1) as byte, Cont(cp)]
    else if cp < 0x10000 then [(0xE0 + r2) as byte, Cont(r1), Cont(cp)]
    else [(0xF0 + r3) as byte, Cont(r2), Cont(r1), Cont(cp)]
  }

  /** The continuation byte carrying the low 6 bits of `x`. */
  function Cont(x: nat): (b: byte)
    ensures IsContinuation(b) && Low6(b) == x % 64
  {
    (0x80 + x % 64) as byte
  }

  /** One continuation byte read. */
  lemma ContinueStep(s: seq<byte>, j: nat, k: nat, acc: nat)
    requires j < |s| && k > 0 && IsContinuation(s[j])
    ensures Continue(s, j, k, acc) == Continue(s, j + 1, k - 1, acc * 64 + Low6(s[j]))
  {
  }

  /** Decoding reverses the encoding of section 3 of RFC 3629: the bytes of `Encode(cp)`,
      whatever follows them, decode to `cp` and end exactly after the encoding. */
  lemma DecodeEncode(cp: nat, rest: seq<byte>)
    requires cp <= 0x10FFFF
    ensures DecodeAt(Encode(cp) + rest, 0) == Char(cp, |Encode(cp)|)
  {
    var s := Encode(cp) + rest;
    var r1 := cp / 64;
    var r2 := r1 / 64;
    var r3 := r2 / 64;
    if cp < 0x80 {
    } else if cp < 0x800 {
      ContinueStep(s, 1, 1, r1);
    } else if cp < 0x10000 {
      ContinueStep(s, 1, 2, r2);
      ContinueStep(s, 2, 1, r1);
    } else {
      ContinueStep(s, 1, 3, r3);
      ContinueStep(s, 2, 2, r2);
      ContinueStep(s, 3, 1, r1);
    }
  }

  /** The decoders are not strict: the four-byte overlong form of any code point below
      U+10000, which section 3 of RFC 3629 forbids, decodes to that code point. */
  lemma DecodeOverlong(cp: nat, rest: seq<byte>)
    requires cp < 0x10000
    ensures DecodeAt([0xF0, Cont(cp / 64 / 64), Cont(cp / 64), Cont(cp)] + rest, 0) == Char(cp, 4)
  {
    var r1 := cp / 64;
    var r2 := r1 / 64;
    var s := [0xF0, Cont(r2), Cont(r1), Cont(cp)] + rest;
    assert Lead(s[0]) == Some((3, 0));
    assert r2 < 16 && Low6(s[1]) == r2;
    assert r2 * 64 + Low6(s[2]) == r1;
    assert r1 * 64 + Low6(s[3]) == cp;
    ContinueStep(s, 1, 3, 0);
    ContinueStep(s, 2, 2, r2);
    ContinueStep(s, 3, 1, r1);
  }

  /** Every step that continues from a value below `m` ends below `m` times 64 per byte. */
  lemma {:induction false} ContinueBound(s: seq<byte>, j: nat, k: nat, acc: nat, m: nat)
    requires j <= |s| && acc < m
    ensures var r := Continue(s, j, k, acc); r.Char? ==> r.cp < m * Pow64(k)
    decreases k
  {
    if k > 0 && j < |s| && IsContinuation(s[j]) {
      var b := Low6(s[j]);
      ContinueBound(s, j + 1, k - 1, acc * 64 + b, m * 64);
      assert m * 64 * Pow64(k - 1) == m * Pow64(k);
    }
  }

  function Pow64(k: nat): nat
  {
    if k == 0 then 1 else 64 * Pow64(k - 1)
  }

  /** What one decoding step can produce: a code point of at most 21 bits (so the `uint32_t`
      shifts of the decoders never lose a bit) taking 1 to 4 bytes as the lead byte
      announces; an `invalid_byte_sequence` at the lead byte exactly when it is neither
      `0xxxxxxx`, `110xxxxx`, `1110xxxx` nor `11110xxx`; otherwise an error at a later
      byte that is not `10xxxxxx`, or `out_of_range` at the end of the input. */
  lemma DecodeShape(s: seq<byte>, i: nat)
    requires i < |s|
    ensures var r := DecodeAt(s, i);
      && (r.Char? ==> Lead(s[i]).Some? && r.end == i + 1 + Lead(s[i]).value.0 && r.cp < 0x200000)
      && (r.Fail? && r.at == i <==> Lead(s[i]).None?)
      && (r.Fail? && r.at > i ==> r.at <= i + 3 && (if r.at == |s| then r.error == OutOfRange
                                                   else r.error == InvalidByteSequence && !IsContinuation(s[r.at])))
  {
    match Lead(s[i])
    case None =>
    case Some((k, v)) =>
      ContinueBound(s, i + 1, k, v, if k == 0 then 128 else if k == 1 then 32 else if k == 2 then 16 else 8);
      ContinueFails(s, i + 1, k, v);
  }

  /** Where a continuation fails: out of range at the end, otherwise at a byte that is not
      a continuation byte. */
  lemma {:induction false} ContinueFails(s: seq<byte>, j: nat, k: nat, acc: nat)
    requires j <= |s|
    ensures var r := Continue(s, j, k, acc);
      r.Fail? ==> if r.at == |s| then r.error == OutOfRange else r.error == InvalidByteSequence && !IsContinuation(s[r.at])
    decreases k
  {
    if k > 0 && j < |s| && IsContinuation(s[j]) {
      ContinueFails(s, j + 1, k - 1, acc * 64 + Low6(s[j]));
    }
  }

  /** `decode_utf8(it, end)`: `it` must not be at the end. On success `it` ends past the
      last byte read; an invalid lead byte throws before `it` moves; a missing or invalid
      continuation byte throws with `it` at the end or on that byte. The `char` bytes are
      sign-extended into the result, which only sets bits that the masks clear. */
  method DecodeUtf8(s: seq<byte>, it0: nat) returns (r: Decoded, it: nat)
    requires it0 < |s|
    ensures r == DecodeAt(s, it0)
    ensures it == if r.Char? then r.end else r.at
  {
    var lead := s[it0] as nat;
    var codepoint := lead;
    var byteNeeded: nat := 0;
    if lead / 0x80 == 0 {
      assert Lead(s[it0]) == Some((0, codepoint));
    } else if lead / 0x20 == 0x06 {
      byteNeeded := 1;
      codepoint := lead % 0x20;
      assert Lead(s[it0]) == Some((1, codepoint));
    } else if lead / 0x10 == 0x0E {
      byteNeeded := 2;
      codepoint := lead % 0x10;
      assert Lead(s[it0]) == Some((2, codepoint));
    } else if lead / 0x08 == 0x1E {
      byteNeeded := 3;
      codepoint := lead % 0x08;
      assert Lead(s[it0]) == Some((3, codepoint));
    } else {
      return Fail(InvalidByteSequence, it0), it0;
    }
    it := it0 + 1;
    ghost var target := DecodeAt(s, it0);
    while byteNeeded > 0
      invariant it <= |s| && Continue(s, it, byteNeeded, codepoint) == target
    {
      if it == |s| {
        return Fail(OutOfRange, it), it;
      }
      var byte := s[it] as nat;
      if byte / 0x40 != 0x02 {
        return Fail(InvalidByteSequence, it), it;
      }
      ContinueStep(s, it, byteNeeded, codepoint);
      codepoint := codepoint * 0x40 + byte % 0x40;
      it := it + 1;
      byteNeeded := byteNeeded - 1;
    }
    r := Char(codepoint, it);
  }

  // -----------------------------------------------------------------------------------------
  // Whole inputs

  /** The code points decoded one after another from `i`, the position past each, and the
      error that stopped decoding, if any. */
  datatype Decoding = Decoding(cps: seq<nat>, ends: seq<nat>, error: Option<DecodeError>)

  function DecodeFrom(s: seq<byte>, i: nat): (d: Decoding)
    requires i <= |s|
    ensures |d.cps| == |d.ends|
    decreases |s| - i
  {
    if i == |s| then Decoding([], [], None)
    else match DecodeAt(s, i)
      case Fail(e, _) => Decoding([], [], Some(e))
      case Char(cp, e) =>
        var d := DecodeFrom(s, e);
        Decoding([cp] + d.cps, [e] + d.ends, d.error)
  }

  /** The shortest-form encodings of `cps`, one after another. */
  function EncodeAll(cps: seq<nat>): seq<byte>
    requires forall k :: 0 <= k < |cps| ==> cps[k] <= 0x10FFFF
  {
    if cps == [] then [] else Encode(cps[0]) + EncodeAll(cps[1..])
  }

  /** Whatever precedes it, the encoding of a code point decodes to it. */
  lemma DecodeEncodeAt(s: seq<byte>, i: nat, cp: nat)
    requires cp <= 0x10FFFF && i + |Encode(cp)| <= |s| && s[i..i + |Encode(cp)|] == Encode(cp)
    ensures DecodeAt(s, i) == Char(cp, i + |Encode(cp)|)
  {
    var t := s[i..];
    assert t == Encode(cp) + t[|Encode(cp)|..];
    DecodeEncode(cp, t[|Encode(cp)|..]);
    ShiftDecode(s, i);
  }

  /** Decoding from `i` only looks at the bytes from `i` on. */
  lemma ShiftDecode(s: seq<byte>, i: nat)
    requires i < |s|
    ensures DecodeAt(s, i) == match DecodeAt(s[i..], 0)
      case Char(cp, e) => Char(cp, e + i)
      case Fail(x, at) => Fail(x, at + i)
  {
    match Lead(s[i])
    case None =>
    case Some((k, v)) => ShiftContinue(s, i, 1, k, v);
  }

  lemma {:induction false} ShiftContinue(s: seq<byte>, i: nat, j: nat, k: nat, acc: nat)
    requires i + j <= |s|
    ensures Continue(s, i + j, k, acc) == match Continue(s[i..], j, k, acc)
      case Char(cp, e) => Char(cp, e + i)
      case Fail(x, at) => Fail(x, at + i)
    decreases k
  {
    if k > 0 && i + j < |s| {
      assert s[i..][j] == s[i + j];
      ShiftContinue(s, i, j + 1, k - 1, acc * 64 + Low6(s[i + j]));
    }
  }

  /** Decoding reverses `EncodeAll`: the encoding of any sequence of code points up to
      U+10FFFF decodes, without error, to exactly that sequence. */
  lemma {:induction false} DecodeEncodeAll(cps: seq<nat>, s: seq<byte>, i: nat)
    requires forall k :: 0 <= k < |cps| ==> cps[k] <= 0x10FFFF
    requires i <= |s| && s[i..] == EncodeAll(cps)
    ensures DecodeFrom(s, i).cps == cps && DecodeFrom(s, i).error == None
    decreases |cps|
  {
    if cps == [] {
      assert |s[i..]| == 0;
    } else {
      var n := |Encode(cps[0])|;
      SplitEncoding(cps, s, i);
      DecodeEncodeAt(s, i, cps[0]);
      assert DecodeAt(s, i).end == i + n && DecodeAt(s, i).cp == cps[0];
      DecodeEncodeAll(cps[1..], s, i + n);
      DecodeFromStep(s, i);
      assert DecodeFrom(s, i).cps == [cps[0]] + cps[1..] == cps;
    }
  }

  lemma SplitEncoding(cps: seq<nat>, s: seq<byte>, i: nat)
    requires forall k :: 0 <= k < |cps| ==> cps[k] <= 0x10FFFF
    requires cps != [] && i <= |s| && s[i..] == EncodeAll(cps)
    ensures i + |Encode(cps[0])| <= |s|
    ensures s[i..i + |Encode(cps[0])|] == Encode(cps[0])
    ensures s[i + |Encode(cps[0])|..] == EncodeAll(cps[1..])
  {
    var n := |Encode(cps[0])|;
    assert s[i..] == Encode(cps[0]) + EncodeAll(cps[1..]);
    assert s[i..i + n] == s[i..][..n];
    assert s[i + n..] == s[i..][n..];
  }

  /** Decoding a whole input goes one code point at a time. */
  lemma DecodeFromStep(s: seq<byte>, i: nat)
    requires i < |s| && DecodeAt(s, i).Char?
    ensures DecodeFrom(s, i).cps == [DecodeAt(s, i).cp] + DecodeFrom(s, DecodeAt(s, i).end).cps
    ensures DecodeFrom(s, i).error == DecodeFrom(s, DecodeAt(s, i).end).error
  {
  }

  // -----------------------------------------------------------------------------------------
  // The generator-style decoder of src/utf8_decode_iterator.hpp

  /** The `uint32_t` a `char` byte becomes when assigned to `char_`: bytes from 0x80 up are
      negative `char`s and sign-extend. The masks only read the low 8 bits, which are the
      byte's own. */
  function Widen(b: byte): (c: nat)
    ensures c % 0x100 == b as nat
  {
    if b < 0x80 then b as nat else b as nat + 0xFFFF_FF00
  }

  /** `utf8_decode_iterator` over a `std::string`: the bytes, the position of the inner
      generator and the current code point `char_`. */
  class Utf8Reader {
    const bytes: seq<byte>
    var pos: nat
    var ch: nat

    predicate Valid()
      reads this
    {
      pos <= |bytes|
    }

    /** `valid()`: bytes remain or the current code point is not U+0000. */
    predicate More()
      reads this
    {
      pos < |bytes| || ch != 0
    }

    /** The iterator before its first `next()`. */
    constructor Raw(s: seq<byte>)
      ensures bytes == s && pos == 0 && ch == 0 && Valid()
    {
      bytes := s;
      pos := 0;
      ch := 0;
    }

    /** The constructor: positions on the string's start and decodes the first code point,
        which may throw. */
    static method Open(s: seq<byte>) returns (r: Utf8Reader, err: Option<DecodeError>)
      ensures fresh(r) && r.bytes == s && r.Valid()
      ensures s == [] ==> err == None && r.pos == 0 && r.ch == 0
      ensures s != [] ==> match DecodeAt(s, 0)
        case Char(c, e) => err == None && r.pos == e && r.ch == c
        case Fail(x, at) => err == Some(x) && r.pos == (if at == 0 then 1 else at)
    {
      r := new Utf8Reader.Raw(s);
      err := r.Next();
    }

    /** `next()`: at the end, `char_` becomes 0; otherwise the lead byte is taken and the
        generator moves past it before it is classified, so an invalid lead byte throws
        with the position one past it; each continuation byte is checked by `NextByte`. */
    method Next() returns (err: Option<DecodeError>)
      requires Valid()
      modifies this
      ensures Valid()
      ensures old(pos) == |bytes| ==> err == None && pos == |bytes| && ch == 0
      ensures old(pos) < |bytes| ==> match DecodeAt(bytes, old(pos))
        case Char(c, e) => err == None && pos == e && ch == c
        case Fail(x, at) => err == Some(x) && pos == (if at == old(pos) then at + 1 else at)
    {
      if pos == |bytes| {
        ch := 0;
        return None;
      }
      ghost var start := pos;
      var lead := bytes[pos];
      ch := Widen(lead);
      pos := pos + 1;
      var byteNeeded: nat := 0;
      if lead as nat / 0x80 == 0 {
        assert Lead(lead) == Some((0, ch));
      } else if lead as nat / 0x20 == 0x06 {
        byteNeeded := 1;
        ch := ch % 0x20;
        assert Lead(lead) == Some((1, ch));
      } else if lead as nat / 0x10 == 0x0E {
        byteNeeded := 2;
        ch := ch % 0x10;
        assert Lead(lead) == Some((2, ch));
      } else if lead as nat / 0x08 == 0x1E {
        byteNeeded := 3;
        ch := ch % 0x08;
        assert Lead(lead) == Some((3, ch));
      } else {
        return Some(InvalidByteSequence);
      }
      err := Continuations(byteNeeded);
    }

    /** The loop of `next()`: `k` times, `char_` is shifted left 6 bits and the low 6 bits
        of the next continuation byte are or-ed in. */
    method Continuations(k: nat) returns (err: Option<DecodeError>)
      requires Valid()
      modifies `pos, `ch
      ensures Valid()
      ensures match Continue(bytes, old(pos), k, old(ch))
        case Char(c, e) => err == None && pos == e && ch == c
        case Fail(x, at) => err == Some(x) && pos == at
    {
      var byteNeeded := k;
      var cp: nat := ch;
      ghost var target := Continue(bytes, pos, k, ch);
      while byteNeeded > 0
        invariant pos <= |bytes|
        invariant Continue(bytes, pos, byteNeeded, cp) == target
      {
        ghost var p := pos;
        ghost var acc := cp;
        cp := cp * 0x40;
        ch := cp;
        var b;
        b, err := NextByte();
        if err.Some? {
          return;
        }
        ContinueStep(bytes, p, byteNeeded, acc);
        cp := cp + b as nat % 0x40;
        byteNeeded := byteNeeded - 1;
      }
      ch := cp;
      err := None;
    }

    /** `next_byte()`: `out_of_range` at the end, `invalid_byte_sequence` on a byte that is
        not `10xxxxxx`; otherwise the byte, with the generator moved past it. */
    method NextByte() returns (b: byte, err: Option<DecodeError>)
      requires Valid()
      modifies `pos
      ensures Valid()
      ensures old(pos) == |bytes| ==> err == Some(OutOfRange) && pos == old(pos)
      ensures old(pos) < |bytes| && !IsContinuation(bytes[old(pos)]) ==> err == Some(InvalidByteSequence) && pos == old(pos)
      ensures old(pos) < |bytes| && IsContinuation(bytes[old(pos)]) ==> err == None && b == bytes[old(pos)] && pos == old(pos) + 1
    {
      if pos == |bytes| {
        return 0, Some(OutOfRange);
      }
      b := bytes[pos];
      if b as nat / 0x40 != 0x02 {
        return b, Some(InvalidByteSequence);
      }
      pos := pos + 1;
      err := None;
    }
  }

  /** The first `k` elements of `cps`, without a last U+0000 when nothing failed: the
      reader's `valid()` is false once the bytes are used up and `char_` is 0, so a string
      ending in a NUL byte loses that code point. */
  function Trim(cps: seq<nat>, error: Option<DecodeError>): seq<nat>
  {
    if error.None? && |cps| > 0 && cps[|cps| - 1] == 0 then cps[..|cps| - 1] else cps
  }

  /** Iterating a reader over `s` until `valid()` fails or `next()` throws: every code point
      of `s` in order, except a final U+0000, and the error that stopped it. */
  method ReadAll(s: seq<byte>) returns (cps: seq<nat>, err: Option<DecodeError>)
    ensures err == DecodeFrom(s, 0).error
    ensures cps == Trim(DecodeFrom(s, 0).cps, err)
  {
    var r;
    r, err := Utf8Reader.Open(s);
    cps := [];
    if err.Some? {
      return;
    }
    ghost var all := DecodeFrom(s, 0);
    while r.More()
      invariant fresh(r) && r.Valid() && r.bytes == s
      invariant ReaderState(s, cps, r.pos, r.ch)
      decreases |s| - r.pos, r.ch
    {
      cps := cps + [r.ch];
      ghost var p := r.pos;
      err := r.Next();
      if err.Some? {
        assert DecodeFrom(s, p).cps == [] && DecodeFrom(s, p).error == err;
        return;
      }
    }
    err := None;
    assert DecodeFrom(s, r.pos) == Decoding([], [], None);
  }

  /** Where the loop of `ReadAll` stands: `cps` yielded, then either `ch` and what follows
      `pos`, or nothing more. */
  ghost predicate ReaderState(s: seq<byte>, cps: seq<nat>, pos: nat, ch: nat)
    requires pos <= |s|
  {
    var all := DecodeFrom(s, 0);
    var d := DecodeFrom(s, pos);
    || (all.cps == cps + [ch] + d.cps && all.error == d.error)
    || (pos == |s| && ch == 0 && all.cps == cps && all.error == None && (cps == [] || cps[|cps| - 1] != 0))
  }

  // -----------------------------------------------------------------------------------------
  // The iterator adaptor of include/esapp/internal/utf8_decode_iterator.hpp

  /** `utf8_decode_iterator` over a byte range: the bytes, the base iterator, which rests
      on the last byte of the current code point, and `codepoint_`. Two such iterators
      compare equal when their base iterators do; the end iterator is the one built on the
      end of the range. */
  class Utf8Cursor {
    const bytes: seq<byte>
    var base: nat
    var cp: nat

    predicate Valid()
      reads this
    {
      base <= |bytes|
    }

    /** Equal to the end iterator. */
    predicate AtEnd()
      reads this
    {
      base == |bytes|
    }

    constructor Raw(s: seq<byte>, it: nat)
      requires it <= |s|
      ensures bytes == s && base == it && cp == 0 && Valid()
    {
      bytes := s;
      base := it;
      cp := 0;
    }

    /** The constructor: `codepoint_` starts at 0 and the code point at `it` is decoded,
        which may throw. */
    static method Open(s: seq<byte>, it: nat) returns (r: Utf8Cursor, err: Option<DecodeError>)
      requires it <= |s|
      ensures fresh(r) && r.bytes == s && r.Valid()
      ensures it == |s| ==> err == None && r.base == it && r.cp == 0
      ensures it < |s| ==> match DecodeAt(s, it)
        case Char(c, e) => err == None && r.base == e - 1 && r.cp == c
        case Fail(x, at) => err == Some(x) && r.base == at
    {
      r := new Utf8Cursor.Raw(s, it);
      err := r.NextCodepoint();
    }

    /** `increment()`: steps past the last byte of the current code point and decodes the
        next one. Incrementing the end iterator is undefined. */
    method Increment() returns (err: Option<DecodeError>)
      requires Valid() && !AtEnd()
      modifies this
      ensures Valid()
      ensures old(base) + 1 == |bytes| ==> err == None && base == |bytes| && cp == 0
      ensures old(base) + 1 < |bytes| ==> match DecodeAt(bytes, old(base) + 1)
        case Char(c, e) => err == None && base == e - 1 && cp == c
        case Fail(x, at) => err == Some(x) && base == at
    {
      base := base + 1;
      err := NextCodepoint();
    }

    /** `next_codepoint()`: at the end `codepoint_` becomes 0; otherwise the lead byte is
        classified where the base iterator stands, so an invalid lead byte throws without
        moving it. */
    method NextCodepoint() returns (err: Option<DecodeError>)
      requires Valid()
      modifies this
      ensures Valid()
      ensures old(base) == |bytes| ==> err == None && base == |bytes| && cp == 0
      ensures old(base) < |bytes| ==> match DecodeAt(bytes, old(base))
        case Char(c, e) => err == None && base == e - 1 && cp == c
        case Fail(x, at) => err == Some(x) && base == at
    {
      if base == |bytes| {
        cp := 0;
        return None;
      }
      var lead := bytes[base];
      cp := Widen(lead);
      var byteNeeded: nat := 0;
      if lead as nat / 0x80 == 0 {
        assert Lead(lead) == Some((0, cp));
      } else if lead as nat / 0x20 == 0x06 {
        byteNeeded := 1;
        cp := cp % 0x20;
        assert Lead(lead) == Some((1, cp));
      } else if lead as nat / 0x10 == 0x0E {
        byteNeeded := 2;
        cp := cp % 0x10;
        assert Lead(lead) == Some((2, cp));
      } else if lead as nat / 0x08 == 0x1E {
        byteNeeded := 3;
        cp := cp % 0x08;
        assert Lead(lead) == Some((3, cp));
      } else {
        return Some(InvalidByteSequence);
      }
      err := Continuations(byteNeeded);
    }

    /** The loop of `next_codepoint()`: `k` times, `codepoint_` is shifted left 6 bits and
        the low 6 bits of the next continuation byte are or-ed in. */
    method Continuations(k: nat) returns (err: Option<DecodeError>)
      requires base < |bytes|
      modifies `base, `cp
      ensures Valid()
      ensures match Continue(bytes, old(base) + 1, k, old(cp))
        case Char(c, e) => err == None && base == e - 1 && cp == c
        case Fail(x, at) => err == Some(x) && base == at
    {
      var byteNeeded := k;
      var acc: nat := cp;
      ghost var target := Continue(bytes, base + 1, k, cp);
      while byteNeeded > 0
        invariant base < |bytes|
        invariant Continue(bytes, base + 1, byteNeeded, acc) == target
      {
        ghost var p := base + 1;
        ghost var before := acc;
        acc := acc * 0x40;
        cp := acc;
        var b;
        b, err := NextByte();
        if err.Some? {
          return;
        }
        ContinueStep(bytes, p, byteNeeded, before);
        acc := acc + b as nat % 0x40;
        byteNeeded := byteNeeded - 1;
      }
      cp := acc;
      err := None;
    }

    /** `next_byte()`: the base iterator moves first; then `out_of_range` if it reached the
        end, `invalid_byte_sequence` if the byte there is not `10xxxxxx`. */
    method NextByte() returns (b: byte, err: Option<DecodeError>)
      requires base < |bytes|
      modifies `base
      ensures base == old(base) + 1 && Valid()
      ensures base == |bytes| ==> err == Some(OutOfRange)
      ensures base < |bytes| && !IsContinuation(bytes[base]) ==> err == Some(InvalidByteSequence)
      ensures base < |bytes| && IsContinuation(bytes[base]) ==> err == None && b == bytes[base]
    {
      base := base + 1;
      if base == |bytes| {
        return 0, Some(OutOfRange);
      }
      b := bytes[base];
      if b as nat / 0x40 != 0x02 {
        return b, Some(InvalidByteSequence);
      }
      err := None;
    }
  }

  /** Iterating from the start of `s` to the end iterator: every code point of `s` in order,
      NUL included, and the error that stopped it. */
  method CursorAll(s: seq<byte>) returns (cps: seq<nat>, err: Option<DecodeError>)
    ensures err == DecodeFrom(s, 0).error
    ensures cps == DecodeFrom(s, 0).cps
  {
    var r;
    r, err := Utf8Cursor.Open(s, 0);
    cps := [];
    if err.Some? {
      return;
    }
    while !r.AtEnd()
      invariant fresh(r) && r.Valid() && r.bytes == s && err == None
      invariant r.base < |s| ==> DecodeFrom(s, 0).cps == cps + [r.cp] + DecodeFrom(s, r.base + 1).cps
                                 && DecodeFrom(s, 0).error == DecodeFrom(s, r.base + 1).error
      invariant r.base == |s| ==> DecodeFrom(s, 0).cps == cps && DecodeFrom(s, 0).error == None
      decreases |s| - r.base
    {
      cps := cps + [r.cp];
      ghost var p := r.base + 1;
      err := r.Increment();
      if err.Some? {
        assert DecodeFrom(s, p).cps == [] && DecodeFrom(s, p).error == err;
        return;
      }
    }
  }
}
