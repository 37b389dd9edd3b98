/**
  Reading back what `write` produces (nslocalized/store.py): the escapes
  `escape_string` emits decode to the original characters, and the lines
  of a written table parse to its entries again.
 */
module RoundTrip {
  import opened Wrappers
  import opened Text
  import opened Entries
  import opened Patterns
  import opened Utils
  import opened Lexer

  /** Characters `escape_string` writes as `\x` with two hex digits. */
  predicate IsByteEscape(c: char) {
    InEscapeClass(c) && c as int !in CEscapes && c as int <= 0xFF
  }

  /**
    The reader takes every hex digit after `\x`, so a `\xHH` escape must not
    be followed by a hex digit for the round trip to hold.
   */
  predicate HexSafe(s: string)
    decreases |s|
  {
    |s| <= 1 || ((IsByteEscape(s[0]) ==> !IsHexDigit(s[1])) && HexSafe(s[1..]))
  }

  /**
    Why `HexSafe` is needed: U+0001 then `a` is written `\x01a`, and the
    reader's `\x` takes all three hex digits and yields U+001A.
   */
  lemma ByteEscapeAbsorbsHexDigit()
    ensures Escaped("\U{1}a") == "\\x01a" && !HexSafe("\U{1}a")
    ensures Escape("", "\\x01a\"", 1) == Ok(Handled("\U{1A}", 5, None))
  {
    ByteEscapeWritten();
    ByteEscapeRead();
  }

  lemma ByteEscapeWritten()
    ensures Escaped("\U{1}a") == "\\x01a" && !HexSafe("\U{1}a")
  {
    var s := "\U{1}a";
    var c, a := s[0], s[1..];
    assert a == "a";
    ByteEscapeOf(c);
    PlainOf(a);
    assert Escaped(s) == EscapeChar(c) + Escaped(a);
    assert IsByteEscape(s[0]) && IsHexDigit(s[1]);
  }

  lemma ByteEscapeOf(c: char)
    requires c == '\U{1}'
    ensures EscapeChar(c) == "\\x01"
  {
    assert InEscapeClass(c) && c as int !in CEscapes && c as int <= 0xFF;
    HexDigitsOne();
    assert EscapeSequence(c as int) == "\\x" + HexDigits(1, 2);
  }

  lemma HexDigitsOne()
    ensures Pow16(2) == 256 && HexDigits(1, 2) == "01"
  {
    assert Pow16(0) == 1;
    assert Pow16(1) == 16;
    assert Pow16(2) == 256;
    var z := HexDigits(0, 0);
    assert z == "";
    var a := HexDigits(0, 1);
    assert a == z + [LowerHexDigit(0)];
    assert LowerHexDigit(0) == '0';
    assert a == "0";
    var b := HexDigits(1, 2);
    assert b == a + [LowerHexDigit(1)];
    assert LowerHexDigit(1) == '1';
  }

  lemma PlainOf(a: string)
    requires a == "a"
    ensures Escaped(a) == "a"
  {
    assert a[1..] == "";
  }

  lemma ByteEscapeRead()
    ensures Escape("", "\\x01a\"", 1) == Ok(Handled("\U{1A}", 5, None))
  {
    var line := "\\x01a\"";
    assert HexRunEnd(line, 5) == 5;
    assert HexRunEnd(line, 2) == 5;
    assert line[2..5] == "01a";
    assert HexValue("01a") == 0x1A by {
      assert "01a"[..2] == "01" && "01"[..1] == "0" && "0"[..0] == "";
    }
    assert line[1] == 'x' && 'x' !in ControlEscapes;
    assert MatchHex(line, 2) == Some(5);
    assert HexEscape("", line, 2, 'x') == Ok(Handled("" + [0x1A as char], 5, None));
    assert "" + [0x1A as char] == "\U{1A}";
    assert Escape("", line, 1) == HexEscape("", line, 2, 'x');
  }

  /** `HexSafe` position by position: no byte escape is followed by a hex digit. */
  lemma {:induction false} HexSafeIff(s: string)
    ensures HexSafe(s) <==> forall k :: 0 <= k < |s| - 1 && IsByteEscape(s[k]) ==> !IsHexDigit(s[k + 1])
    decreases |s|
  {
    if |s| > 1 {
      HexSafeIff(s[1..]);
      assert forall k :: 1 <= k < |s| ==> s[1..][k - 1] == s[k];
    }
  }

  /** The scan for a backslash or quote stops at the first one. */
  lemma {:induction false} SearchFinds(line: string, pos: nat, q: nat)
    requires pos <= q < |line| && (line[q] == '\\' || line[q] == '"')
    requires forall i :: pos <= i < q ==> line[i] != '\\' && line[i] != '"'
    ensures SearchQuoteOrBackslash(line, pos) == Some(q)
    decreases q - pos
  {
    if pos < q {
      SearchFinds(line, pos + 1, q);
    }
  }

  /** The first character of an escaped string. */
  lemma {:induction false} EscapedHead(s: string)
    requires s != []
    ensures Escaped(s) != [] && Escaped(s)[0] == (if InEscapeClass(s[0]) then '\\' else s[0])
  {
  }

  /** The escape sequence `es` written for `c` from `at` to `q` decodes to `c`. */
  lemma {:induction false} EscapeDecodes(chunks: string, line: string, at: nat, c: char, es: string, x: string, q: nat)
    requires InEscapeClass(c) && es == EscapeSequence(c as int)
    requires q == at + |es| && q <= |line| && line[at..q] == es
    requires IsByteEscape(c) && q < |line| ==> !IsHexDigit(line[q])
    requires x == chunks + [c]
    ensures Escape(chunks, line, at + 1) == Ok(Handled(x, q, None))
  {
    assert line[at + 1] == es[1];
    if c as int in CEscapes {
      NamedDecodes(chunks, line, at + 1, c);
    } else if c as int <= 0xFF {
      ByteEscapeDecodes(chunks, line, at, c, es, es[2..], x, q);
    } else {
      WideEscapeDecodes(chunks, line, at, c, es, es[2..], x, q);
    }
  }

  /** `\x` and the two hex digits `digits` of `c`. */
  lemma {:induction false} ByteEscapeDecodes(chunks: string, line: string, at: nat, c: char, es: string, digits: string, x: string, q: nat)
    requires c as int !in CEscapes && c as int <= 0xFF && es == EscapeSequence(c as int)
    requires q == at + |es| && q <= |line| && line[at..q] == es
    requires q < |line| ==> !IsHexDigit(line[q])
    requires |es| >= 2 && digits == es[2..] && x == chunks + [c]
    ensures Escape(chunks, line, at + 1) == Ok(Handled(x, q, None))
  {
    EscapeSequenceForm(c as int);
    assert line[at + 1] == es[1];
    assert line[at + 2..q] == digits;
    ByteDecodes(chunks, line, at + 1, c, digits);
  }

  /** `\u` or `\U` and the hex digits `digits` of `c`. */
  lemma {:induction false} WideEscapeDecodes(chunks: string, line: string, at: nat, c: char, es: string, digits: string, x: string, q: nat)
    requires c as int !in CEscapes && c as int > 0xFF && es == EscapeSequence(c as int)
    requires q == at + |es| && q <= |line| && line[at..q] == es
    requires |es| >= 2 && digits == es[2..] && x == chunks + [c]
    ensures Escape(chunks, line, at + 1) == Ok(Handled(x, q, None))
  {
    EscapeSequenceForm(c as int);
    assert line[at + 1] == es[1];
    assert line[at + 2..q] == digits;
    WideDecodes(chunks, line, at + 1, c, digits);
  }

  /** `\a` … `\v`, `\"` and `\\`. */
  lemma {:induction false} NamedDecodes(chunks: string, line: string, p: nat, c: char)
    requires c as int in CEscapes && p < |line| && line[p] == CEscapes[c as int]
    ensures Escape(chunks, line, p) == Ok(Handled(chunks + [c], p + 1, None))
  {
    var l := CEscapes[c as int];
    if c == '"' || c == '\\' {
      assert l == c && l !in ControlEscapes;
    } else {
      assert l in ControlEscapes && ControlEscapes[l] == c;
    }
  }

  /** `\x` and two hex digits, followed by something that is not a hex digit. */
  lemma {:induction false} ByteDecodes(chunks: string, line: string, p: nat, c: char, digits: string)
    requires p + 3 <= |line| && line[p] == 'x' && line[p + 1..p + 3] == digits
    requires forall i :: 0 <= i < |digits| ==> IsHexDigit(digits[i])
    requires HexValue(digits) == c as int
    requires p + 3 < |line| ==> !IsHexDigit(line[p + 3])
    ensures Escape(chunks, line, p) == Ok(Handled(chunks + [c], p + 3, None))
  {
    assert forall i :: p + 1 <= i < p + 3 ==> line[i] == digits[i - p - 1];
    assert HexRunEnd(line, p + 1) == p + 3;
  }

  /** `\u` with four or `\U` with eight hex digits. */
  lemma {:induction false} WideDecodes(chunks: string, line: string, p: nat, c: char, digits: string)
    requires p + 1 + |digits| <= |line| && line[p + 1..p + 1 + |digits|] == digits
    requires (|digits| == 4 && line[p] == 'u') || (|digits| == 8 && line[p] == 'U')
    requires forall i :: 0 <= i < |digits| ==> IsHexDigit(digits[i])
    requires HexValue(digits) == c as int
    ensures Escape(chunks, line, p) == Ok(Handled(chunks + [c], p + 1 + |digits|, None))
  {
    assert forall i :: p + 1 <= i < p + 1 + |digits| ==> line[i] == digits[i - p - 1];
  }
  /** A turn that stores nothing leaves the rest of the line to the next turn. */
  lemma {:induction false} RunLineSkip(lx: Lexer, line: string, pos: nat, lx2: Lexer, pos2: nat)
    requires pos < |line| && Consistent(lx)
    requires Step(lx, line, pos) == Next(lx2, pos2, None)
    ensures RunLine(lx, line, pos) == RunLine(lx2, line, pos2)
  {
    var rest := RunLine(lx2, line, pos2);
    assert [] + rest.stored == rest.stored;
  }

  /** The variables once a quoted string `v` is closed in state `InKey` or `InTarget`. */
  function Closed(lx: Lexer, v: string): Lexer
    requires lx.state in {InKey, InTarget}
  {
    if lx.state == InKey then lx.(state := ExpectingEquals, chunks := v, key := Some(v), skipNl := false)
    else lx.(state := ExpectingSemicolon, chunks := v, target := Some(v), skipNl := false)
  }

  /** The variables while a quoted string is still open, with `v` decoded so far. */
  function Open(lx: Lexer, v: string): Lexer
    requires lx.state in {InKey, InTarget}
  {
    if lx.state == InKey then lx.(chunks := v, key := None, skipNl := false)
    else lx.(chunks := v, target := None, skipNl := false)
  }

  /** Closing a string that is still open forgets what was decoded before. */
  lemma {:induction false} ClosedOpen(lx: Lexer, x: string, v: string)
    requires lx.state in {InKey, InTarget}
    ensures Open(lx, x).state == lx.state
    ensures Open(lx, x).chunks == x && (Consistent(lx) ==> Consistent(Open(lx, x)))
    ensures Closed(Open(lx, x), v) == Closed(lx, v)
  {
  }

  /** A turn in `InKey` or `InTarget` is one call of `handle_string`. */
  lemma {:induction false} StringTurn(lx: Lexer, line: string, pos: nat)
    requires pos < |line| && Consistent(lx) && lx.state in {InKey, InTarget}
    requires HandleString(lx.chunks, line, pos).Ok?
    ensures var h := HandleString(lx.chunks, line, pos).value;
      Step(lx, line, pos) == Next(if h.value.Some? then Closed(lx, h.chunks) else Open(lx, h.chunks), h.pos, None)
  {
  }

  /** The turn that meets the closing quote after a run of plain characters. */
  lemma {:induction false} TurnCloses(lx: Lexer, line: string, pos: nat, s: string)
    requires Consistent(lx) && lx.state in {InKey, InTarget}
    requires forall j :: 0 <= j < |s| ==> !InEscapeClass(s[j])
    requires pos + |s| < |line| && line[pos..pos + |s|] == s && line[pos + |s|] == '"'
    ensures Step(lx, line, pos) == Next(Closed(lx, lx.chunks + s), pos + |s| + 1, None)
  {
    assert forall i :: pos <= i < pos + |s| ==> line[i] == s[i - pos];
    SearchFinds(line, pos, pos + |s|);
    StringTurn(lx, line, pos);
  }

  /** `handle_string` meeting a backslash at `i` after the run `s`: the run is kept and the escape after the backslash decoded. */
  lemma {:induction false} HandleAtBackslash(chunks: string, line: string, pos: nat, i: nat, s: string, h: Handled)
    requires pos < |line| && SearchQuoteOrBackslash(line, pos) == Some(i)
    requires line[i] == '\\' && i + 1 < |line| && line[pos..i] == s
    requires Escape(chunks + s, line, i + 1) == Ok(h)
    ensures HandleString(chunks, line, pos) == Ok(h)
  {
  }

  /** The scan from `pos` passes a run `s` of characters outside the escape class and stops right after it. */
  lemma {:induction false} ScanPlain(line: string, pos: nat, s: string, at: nat)
    requires forall j :: 0 <= j < |s| ==> !InEscapeClass(s[j])
    requires at == pos + |s| && at < |line| && line[pos..at] == s
    requires line[at] == '\\' || line[at] == '"'
    ensures SearchQuoteOrBackslash(line, pos) == Some(at)
  {
    assert forall i :: pos <= i < at ==> line[i] == s[i - pos];
    SearchFinds(line, pos, at);
  }

  /**
    What the turn at `pos` meets: the run `plain` up to the backslash at
    `at`, and the escape of `c`, which ends at `q`; `y` is what was decoded
    before the backslash and `x` what is decoded after the escape.
   */
  lemma {:induction false} EscapeFound(chunks: string, line: string, pos: nat, plain: string, c: char, es: string,
                                       y: string, x: string, at: nat, q: nat)
    requires forall j :: 0 <= j < |plain| ==> !InEscapeClass(plain[j])
    requires InEscapeClass(c) && es == EscapeSequence(c as int)
    requires at == pos + |plain| && q == at + |es| && q <= |line|
    requires line[pos..at] == plain && line[at..q] == es
    requires IsByteEscape(c) && q < |line| ==> !IsHexDigit(line[q])
    requires y == chunks + plain && x == y + [c]
    ensures SearchQuoteOrBackslash(line, pos) == Some(at)
    ensures line[at] == '\\' && at + 1 < |line|
    ensures Escape(y, line, at + 1) == Ok(Handled(x, q, None))
  {
    assert line[at] == '\\' by {
      assert line[at] == line[at..q][0];
    }
    ScanPlain(line, pos, plain, at);
    EscapeDecodes(y, line, at, c, es, x, q);
  }

  /** The turn that copies the run `plain` before the backslash at `at` and decodes the escape after it. */
  lemma {:induction false} EscapeTurn(lx: Lexer, line: string, pos: nat, at: nat, plain: string, y: string, x: string, q: nat)
    requires Consistent(lx) && lx.state in {InKey, InTarget}
    requires pos < |line| && SearchQuoteOrBackslash(line, pos) == Some(at)
    requires line[at] == '\\' && at + 1 < |line| && line[pos..at] == plain
    requires y == lx.chunks + plain && Escape(y, line, at + 1) == Ok(Handled(x, q, None))
    ensures Step(lx, line, pos) == Next(Open(lx, x), q, None)
  {
    HandleAtBackslash(lx.chunks, line, pos, at, plain, Handled(x, q, None));
    StringTurn(lx, line, pos);
  }

  /** The turns over a run `p` of plain characters and the closing quote. */
  lemma {:induction false} CloseRun(lx: Lexer, line: string, pos: nat, p: string, v: string, e: nat)
    requires Consistent(lx) && lx.state in {InKey, InTarget}
    requires forall j :: 0 <= j < |p| ==> !InEscapeClass(p[j])
    requires pos + |p| < |line| && line[pos..pos + |p|] == p && line[pos + |p|] == '"'
    requires v == lx.chunks + p && e == pos + |p| + 1
    ensures RunLine(lx, line, pos) == RunLine(Closed(lx, v), line, e)
  {
    TurnCloses(lx, line, pos, p);
    RunLineSkip(lx, line, pos, Closed(lx, v), e);
  }

  /** The turn over a run `p` of plain characters and the escape `es` of `c`, which starts at `at` and ends at `q`. */
  lemma {:induction false} EscapeRun(lx: Lexer, line: string, pos: nat, p: string, c: char, es: string, x: string, at: nat, q: nat)
    requires Consistent(lx) && lx.state in {InKey, InTarget}
    requires forall j :: 0 <= j < |p| ==> !InEscapeClass(p[j])
    requires InEscapeClass(c) && es == EscapeSequence(c as int)
    requires at == pos + |p| && q == at + |es| && q <= |line|
    requires line[pos..at] == p && line[at..q] == es
    requires IsByteEscape(c) && q < |line| ==> !IsHexDigit(line[q])
    requires x == lx.chunks + p + [c]
    ensures RunLine(lx, line, pos) == RunLine(Open(lx, x), line, q)
  {
    EscapeStep(lx, line, pos, p, c, es, x, at, q);
    RunLineSkip(lx, line, pos, Open(lx, x), q);
  }

  /** The one turn over a run `p` of plain characters and the escape `es` of `c`. */
  lemma {:induction false} EscapeStep(lx: Lexer, line: string, pos: nat, p: string, c: char, es: string, x: string, at: nat, q: nat)
    requires Consistent(lx) && lx.state in {InKey, InTarget}
    requires forall j :: 0 <= j < |p| ==> !InEscapeClass(p[j])
    requires InEscapeClass(c) && es == EscapeSequence(c as int)
    requires at == pos + |p| && q == at + |es| && q <= |line|
    requires line[pos..at] == p && line[at..q] == es
    requires IsByteEscape(c) && q < |line| ==> !IsHexDigit(line[q])
    requires x == lx.chunks + p + [c]
    ensures pos < |line| && Step(lx, line, pos) == Next(Open(lx, x), q, None)
  {
    var y := lx.chunks + p;
    EscapeFound(lx.chunks, line, pos, p, c, es, y, x, at, q);
    EscapeTurn(lx, line, pos, at, p, y, x, q);
  }

  /** Three consecutive slices of a line. */
  lemma {:induction false} SliceParts(line: string, pos: nat, a: string, b: string, c: string)
    requires pos + |a| + |b| + |c| <= |line| && line[pos..pos + |a| + |b| + |c|] == a + b + c
    ensures line[pos..pos + |a|] == a
    ensures line[pos + |a|..pos + |a| + |b|] == b
    ensures line[pos + |a| + |b|..pos + |a| + |b| + |c|] == c
  {
    assert forall i :: pos <= i < pos + |a| + |b| + |c| ==> line[i] == (a + b + c)[i - pos];
  }

  /**
    `handle_string`, turn after turn, from `pos`, where the line holds a run
    `p` of characters outside the escape class, then `t`: what
    `escape_string` made of `s`, and the closing quote. The string read is
    `v`, that is `p + s` after the chunks so far, and the turn after the
    closing quote starts at `e`.
   */
  lemma {:induction false} DecodeFrom(lx: Lexer, line: string, pos: nat, p: string, s: string, t: string, v: string, e: nat)
    requires Consistent(lx) && lx.state in {InKey, InTarget}
    requires forall j :: 0 <= j < |p| ==> !InEscapeClass(p[j])
    requires HexSafe(s) && t == Escaped(s) + "\""
    requires pos + |p| + |t| <= |line| && line[pos..pos + |p| + |t|] == p + t
    requires v == lx.chunks + p + s && e == pos + |p| + |t|
    ensures RunLine(lx, line, pos) == RunLine(Closed(lx, v), line, e)
    decreases |s|, 3
  {
    if s == [] {
      DecodeClose(lx, line, pos, p, s, t, v, e);
    } else if !InEscapeClass(s[0]) {
      DecodePlain(lx, line, pos, p, s, t, v, e);
    } else {
      DecodeEscape(lx, line, pos, p, s, t, v, e);
    }
  }

  /** The closing quote right after the run `p`. */
  lemma {:induction false} DecodeClose(lx: Lexer, line: string, pos: nat, p: string, s: string, t: string, v: string, e: nat)
    requires Consistent(lx) && lx.state in {InKey, InTarget}
    requires forall j :: 0 <= j < |p| ==> !InEscapeClass(p[j])
    requires HexSafe(s) && t == Escaped(s) + "\""
    requires pos + |p| + |t| <= |line| && line[pos..pos + |p| + |t|] == p + t
    requires v == lx.chunks + p + s && e == pos + |p| + |t|
    requires s == []
    ensures RunLine(lx, line, pos) == RunLine(Closed(lx, v), line, e)
  {
    assert t == "\"";
    SliceParts(line, pos, p, t, []);
    NoSuffix(lx.chunks + p, s);
    CloseRun(lx, line, pos, p, v, e);
  }

  /** A character outside the escape class extends the run `p`. */
  lemma {:induction false} DecodePlain(lx: Lexer, line: string, pos: nat, p: string, s: string, t: string, v: string, e: nat)
    requires Consistent(lx) && lx.state in {InKey, InTarget}
    requires forall j :: 0 <= j < |p| ==> !InEscapeClass(p[j])
    requires HexSafe(s) && t == Escaped(s) + "\""
    requires pos + |p| + |t| <= |line| && line[pos..pos + |p| + |t|] == p + t
    requires v == lx.chunks + p + s && e == pos + |p| + |t|
    requires s != [] && !InEscapeClass(s[0])
    ensures RunLine(lx, line, pos) == RunLine(Closed(lx, v), line, e)
    decreases |s|, 2
  {
    var p1, rest := p + [s[0]], s[1..];
    var t1 := Escaped(rest) + "\"";
    PlainShift(s);
    PlainRun(p, s[0], p1);
    HexSafeTail(s, rest);
    PlainLine(line, pos, p, t, s[0], p1, t1);
    CharsAssoc(lx.chunks, p, s[0], rest, s);
    DecodeFrom(lx, line, pos, p1, rest, t1, v, e);
  }

  /** The run grows by one character outside the escape class. */
  lemma {:induction false} PlainRun(p: string, c: char, p1: string)
    requires forall j :: 0 <= j < |p| ==> !InEscapeClass(p[j])
    requires !InEscapeClass(c) && p1 == p + [c]
    ensures forall j :: 0 <= j < |p1| ==> !InEscapeClass(p1[j])
  {
  }

  lemma {:induction false} HexSafeTail(s: string, rest: string)
    requires HexSafe(s) && s != [] && rest == s[1..]
    ensures HexSafe(rest)
  {
  }

  /** The line seen as the longer run `p1` and the shorter rest `t1`. */
  lemma {:induction false} PlainLine(line: string, pos: nat, p: string, t: string, c: char, p1: string, t1: string)
    requires t == [c] + t1 && p1 == p + [c]
    requires pos + |p| + |t| <= |line| && line[pos..pos + |p| + |t|] == p + t
    ensures pos + |p1| + |t1| == pos + |p| + |t| && line[pos..pos + |p1| + |t1|] == p1 + t1
  {
    Shift(p, [c], t, t1);
  }

  /** An escape ends the turn that began at `pos`; the next turn starts after it. */
  lemma {:induction false} DecodeEscape(lx: Lexer, line: string, pos: nat, p: string, s: string, t: string, v: string, e: nat)
    requires Consistent(lx) && lx.state in {InKey, InTarget}
    requires forall j :: 0 <= j < |p| ==> !InEscapeClass(p[j])
    requires HexSafe(s) && t == Escaped(s) + "\""
    requires pos + |p| + |t| <= |line| && line[pos..pos + |p| + |t|] == p + t
    requires v == lx.chunks + p + s && e == pos + |p| + |t|
    requires s != [] && InEscapeClass(s[0])
    ensures RunLine(lx, line, pos) == RunLine(Closed(lx, v), line, e)
    decreases |s|, 2
  {
    var c, rest := s[0], s[1..];
    var es := EscapeSequence(c as int);
    var t1 := Escaped(rest) + "\"";
    var at := pos + |p|;
    var q := at + |es|;
    var x := lx.chunks + p + [c];
    EscapeAhead(line, pos, p, s, t, c, es, rest, t1, at, q);
    NextChunks(lx.chunks + p, s, c, rest, v, x);
    EscapeTail(lx, line, pos, p, c, es, x, at, q, rest, t1, v, e, |s|);
  }

  /** The turn that ends with the escape of `c`, then the turns over what `escape_string` made of `rest`. */
  lemma {:induction false} EscapeTail(lx: Lexer, line: string, pos: nat, p: string, c: char, es: string, x: string,
                                      at: nat, q: nat, rest: string, t1: string, v: string, e: nat, n: nat)
    requires Consistent(lx) && lx.state in {InKey, InTarget}
    requires forall j :: 0 <= j < |p| ==> !InEscapeClass(p[j])
    requires InEscapeClass(c) && es == EscapeSequence(c as int)
    requires at == pos + |p| && q == at + |es| && q <= |line|
    requires line[pos..at] == p && line[at..q] == es
    requires IsByteEscape(c) && q < |line| ==> !IsHexDigit(line[q])
    requires x == lx.chunks + p + [c]
    requires HexSafe(rest) && t1 == Escaped(rest) + "\""
    requires q + |t1| <= |line| && line[q..q + |t1|] == t1
    requires v == x + rest && e == q + |t1| && n == |rest| + 1
    ensures RunLine(lx, line, pos) == RunLine(Closed(lx, v), line, e)
    decreases n, 1
  {
    EscapeRun(lx, line, pos, p, c, es, x, at, q);
    OpenTail(lx, x, line, q, rest, t1, v, e, n);
  }

  /** The turns after an escape: a new run starts from the chunks decoded so far. */
  lemma {:induction false} OpenTail(lx: Lexer, x: string, line: string, q: nat, rest: string, t1: string, v: string, e: nat, n: nat)
    requires Consistent(lx) && lx.state in {InKey, InTarget}
    requires HexSafe(rest) && t1 == Escaped(rest) + "\""
    requires q + |t1| <= |line| && line[q..q + |t1|] == t1
    requires v == x + rest && e == q + |t1| && n == |rest| + 1
    ensures RunLine(Open(lx, x), line, q) == RunLine(Closed(lx, v), line, e)
    decreases n, 0
  {
    var none: string := [];
    var lx1 := Open(lx, x);
    ClosedOpen(lx, x, v);
    NoPrefix(line, q, t1);
    assert v == lx1.chunks + none + rest;
    DecodeFrom(lx1, line, q, none, rest, t1, v, e);
  }

  /** The layout around the escape of `s[0]`: what the turn meets, and what is left for the next one. */
  lemma {:induction false} EscapeAhead(line: string, pos: nat, p: string, s: string, t: string,
                                       c: char, es: string, rest: string, t1: string, at: nat, q: nat)
    requires HexSafe(s) && t == Escaped(s) + "\""
    requires pos + |p| + |t| <= |line| && line[pos..pos + |p| + |t|] == p + t
    requires s != [] && InEscapeClass(s[0])
    requires c == s[0] && rest == s[1..] && es == EscapeSequence(c as int) && t1 == Escaped(rest) + "\""
    requires at == pos + |p| && q == at + |es|
    ensures q <= |line| && line[pos..at] == p && line[at..q] == es
    ensures IsByteEscape(c) && q < |line| ==> !IsHexDigit(line[q])
    ensures HexSafe(rest)
    ensures q + |t1| <= |line| && line[q..q + |t1|] == t1 && pos + |p| + |t| == q + |t1|
  {
    EscapeShift(s);
    EscapeLayout(line, pos, p, t, es, t1, at, q);
    AfterEscape(s, c, rest, t1);
    FirstOf(line, q, t1);
  }

  /** The string decoded so far, before and after the escape of `c`. */
  lemma {:induction false} NextChunks(a: string, s: string, c: char, rest: string, v: string, x: string)
    requires s != [] && c == s[0] && rest == s[1..]
    requires v == a + s && x == a + [c]
    ensures v == x + rest
  {
    assert s == [c] + rest;
  }

  /** A slice `p + es + t1` of a line, taken apart at `at` and `q`. */
  lemma {:induction false} EscapeLayout(line: string, pos: nat, p: string, t: string, es: string, t1: string, at: nat, q: nat)
    requires pos + |p| + |t| <= |line| && line[pos..pos + |p| + |t|] == p + t
    requires t == es + t1 && at == pos + |p| && q == at + |es|
    ensures q + |t1| <= |line| && line[pos..at] == p && line[at..q] == es && line[q..q + |t1|] == t1
    ensures pos + |p| + |t| == q + |t1|
  {
    Shift(p, es, t, t1);
    SliceParts(line, pos, p, es, t1);
  }

  /** The first character of a slice. */
  lemma {:induction false} FirstOf(line: string, q: nat, t1: string)
    requires t1 != [] && q + |t1| <= |line| && line[q..q + |t1|] == t1
    ensures line[q] == t1[0]
  {
    assert line[q..q + |t1|][0] == line[q];
  }

  /** `escape_string` on a string that starts with a character outside the escape class. */
  lemma {:induction false} PlainShift(s: string)
    requires s != [] && !InEscapeClass(s[0])
    ensures Escaped(s) + "\"" == [s[0]] + (Escaped(s[1..]) + "\"")
  {
    Assoc(Escaped(s), [s[0]], Escaped(s[1..]), "\"");
  }

  /** `escape_string` on a string that starts with an escape-class character. */
  lemma {:induction false} EscapeShift(s: string)
    requires s != [] && InEscapeClass(s[0])
    ensures Escaped(s) + "\"" == EscapeSequence(s[0] as int) + (Escaped(s[1..]) + "\"")
  {
    Assoc(Escaped(s), EscapeSequence(s[0] as int), Escaped(s[1..]), "\"");
  }

  /** What follows a `\xHH` escape is not a hex digit. */
  lemma {:induction false} AfterEscape(s: string, c: char, rest: string, t1: string)
    requires HexSafe(s) && s != [] && c == s[0] && rest == s[1..] && t1 == Escaped(rest) + "\""
    ensures HexSafe(rest)
    ensures t1 != [] && (IsByteEscape(c) ==> !IsHexDigit(t1[0]))
  {
    if rest != [] {
      EscapedHead(rest);
      assert s[1] == rest[0];
    }
  }

  lemma {:induction false} Assoc(e: string, x: string, r: string, q: string)
    requires e == x + r
    ensures e + q == x + (r + q)
  {
  }

  lemma {:induction false} Shift(p: string, x: string, t: string, t1: string)
    requires t == x + t1
    ensures |p| + |t| == |p| + |x| + |t1|
    ensures p + t == p + x + t1
  {
  }

  lemma {:induction false} NoSuffix(a: string, s: string)
    requires s == []
    ensures a + s == a
  {
  }

  lemma {:induction false} NoPrefix(line: string, q: nat, t: string)
    requires q + |t| <= |line| && line[q..q + |t|] == t
    ensures var none: string := []; q + |none| + |t| <= |line| && line[q..q + |none| + |t|] == none + t
  {
    var none: string := [];
    assert none + t == t;
  }

  lemma {:induction false} CharsAssoc(chunks: string, p: string, c: char, rest: string, s: string)
    requires s != [] && c == s[0] && rest == s[1..]
    ensures chunks + p + [c] + rest == chunks + p + s
  {
    assert [c] + rest == s;
  }

  /** `handle_string`, turn after turn, decodes what `escape_string` made of `s` back to `s`. */
  lemma {:induction false} DecodeEscaped(lx: Lexer, line: string, pos: nat, s: string, v: string, e: nat)
    requires Consistent(lx) && lx.state in {InKey, InTarget}
    requires HexSafe(s)
    requires pos + |Escaped(s)| + 1 <= |line|
    requires line[pos..pos + |Escaped(s)| + 1] == Escaped(s) + "\""
    requires v == lx.chunks + s && e == pos + |Escaped(s)| + 1
    ensures RunLine(lx, line, pos) == RunLine(Closed(lx, v), line, e)
  {
    var t := Escaped(s) + "\"";
    var none: string := [];
    StartLayout(lx, line, pos, s, t, none, v, e);
    DecodeFrom(lx, line, pos, none, s, t, v, e);
  }

  /** The layout at the opening of the string: no run yet. */
  lemma {:induction false} StartLayout(lx: Lexer, line: string, pos: nat, s: string, t: string, none: string, v: string, e: nat)
    requires pos + |Escaped(s)| + 1 <= |line|
    requires line[pos..pos + |Escaped(s)| + 1] == Escaped(s) + "\""
    requires t == Escaped(s) + "\"" && none == [] && v == lx.chunks + s && e == pos + |Escaped(s)| + 1
    ensures pos + |none| + |t| <= |line| && line[pos..pos + |none| + |t|] == none + t
    ensures v == lx.chunks + none + s && e == pos + |none| + |t|
  {
    NoPrefix(line, pos, t);
    NoSuffix2(lx.chunks, none, s);
  }

  lemma {:induction false} NoSuffix2(a: string, none: string, s: string)
    requires none == []
    ensures a + none + s == a + s
  {
  }
}
