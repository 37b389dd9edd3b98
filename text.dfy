/**
  Character classes and small string helpers shared by the reader and the
  writer: the `\s` class of the source's regular expressions (also used for
  `str.strip`), hex and octal digits, and the line-break characters at which
  a decoded text stream is split into lines.
 */
module Text {

  /** `\s` without the UNICODE flag: space, tab, LF, CR, FF, VT. */
  predicate IsSpace(c: char) {
    c == ' ' || c == '\t' || c == '\n' || c == '\r' || c == '\U{0C}' || c == '\U{0B}'
  }

  /** The characters at which `splitlines` ends a line. */
  predicate IsLineBreak(c: char) {
    c == '\n' || c == '\r' || c == '\U{0B}' || c == '\U{0C}' || c == '\U{1C}' || c == '\U{1D}'
    || c == '\U{1E}' || c == '\U{85}' || c == '\U{2028}' || c == '\U{2029}'
  }

  predicate IsHexDigit(c: char) {
    ('0' <= c <= '9') || ('a' <= c <= 'f') || ('A' <= c <= 'F')
  }

  /** The digits `'%x'` writes: decimal digits and lower-case `a`-`f`. */
  predicate IsLowerHexDigit(c: char) {
    ('0' <= c <= '9') || ('a' <= c <= 'f')
  }

  predicate IsOctDigit(c: char) {
    '0' <= c <= '7'
  }

  function HexDigitValue(c: char): (v: nat)
    requires IsHexDigit(c)
    ensures v < 16
  {
    if '0' <= c <= '9' then c as int - '0' as int
    else if 'a' <= c <= 'f' then c as int - 'a' as int + 10
    else c as int - 'A' as int + 10
  }

  /** `int(s, 16)` for a non-empty run of hex digits. */
  function HexValue(s: string): nat
    requires forall i :: 0 <= i < |s| ==> IsHexDigit(s[i])
  {
    if s == [] then 0 else 16 * HexValue(s[..|s| - 1]) + HexDigitValue(s[|s| - 1])
  }

  function OctDigitValue(c: char): (v: nat)
    requires IsOctDigit(c)
    ensures v < 8
  {
    c as int - '0' as int
  }

  function Pow8(n: nat): (p: nat)
    ensures p >= 1
  {
    if n == 0 then 1 else 8 * Pow8(n - 1)
  }

  /** `int(s, 8)` for a run of octal digits. */
  function OctValue(s: string): (v: nat)
    requires forall i :: 0 <= i < |s| ==> IsOctDigit(s[i])
    ensures v < Pow8(|s|)
  {
    if s == [] then 0 else 8 * OctValue(s[..|s| - 1]) + OctDigitValue(s[|s| - 1])
  }

  function Pow16(n: nat): (p: nat)
    ensures p >= 1
  {
    if n == 0 then 1 else 16 * Pow16(n - 1)
  }

  /** The lower-case hex digit for a value below 16. */
  function LowerHexDigit(d: nat): (c: char)
    requires d < 16
    ensures IsLowerHexDigit(c) && IsHexDigit(c) && HexDigitValue(c) == d
  {
    if d < 10 then ('0' as int + d) as char else ('a' as int + d - 10) as char
  }

  /** `'%0*x' % (width, n)` for a value that fits in `width` digits. */
  function HexDigits(n: nat, width: nat): (s: string)
    requires n < Pow16(width)
    ensures |s| == width
    ensures forall i :: 0 <= i < |s| ==> IsHexDigit(s[i])
    ensures forall i :: 0 <= i < |s| ==> IsLowerHexDigit(s[i])
    ensures HexValue(s) == n
  {
    if width == 0 then ""
    else
      var s := HexDigits(n / 16, width - 1) + [LowerHexDigit(n % 16)];
      assert s[..|s| - 1] == HexDigits(n / 16, width - 1);
      s
  }

  /** Drops leading `IsSpace` characters. */
  function TrimStart(s: string): (r: string)
    ensures |r| <= |s| && r == s[|s| - |r|..]
    ensures r == [] || !IsSpace(r[0])
    ensures forall i :: 0 <= i < |s| - |r| ==> IsSpace(s[i])
  {
    if s != [] && IsSpace(s[0]) then TrimStart(s[1..]) else s
  }

  /** Drops trailing `IsSpace` characters. */
  function TrimEnd(s: string): (r: string)
    ensures |r| <= |s| && r == s[..|r|]
    ensures r == [] || !IsSpace(r[|r| - 1])
    ensures forall i :: |r| <= i < |s| ==> IsSpace(s[i])
  {
    if s != [] && IsSpace(s[|s| - 1]) then TrimEnd(s[..|s| - 1]) else s
  }

  /** `s.strip()` with the `IsSpace` class. */
  function Strip(s: string): string {
    TrimEnd(TrimStart(s))
  }

  /** `s.strip() != ''` holds exactly when `s` has a non-space character. */
  lemma StripEmptyIff(s: string)
    ensures Strip(s) == [] <==> forall i :: 0 <= i < |s| ==> IsSpace(s[i])
  {
    var t := TrimStart(s);
    if Strip(s) == [] {
      forall i | 0 <= i < |s| ensures IsSpace(s[i]) {
        if i >= |s| - |t| {
          assert t[i - (|s| - |t|)] == s[i];
        }
      }
    } else {
      var r := Strip(s);
      assert !IsSpace(r[0]);
      assert r[0] == t[0] == s[|s| - |t|];
    }
  }

  /** Stripping a string that has no leading or trailing space is the identity. */
  lemma StripTrimmed(pre: string, s: string, post: string)
    requires forall i :: 0 <= i < |pre| ==> IsSpace(pre[i])
    requires forall i :: 0 <= i < |post| ==> IsSpace(post[i])
    requires s != [] && !IsSpace(s[0]) && !IsSpace(s[|s| - 1])
    ensures Strip(pre + s + post) == s
  {
    var x := pre + s + post;
    var t := TrimStart(x);
    assert x[|pre|] == s[0];
    assert t == s + post;
    assert (s + post)[|s| - 1] == s[|s| - 1];
  }
  /** The lines put back together. */
  function Concat(lines: seq<string>): string {
    if lines == [] then "" else Concat(lines[..|lines| - 1]) + lines[|lines| - 1]
  }

  lemma {:induction false} ConcatCons(line: string, lines: seq<string>)
    ensures Concat([line] + lines) == line + Concat(lines)
    decreases |lines|
  {
    if lines != [] {
      var pre := lines[..|lines| - 1];
      ConcatCons(line, pre);
      assert ([line] + lines)[..|lines|] == [line] + pre;
    }
  }

  predicate NoBreak(s: string) {
    forall k :: 0 <= k < |s| ==> !IsLineBreak(s[k])
  }

  lemma NoBreakConcat(a: string, b: string)
    requires NoBreak(a) && NoBreak(b)
    ensures NoBreak(a + b)
  {
    assert forall k :: 0 <= k < |a + b| ==> (a + b)[k] == if k < |a| then a[k] else b[k - |a|];
  }

  /** The first line-break character at or after `i`, or `|s|` if there is none. */
  function LineEnd(s: string, i: nat): (j: nat)
    requires i <= |s|
    ensures i <= j <= |s| && (j < |s| ==> IsLineBreak(s[j]))
    ensures forall k :: i <= k < j ==> !IsLineBreak(s[k])
    decreases |s| - i
  {
    if i == |s| || IsLineBreak(s[i]) then i else LineEnd(s, i + 1)
  }

  /**
    `s.splitlines(True)`, which is how a codecs stream reader cuts decoded
    text into the lines it yields: each line runs to and includes its
    terminator, `"\r\n"` is one terminator, and a last line without one is
    kept.
   */
  function SplitLines(s: string): seq<string>
    decreases |s|
  {
    if s == [] then []
    else
      var i := LineEnd(s, 0);
      var j := if i == |s| then i else if s[i] == '\r' && i + 1 < |s| && s[i + 1] == '\n' then i + 2 else i + 1;
      [s[..j]] + SplitLines(s[j..])
  }

  /** Splitting loses nothing: the lines put back together are the text. */
  lemma {:induction false} SplitLinesConcat(s: string)
    ensures Concat(SplitLines(s)) == s
    decreases |s|
  {
    if s != [] {
      var i := LineEnd(s, 0);
      var j := if i == |s| then i else if s[i] == '\r' && i + 1 < |s| && s[i + 1] == '\n' then i + 2 else i + 1;
      SplitLinesConcat(s[j..]);
      ConcatCons(s[..j], SplitLines(s[j..]));
      assert s[..j] + s[j..] == s;
    }
  }

  /** A line ending in `"\n"` with no other break in it. */
  predicate OneLine(line: string) {
    |line| > 0 && line[|line| - 1] == '\n' && NoBreak(line[..|line| - 1])
  }

  /** Splitting text that starts with a whole line cuts that line off first. */
  lemma SplitLinesCons(line: string, rest: string)
    requires OneLine(line)
    ensures SplitLines(line + rest) == [line] + SplitLines(rest)
  {
    var s := line + rest;
    assert IsLineBreak(s[|line| - 1]);
    assert LineEnd(s, 0) == |line| - 1;
    assert s[..|line|] == line && s[|line|..] == rest;
  }

  /** Whole lines put together split back into the same lines. */
  lemma {:induction false} ConcatSplitLines(lines: seq<string>)
    requires forall i :: 0 <= i < |lines| ==> OneLine(lines[i])
    ensures SplitLines(Concat(lines)) == lines
    decreases |lines|
  {
    if lines != [] {
      ConcatCons(lines[0], lines[1..]);
      assert [lines[0]] + lines[1..] == lines;
      SplitLinesCons(lines[0], Concat(lines[1..]));
      ConcatSplitLines(lines[1..]);
    }
  }
}
