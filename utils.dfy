/**
  nslocalized/utils.py: surrogate-pair composition and decomposition on
  UTF-16 code units (`uchr` on a narrow build, `ord_skip`), and the escaper
  `escape_string` used by the writer.

  Outside `Uchr`/`OrdSkip`, strings are sequences of code points (Dafny's
  `char` is a Unicode scalar value), which is how a wide build sees them.
 */
module Utils {
  import opened Wrappers
  import opened Text

  predicate IsHighSurrogate(u: int) { 0xD800 <= u <= 0xDBFF }
  predicate IsLowSurrogate(u: int) { 0xDC00 <= u <= 0xDFFF }

  /**
    `uchr` on a narrow build: a code point below 0x10000 is one code unit,
    any other is a surrogate pair (`x >> 10` and `x & 0x3ff` are written as
    division and remainder, which agree on non-negative numbers).
   */
  function Uchr(x: nat): seq<int> {
    if x < 0x10000 then [x]
    else
      var y := x - 0x10000;
      [0xD800 + y / 1024, 0xDC00 + y % 1024]
  }

  /** Shape of `Uchr` on the code-point range. */
  lemma UchrUnits(cp: nat)
    requires cp <= 0x10FFFF
    ensures cp < 0x10000 ==> Uchr(cp) == [cp]
    ensures cp >= 0x10000 ==>
      |Uchr(cp)| == 2
      && Uchr(cp)[0] == 0xD800 + (cp - 0x10000) / 1024 && IsHighSurrogate(Uchr(cp)[0])
      && Uchr(cp)[1] == 0xDC00 + (cp - 0x10000) % 1024 && IsLowSurrogate(Uchr(cp)[1])
  {
  }

  /** Python's `|` on non-negative integers, bit by bit. */
  function BitOr(a: nat, b: nat): nat {
    if a == 0 then b
    else if b == 0 then a
    else 2 * BitOr(a / 2, b / 2) + (if a % 2 == 1 || b % 2 == 1 then 1 else 0)
  }

  function Pow2(k: nat): (p: nat)
    ensures p >= 1
  {
    if k == 0 then 1 else 2 * Pow2(k - 1)
  }

  /** Or-ing a value shifted left by `k` with one below `2^k` adds them. */
  lemma {:induction false} BitOrDisjoint(a: nat, k: nat, b: nat)
    requires b < Pow2(k)
    ensures BitOr(a * Pow2(k), b) == a * Pow2(k) + b
  {
    if a != 0 && b != 0 {
      assert k > 0;
      var p := Pow2(k - 1);
      assert a * Pow2(k) == 2 * (a * p);
      assert (a * Pow2(k)) / 2 == a * p && (a * Pow2(k)) % 2 == 0;
      BitOrDisjoint(a, k - 1, b / 2);
    }
  }

  /**
    `ord_skip(s, ndx)`: the code point starting at unit `ndx` and the number
    of units it takes. The source reads `s[ndx + 1]` without checking it;
    its only caller passes one matched character, which on a narrow build is
    either one unit or a whole surrogate pair, hence the second requires.
    `<< 10` is multiplication by 1024.
   */
  function OrdSkip(s: seq<int>, ndx: nat): (r: (int, nat))
    requires ndx < |s|
    requires IsHighSurrogate(s[ndx]) ==> ndx + 1 < |s| && IsLowSurrogate(s[ndx + 1])
    ensures r.1 == (if IsHighSurrogate(s[ndx]) then 2 else 1)
  {
    var ch := s[ndx];
    if IsHighSurrogate(ch) then
      var hi := (ch - 0xD800) * 1024;
      var lo := s[ndx + 1] - 0xDC00;
      (0x10000 + BitOr(hi, lo), 2)
    else
      (ch, 1)
  }

  /** `ord_skip` on a surrogate pair. */
  lemma OrdSkipPair(s: seq<int>, ndx: nat)
    requires ndx + 1 < |s| && IsHighSurrogate(s[ndx]) && IsLowSurrogate(s[ndx + 1])
    ensures OrdSkip(s, ndx).0 == 0x10000 + (s[ndx] - 0xD800) * 1024 + (s[ndx + 1] - 0xDC00)
  {
    assert Pow2(10) == 1024;
    BitOrDisjoint(s[ndx] - 0xD800, 10, s[ndx + 1] - 0xDC00);
  }

  /**
    `ord_skip` inverts `uchr` on every code point except a high surrogate
    (for which `ord_skip` would read a unit that `uchr` does not produce);
    a lone low surrogate is one unit and comes back unchanged.
   */
  lemma {:induction false} OrdSkipUchr(cp: nat)
    requires cp <= 0x10FFFF && !IsHighSurrogate(cp)
    ensures OrdSkip(Uchr(cp), 0) == (cp, |Uchr(cp)|)
    ensures |Uchr(cp)| == (if cp < 0x10000 then 1 else 2)
  {
    UchrUnits(cp);
    if cp >= 0x10000 {
      OrdSkipPair(Uchr(cp), 0);
    }
  }

  /** `_c_escapes` of utils.py: code point to the letter after the backslash. */
  const CEscapes: map<int, char> := map[
    0x07 := 'a', 0x08 := 'b', 0x0c := 'f', 0x0a := 'n', 0x0d := 'r',
    0x09 := 't', 0x0b := 'v', 0x22 := '"', 0x5c := '\\']

  /** The character class of `_esc_re` (wide build). */
  predicate InEscapeClass(c: char) {
    var cp := c as int;
    cp <= 0x1F || (0x7F <= cp <= 0x9F) || cp == 0x200E || cp == 0x200F
    || (0x2028 <= cp <= 0x202E) || (0xFE00 <= cp <= 0xFE0F)
    || (0xE0100 <= cp <= 0xE01EF) || c == '"' || c == '\\'
  }

  /**
    The text `escape_string` emits for one escaped code point: a named
    escape, else `\x` with 2, `\u` with 4 or `\U` with 8 lower-case hex
    digits.
   */
  function EscapeSequence(cp: nat): (r: string)
    requires cp <= 0x10FFFF
    ensures |r| >= 2 && r[0] == '\\'
  {
    if cp in CEscapes then ['\\', CEscapes[cp]]
    else if cp <= 0xFF then "\\x" + HexDigits(cp, 2)
    else if cp <= 0xFFFF then "\\u" + HexDigits(cp, 4)
    else "\\U" + HexDigits(cp, 8)
  }

  /** The forms of an escape sequence: the named one, else the letter for the width and the code point's hex digits. */
  lemma EscapeSequenceForm(cp: nat)
    requires cp <= 0x10FFFF
    ensures cp in CEscapes ==> EscapeSequence(cp) == ['\\', CEscapes[cp]]
    ensures cp !in CEscapes && cp <= 0xFF ==>
      var r := EscapeSequence(cp);
      |r| == 4 && r[1] == 'x' && (forall i :: 0 <= i < 2 ==> IsHexDigit(r[2..][i]) && IsLowerHexDigit(r[2..][i])) && HexValue(r[2..]) == cp
    ensures cp !in CEscapes && 0xFF < cp <= 0xFFFF ==>
      var r := EscapeSequence(cp);
      |r| == 6 && r[1] == 'u' && (forall i :: 0 <= i < 4 ==> IsHexDigit(r[2..][i]) && IsLowerHexDigit(r[2..][i])) && HexValue(r[2..]) == cp
    ensures 0xFFFF < cp ==>
      var r := EscapeSequence(cp);
      |r| == 10 && r[1] == 'U' && (forall i :: 0 <= i < 8 ==> IsHexDigit(r[2..][i]) && IsLowerHexDigit(r[2..][i])) && HexValue(r[2..]) == cp
  {
    var r := EscapeSequence(cp);
    if cp !in CEscapes {
      assert r[2..] == if cp <= 0xFF then HexDigits(cp, 2) else if cp <= 0xFFFF then HexDigits(cp, 4) else HexDigits(cp, 8);
    }
  }

  /** What `escape_string` makes of one character. */
  function EscapeChar(c: char): string {
    if InEscapeClass(c) then EscapeSequence(c as int) else [c]
  }

  /** `escape_string(s)`, character by character. */
  function Escaped(s: string): string {
    if s == [] then [] else EscapeChar(s[0]) + Escaped(s[1..])
  }

  /** An escaped character holds no line break: every break character is in the escape class, and escapes are a backslash, a letter and hex digits. */
  lemma EscapeCharNoBreak(c: char)
    ensures NoBreak(EscapeChar(c))
  {
    if InEscapeClass(c) {
      EscapeSequenceNoBreak(c as int);
    }
  }

  lemma EscapeSequenceNoBreak(cp: nat)
    requires cp <= 0x10FFFF
    ensures NoBreak(EscapeSequence(cp))
  {
    if cp in CEscapes {
      assert CEscapes[cp] in "abfnrtv\"\\";
    } else if cp <= 0xFF {
      NoBreakConcat("\\x", HexDigits(cp, 2));
    } else if cp <= 0xFFFF {
      NoBreakConcat("\\u", HexDigits(cp, 4));
    } else {
      NoBreakConcat("\\U", HexDigits(cp, 8));
    }
  }

  /** `escape_string` never emits a line break, so an escaped string stays on its line. */
  lemma {:induction false} EscapedNoBreak(s: string)
    ensures NoBreak(Escaped(s))
    decreases |s|
  {
    if s != [] {
      EscapeCharNoBreak(s[0]);
      EscapedNoBreak(s[1..]);
      NoBreakConcat(EscapeChar(s[0]), Escaped(s[1..]));
    }
  }

  /** `_esc_re.search(s, pos)`: the first escape-class character at or after `pos`. */
  function SearchEscapable(s: string, pos: nat): (r: Option<nat>)
    requires pos <= |s|
    ensures r.Some? ==> pos <= r.value < |s| && InEscapeClass(s[r.value])
    ensures r.Some? ==> forall j :: pos <= j < r.value ==> !InEscapeClass(s[j])
    ensures r.None? ==> forall j :: pos <= j < |s| ==> !InEscapeClass(s[j])
    decreases |s| - pos
  {
    if pos == |s| then None
    else if InEscapeClass(s[pos]) then Some(pos)
    else SearchEscapable(s, pos + 1)
  }

  /** Escaping distributes over concatenation. */
  lemma {:induction false} EscapedAppend(a: string, b: string)
    ensures Escaped(a + b) == Escaped(a) + Escaped(b)
  {
    if a != [] {
      assert (a + b)[1..] == a[1..] + b;
      EscapedAppend(a[1..], b);
    } else {
      assert a + b == b;
    }
  }

  /** A string with no escape-class character is left as it is. */
  lemma {:induction false} EscapedPlain(s: string)
    requires forall i :: 0 <= i < |s| ==> !InEscapeClass(s[i])
    ensures Escaped(s) == s
  {
    if s != [] {
      EscapedPlain(s[1..]);
    }
  }

  /** Escaping never shortens, and lengthens whenever an escape-class character occurs. */
  lemma {:induction false} EscapedLength(s: string)
    ensures |Escaped(s)| >= |s|
    ensures (exists i :: 0 <= i < |s| && InEscapeClass(s[i])) ==> |Escaped(s)| > |s|
  {
    if s != [] {
      EscapedLength(s[1..]);
      if exists i :: 0 <= i < |s| && InEscapeClass(s[i]) {
        var i :| 0 <= i < |s| && InEscapeClass(s[i]);
        if i > 0 {
          assert InEscapeClass(s[1..][i - 1]);
        }
      }
    }
  }

  /** `escape_string` returns its input exactly when no character needs escaping. */
  lemma EscapedIdentityIff(s: string)
    ensures Escaped(s) == s <==> forall i :: 0 <= i < |s| ==> !InEscapeClass(s[i])
  {
    EscapedLength(s);
    if forall i :: 0 <= i < |s| ==> !InEscapeClass(s[i]) {
      EscapedPlain(s);
    }
  }

  /** Every `"` that `escape_string` emits comes right after a backslash. */
  lemma {:induction false} EscapedQuotesAreEscaped(s: string, k: nat)
    requires k < |Escaped(s)| && Escaped(s)[k] == '"'
    ensures k > 0 && Escaped(s)[k - 1] == '\\'
  {
    if s != [] {
      var e := EscapeChar(s[0]);
      if k >= |e| {
        EscapedQuotesAreEscaped(s[1..], k - |e|);
        assert Escaped(s)[k] == Escaped(s[1..])[k - |e|];
        if k - |e| > 0 {
          assert Escaped(s)[k - 1] == Escaped(s[1..])[k - |e| - 1];
        }
      }
    }
  }

  lemma EscapedSingle(c: char)
    ensures Escaped([c]) == EscapeChar(c)
  {
    assert [c][1..] == [];
  }

  /** One turn of `escape_string`'s loop: a plain run, then one escaped character. */
  lemma EscapedStep(s: string, pos: nat, i: nat)
    requires pos <= i < |s|
    requires forall j :: pos <= j < i ==> !InEscapeClass(s[j])
    ensures Escaped(s[..i + 1]) == Escaped(s[..pos]) + s[pos..i] + EscapeChar(s[i])
  {
    var done, plain, c := s[..pos], s[pos..i], s[i];
    assert done + (plain + [c]) == s[..i + 1];
    forall k | 0 <= k < |plain| ensures !InEscapeClass(plain[k]) {
      assert plain[k] == s[pos + k];
    }
    EscapedPieces(done, plain, c);
  }

  /** Text done so far followed by a plain run, escaped. */
  lemma EscapedPlainTail(done: string, plain: string)
    requires forall k :: 0 <= k < |plain| ==> !InEscapeClass(plain[k])
    ensures Escaped(done + plain) == Escaped(done) + plain
  {
    EscapedPlain(plain);
    EscapedAppend(done, plain);
  }

  /** Text done so far, a plain run and one more character, escaped. */
  lemma EscapedPieces(done: string, plain: string, c: char)
    requires forall k :: 0 <= k < |plain| ==> !InEscapeClass(plain[k])
    ensures Escaped(done + (plain + [c])) == Escaped(done) + plain + EscapeChar(c)
  {
    EscapedPlain(plain);
    EscapedSingle(c);
    EscapedAppend(plain, [c]);
    EscapedAppend(done, plain + [c]);
  }

  /** The last turn of `escape_string`'s loop: the plain rest of the string. */
  lemma EscapedRest(s: string, pos: nat)
    requires pos <= |s|
    requires forall j :: pos <= j < |s| ==> !InEscapeClass(s[j])
    ensures Escaped(s) == Escaped(s[..pos]) + s[pos..]
  {
    PlainSuffix(s, pos);
    SplitAt(s, pos);
    EscapedPlainTail(s[..pos], s[pos..]);
  }

  lemma PlainSuffix(s: string, pos: nat)
    requires pos <= |s|
    requires forall j :: pos <= j < |s| ==> !InEscapeClass(s[j])
    ensures forall k :: 0 <= k < |s[pos..]| ==> !InEscapeClass(s[pos..][k])
  {
    forall k | 0 <= k < |s[pos..]| ensures !InEscapeClass(s[pos..][k]) {
      assert s[pos..][k] == s[pos + k];
    }
  }

  lemma SplitAt(s: string, pos: nat)
    requires pos <= |s|
    ensures s[..pos] + s[pos..] == s
  {
  }

  /**
    `escape_string`: copies each run of characters outside the escape class
    and replaces each escape-class character by its escape sequence.
   */
  method EscapeString(s: string) returns (r: string)
    ensures r == Escaped(s)
  {
    r := "";
    var pos := 0;
    var end := |s|;
    while pos < end
      invariant pos <= end
      invariant r == Escaped(s[..pos])
    {
      var m := SearchEscapable(s, pos);
      if m.Some? {
        var i := m.value;
        r := r + s[pos..i];
        var cp := OrdSkip([s[i] as int], 0).0;
        assert cp == s[i] as int;
        r := r + EscapeSequence(cp);
        EscapedStep(s, pos, i);
        pos := i + 1;
      } else {
        r := r + s[pos..];
        EscapedRest(s, pos);
        pos := end;
        assert s[..pos] == s;
      }
    }
    assert s[..pos] == s;
  }
}
