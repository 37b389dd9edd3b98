/**
  Hand-written matchers, one per regular expression of nslocalized/store.py.
  A `match` function answers `pattern.match(line, pos)` with the end of the
  match; a `Search` function answers `pattern.search(line, pos)` with the
  start of the first match.
 */
module Patterns {
  import opened Wrappers
  import opened Text

  /** `\s*` at `pos`: the end of the run of spaces that starts there. */
  function SkipSpace(line: string, pos: nat): (j: nat)
    requires pos <= |line|
    ensures pos <= j <= |line|
    ensures forall i :: pos <= i < j ==> IsSpace(line[i])
    ensures j == |line| || !IsSpace(line[j])
    decreases |line| - pos
  {
    if pos < |line| && IsSpace(line[pos]) then SkipSpace(line, pos + 1) else pos
  }

  // `_start_re = \s*(?:/\*|")`: spaces, then slash-star or a quote.
  function MatchStart(line: string, pos: nat): (r: Option<nat>)
    requires pos <= |line|
    ensures r.Some? ==> pos < r.value <= |line|
    ensures r.Some? ==>
      var j := SkipSpace(line, pos);
      (r.value == j + 2 && line[j..r.value] == "/*") || (r.value == j + 1 && line[j] == '"')
    ensures r.None? ==>
      var j := SkipSpace(line, pos);
      j == |line| || (line[j] != '"' && !(line[j] == '/' && j + 1 < |line| && line[j + 1] == '*'))
  {
    var j := SkipSpace(line, pos);
    if j + 1 < |line| && line[j] == '/' && line[j + 1] == '*' then Some(j + 2)
    else if j < |line| && line[j] == '"' then Some(j + 1)
    else None
  }

  /** A star-slash starts at `i`. */
  predicate ClosesAt(line: string, i: nat) {
    i + 1 < |line| && line[i] == '*' && line[i + 1] == '/'
  }

  // `_comment_re.search(line, pos)`: where the first star-slash at or after `pos` starts.
  function SearchCommentEnd(line: string, pos: nat): (r: Option<nat>)
    requires pos <= |line|
    ensures r.Some? ==> pos <= r.value && r.value + 2 <= |line| && line[r.value] == '*' && line[r.value + 1] == '/'
    ensures r.Some? ==> forall i :: pos <= i < r.value ==> !ClosesAt(line, i)
    ensures r.None? ==> forall i :: pos <= i < |line| - 1 ==> !ClosesAt(line, i)
    decreases |line| - pos
  {
    if pos + 1 >= |line| then None
    else if line[pos] == '*' && line[pos + 1] == '/' then Some(pos)
    else SearchCommentEnd(line, pos + 1)
  }

  /** `_exp_key_re = \s*"`: spaces, then a quote; the end of the match. */
  function MatchOpenQuote(line: string, pos: nat): (r: Option<nat>)
    requires pos <= |line|
    ensures r.Some? <==> SkipSpace(line, pos) < |line| && line[SkipSpace(line, pos)] == '"'
    ensures r.Some? ==> r.value == SkipSpace(line, pos) + 1
  {
    var j := SkipSpace(line, pos);
    if j < |line| && line[j] == '"' then Some(j + 1) else None
  }

  /** `_key_re.search(line, pos)` for `(?:\\|")`: the first backslash or quote at or after `pos`. */
  function SearchQuoteOrBackslash(line: string, pos: nat): (r: Option<nat>)
    requires pos <= |line|
    ensures r.Some? ==> pos <= r.value < |line| && (line[r.value] == '\\' || line[r.value] == '"')
    ensures r.Some? ==> forall i :: pos <= i < r.value ==> line[i] != '\\' && line[i] != '"'
    ensures r.None? ==> forall i :: pos <= i < |line| ==> line[i] != '\\' && line[i] != '"'
    decreases |line| - pos
  {
    if pos == |line| then None
    else if line[pos] == '\\' || line[pos] == '"' then Some(pos)
    else SearchQuoteOrBackslash(line, pos + 1)
  }

  /** The end of the run of hex digits that starts at `pos`. */
  function HexRunEnd(line: string, pos: nat): (e: nat)
    requires pos <= |line|
    ensures pos <= e <= |line|
    ensures forall i :: pos <= i < e ==> IsHexDigit(line[i])
    ensures e == |line| || !IsHexDigit(line[e])
    decreases |line| - pos
  {
    if pos < |line| && IsHexDigit(line[pos]) then HexRunEnd(line, pos + 1) else pos
  }

  /** `_hex_re = [A-Fa-f0-9]+`, greedy: the whole run of hex digits, if there is one. */
  function MatchHex(line: string, pos: nat): (r: Option<nat>)
    requires pos <= |line|
    ensures r.Some? <==> pos < |line| && IsHexDigit(line[pos])
    ensures r.Some? ==> r.value == HexRunEnd(line, pos)
  {
    var e := HexRunEnd(line, pos);
    if e > pos then Some(e) else None
  }

  /** `_u4_re` and `_u8_re`: exactly `n` hex digits. */
  function MatchHexN(line: string, pos: nat, n: nat): (r: Option<nat>)
    requires pos <= |line|
    ensures r.Some? <==> pos + n <= |line| && forall i :: pos <= i < pos + n ==> IsHexDigit(line[i])
    ensures r.Some? ==> r.value == pos + n
  {
    if pos + n <= |line| && forall i :: pos <= i < pos + n ==> IsHexDigit(line[i]) then Some(pos + n) else None
  }

  /** `_oct_re = [0-7]{1,3}`, greedy: up to three octal digits. */
  function MatchOct(line: string, pos: nat): (r: Option<nat>)
    requires pos <= |line|
    ensures r.Some? <==> pos < |line| && IsOctDigit(line[pos])
    ensures r.Some? ==> pos < r.value <= pos + 3 && r.value <= |line|
    ensures r.Some? ==> forall i :: pos <= i < r.value ==> IsOctDigit(line[i])
    ensures r.Some? ==> r.value == pos + 3 || r.value == |line| || !IsOctDigit(line[r.value])
  {
    if pos < |line| && IsOctDigit(line[pos]) then
      if pos + 1 < |line| && IsOctDigit(line[pos + 1]) then
        if pos + 2 < |line| && IsOctDigit(line[pos + 2]) then Some(pos + 3) else Some(pos + 2)
      else Some(pos + 1)
    else None
  }

  /** `_equals_re = \s*=\s*` and `_semi_re = \s*;\s*`: spaces, `c`, spaces. */
  function MatchPunct(line: string, pos: nat, c: char): (r: Option<nat>)
    requires pos <= |line|
    ensures r.Some? <==> SkipSpace(line, pos) < |line| && line[SkipSpace(line, pos)] == c
    ensures r.Some? ==> r.value == SkipSpace(line, SkipSpace(line, pos) + 1) && pos < r.value
  {
    var j := SkipSpace(line, pos);
    if j < |line| && line[j] == c then Some(SkipSpace(line, j + 1)) else None
  }
}
