/**
  The line-driven state machine of `StringTable.read` (nslocalized/store.py),
  as functions: `Step` is one turn of the inner `while pos < end` loop,
  `RunLine` runs that loop over one line, `ReadLines` runs the outer
  `for line in reader` loop and `Parse` adds the final state check.
  The imperative `StringTable.Read` is proved equal to `Parse`.

  Lines are the decoder's output: text with its line terminator kept.
 */
module Lexer {
  import opened Wrappers
  import opened Text
  import opened Entries
  import opened Patterns

  /** The eight read states. */
  datatype State =
    | ExpectingItem | InComment | ExpectingKey | InKey
    | ExpectingEquals | ExpectingTarget | InTarget | ExpectingSemicolon

  /**
    Why a read stops. `Loops(s)` marks a turn in state `s` that changes
    nothing, where the source's `while pos < end` loop never ends.
   */
  datatype Fault =
    | Garbage | MissingEquals | MissingSemicolon | BadUnicodeEscape
    | IndexOutOfRange | BadStringsFile | Loops(at: State)

  /**
    The variables the read loop carries across turns and lines; `chunks`
    holds the concatenation of the source's `chunks` list.
   */
  datatype Lexer = Lexer(
    state: State, chunks: string, key: Option<string>, target: Option<string>,
    comment: Option<string>, skipNl: bool)

  const Initial := Lexer(ExpectingItem, "", None, None, None, true)

  /** `_c_escapes` of store.py: the letter after a backslash to the control character. */
  const ControlEscapes: map<char, char> := map[
    'a' := '\U{7}', 'b' := '\U{8}', 'f' := '\U{C}', 'n' := '\U{A}',
    'r' := '\U{D}', 't' := '\U{9}', 'v' := '\U{B}']

  /** What one call of `handle_string` leaves: the chunks, the new `pos`, and the joined string once the closing quote is met. */
  datatype Handled = Handled(chunks: string, pos: nat, value: Option<string>)

  /** A hex escape's code point is refused in the surrogate range and above U+10FFFF. */
  predicate IsBadCodepoint(cp: nat) {
    (0xD800 <= cp <= 0xDFFF) || cp > 0x10FFFF
  }

  /**
    `handle_string`: copies text up to the next backslash or quote, then
    either closes the string or decodes one escape. `ch = line[pos]` is read
    before `pos == end` is tested, so a backslash that ends the line raises
    and the line-continuation branch is never taken.
   */
  function HandleString(chunks: string, line: string, pos: nat): (r: Result<Handled, Fault>)
    requires pos < |line|
    ensures r.Ok? ==> pos < r.value.pos <= |line|
    ensures r.Ok? && r.value.value.Some? ==> r.value.value.value == r.value.chunks
  {
    match SearchQuoteOrBackslash(line, pos)
    case None => Ok(Handled(chunks + line[pos..], |line|, None))
    case Some(i) =>
      var chunks := chunks + line[pos..i];
      if line[i] == '"' then Ok(Handled(chunks, i + 1, Some(chunks)))
      else if i + 1 == |line| then Err(IndexOutOfRange)
      else Escape(chunks, line, i + 1)
  }

  /** The escape whose letter is at `p`, right after a backslash. */
  function Escape(chunks: string, line: string, p: nat): (r: Result<Handled, Fault>)
    requires p < |line|
    ensures r.Ok? ==> p < r.value.pos <= |line| && r.value.value.None?
  {
    var ch := line[p];
    if ch in ControlEscapes then Ok(Handled(chunks + [ControlEscapes[ch]], p + 1, None))
    else if ch == 'x' || ch == 'u' || ch == 'U' then HexEscape(chunks, line, p + 1, ch)
    else if '0' <= ch < '8' then
      var e := MatchOct(line, p).value;
      var cp := OctValue(line[p..e]);
      assert cp < 512 by { assert Pow8(1) == 8 && Pow8(2) == 64 && Pow8(3) == 512; }
      Ok(Handled(chunks + [cp as char], e, None))
    else Ok(Handled(chunks + [ch], p + 1, None))
  }

  /**
    `\x`, `\u` or `\U` with the digits from `q`: any number of digits, 4 or
    8. A missing digit run leaves the literal letter `x` whatever the letter was.
   */
  function HexEscape(chunks: string, line: string, q: nat, ch: char): (r: Result<Handled, Fault>)
    requires q <= |line|
    ensures r.Ok? ==> q <= r.value.pos <= |line| && r.value.value.None?
  {
    var hm := if ch == 'x' then MatchHex(line, q)
              else if ch == 'u' then MatchHexN(line, q, 4)
              else MatchHexN(line, q, 8);
    match hm
    case Some(e) =>
      var cp := HexValue(line[q..e]);
      if IsBadCodepoint(cp) then Err(BadUnicodeEscape)
      else Ok(Handled(chunks + [cp as char], e, None))
    case None => Ok(Handled(chunks + "x", q, None))
  }

  /** `\a`, `\b`, `\f`, `\n`, `\r`, `\t` and `\v` append their control character. */
  lemma EscapeNamed(chunks: string, line: string, p: nat)
    requires p < |line| && line[p] in ControlEscapes
    ensures Escape(chunks, line, p) == Ok(Handled(chunks + [ControlEscapes[line[p]]], p + 1, None))
  {
  }

  /** An octal escape takes one to three octal digits, as many as there are, and appends the code point they spell. */
  lemma EscapeOctal(chunks: string, line: string, p: nat)
    requires p < |line| && IsOctDigit(line[p])
    ensures var r := Escape(chunks, line, p);
      && r.Ok? && p < r.value.pos <= p + 3
      && (forall i :: p <= i < r.value.pos ==> IsOctDigit(line[i]))
      && (r.value.pos == p + 3 || r.value.pos == |line| || !IsOctDigit(line[r.value.pos]))
      && |r.value.chunks| == |chunks| + 1 && r.value.chunks[..|chunks|] == chunks
      && r.value.chunks[|chunks|] as int == OctValue(line[p..r.value.pos])
  {
    var r := Escape(chunks, line, p);
    assert r.value.chunks[..|chunks|] == chunks;
  }

  /**
    `\x` takes the whole run of hex digits after it; the code point they
    spell is appended unless it is a surrogate or above U+10FFFF, which is
    refused. Without a digit the letter `x` is appended.
   */
  lemma EscapeHex(chunks: string, line: string, p: nat)
    requires p < |line| && line[p] == 'x'
    ensures var r := Escape(chunks, line, p); var e := HexRunEnd(line, p + 1);
      if e == p + 1 then r == Ok(Handled(chunks + "x", p + 1, None))
      else
        && (r.Err? <==> IsBadCodepoint(HexValue(line[p + 1..e])))
        && (r.Err? ==> r.error == BadUnicodeEscape)
        && (r.Ok? ==> r.value == Handled(chunks + [HexValue(line[p + 1..e]) as char], e, None))
  {
  }

  /**
    `\u` takes exactly four hex digits and `\U` exactly eight; a refused
    code point as for `\x`. With fewer digits the letter `x` is appended,
    whichever the letter was.
   */
  lemma EscapeFixedHex(chunks: string, line: string, p: nat, n: nat)
    requires p < |line| && line[p] in {'u', 'U'} && n == (if line[p] == 'u' then 4 else 8)
    ensures var r := Escape(chunks, line, p);
      if p + 1 + n <= |line| && forall i :: p + 1 <= i < p + 1 + n ==> IsHexDigit(line[i]) then
        && (r.Err? <==> IsBadCodepoint(HexValue(line[p + 1..p + 1 + n])))
        && (r.Err? ==> r.error == BadUnicodeEscape)
        && (r.Ok? ==> r.value == Handled(chunks + [HexValue(line[p + 1..p + 1 + n]) as char], p + 1 + n, None))
      else r == Ok(Handled(chunks + "x", p + 1, None))
  {
  }

  /** Any other character after a backslash is appended as it is. */
  lemma EscapeLiteral(chunks: string, line: string, p: nat)
    requires p < |line| && line[p] !in ControlEscapes && line[p] !in {'x', 'u', 'U'} && !IsOctDigit(line[p])
    ensures Escape(chunks, line, p) == Ok(Handled(chunks + [line[p]], p + 1, None))
  {
  }

  /** The pending key (and target) exist in the states that come after them. */
  predicate Consistent(lx: Lexer) {
    && (lx.state in {ExpectingEquals, ExpectingTarget, InTarget, ExpectingSemicolon} ==> lx.key.Some?)
    && (lx.state == ExpectingSemicolon ==> lx.target.Some?)
  }

  /** Only the move out of a comment may leave `pos` where it is. */
  function Rank(s: State): nat {
    if s == InComment then 1 else 0
  }

  /** One turn of the read loop: the new variables and `pos`, and the entry stored, if any. */
  datatype StepResult = Next(lexer: Lexer, pos: nat, stored: Option<Entry>) | Stop(fault: Fault)

  /** What a turn may do: keep the pending key and target consistent and make progress. */
  predicate Advances(lx: Lexer, line: string, pos: nat, r: StepResult) {
    r.Next? ==>
      && Consistent(r.lexer) && r.pos <= |line|
      && (pos < r.pos || (r.pos == pos && Rank(r.lexer.state) < Rank(lx.state)))
      && r.stored.None?
  }

  /** `EXPECTING_ITEM`: a comment or a key opens, a blank rest of line is skipped. */
  function ItemStep(lx: Lexer, line: string, pos: nat): (r: StepResult)
    requires pos < |line| && lx.state == ExpectingItem && Consistent(lx)
    ensures Advances(lx, line, pos, r)
    ensures r.Stop? ==> r.fault in {Garbage, Loops(ExpectingItem)}
  {
    match MatchStart(line, pos)
    case Some(e) =>
      // the source compares the whole match, leading spaces included
      if line[pos..e] == "/*" then Next(lx.(state := InComment, chunks := ""), e, None)
      else if line[pos..e] == "\"" then Next(lx.(state := InKey, chunks := ""), e, None)
      else Stop(Loops(ExpectingItem))
    case None =>
      if Strip(line) != "" then Stop(Garbage) else Next(lx, |line|, None)
  }

  /** `IN_COMMENT`: collects stripped comment text until the closing star-slash. */
  function CommentStep(lx: Lexer, line: string, pos: nat): (r: StepResult)
    requires pos < |line| && lx.state == InComment && Consistent(lx)
    ensures Advances(lx, line, pos, r) && r.Next?
    ensures r.lexer.state == ExpectingKey ==> r.lexer.comment == Some(r.lexer.chunks)
  {
    match SearchCommentEnd(line, pos)
    case Some(s) =>
      // `pos` is not moved past the star-slash
      var chunks := lx.chunks + Strip(line[pos..s]);
      Next(lx.(state := ExpectingKey, chunks := chunks, comment := Some(chunks)), pos, None)
    case None =>
      Next(lx.(chunks := lx.chunks + Strip(line[pos..])), |line|, None)
  }

  /** `EXPECTING_KEY` and `EXPECTING_TARGET`: an opening quote moves to `next`, anything else skips the line. */
  function OpenStep(lx: Lexer, line: string, pos: nat, next: State): (r: StepResult)
    requires pos < |line| && Consistent(lx)
    requires (lx.state == ExpectingKey && next == InKey) || (lx.state == ExpectingTarget && next == InTarget)
    ensures Advances(lx, line, pos, r) && r.Next?
  {
    match MatchOpenQuote(line, pos)
    case Some(e) => Next(lx.(state := next, chunks := ""), e, None)
    case None => Next(lx, |line|, None)
  }

  /** `IN_KEY` and `IN_TARGET`: one call of `handle_string`; the joined string lands in the key or the target. */
  function StringStep(lx: Lexer, line: string, pos: nat): (r: StepResult)
    requires pos < |line| && Consistent(lx) && lx.state in {InKey, InTarget}
    ensures Advances(lx, line, pos, r)
  {
    match HandleString(lx.chunks, line, pos)
    case Err(f) => Stop(f)
    case Ok(h) =>
      if lx.state == InKey then
        var state := if h.value.Some? then ExpectingEquals else InKey;
        Next(lx.(state := state, chunks := h.chunks, key := h.value, skipNl := false), h.pos, None)
      else
        var state := if h.value.Some? then ExpectingSemicolon else InTarget;
        Next(lx.(state := state, chunks := h.chunks, target := h.value, skipNl := false), h.pos, None)
  }

  /** `EXPECTING_EQUALS`. */
  function EqualsStep(lx: Lexer, line: string, pos: nat): (r: StepResult)
    requires pos < |line| && lx.state == ExpectingEquals && Consistent(lx)
    ensures Advances(lx, line, pos, r)
    ensures r.Stop? ==> r.fault in {MissingEquals, Loops(ExpectingEquals)}
  {
    match MatchPunct(line, pos, '=')
    case Some(e) => Next(lx.(state := ExpectingTarget), e, None)
    case None => if Strip(line) != "" then Stop(MissingEquals) else Stop(Loops(ExpectingEquals))
  }

  /** `EXPECTING_SEMICOLON`: the semicolon stores the pending entry and resets the lexer. */
  function SemicolonStep(lx: Lexer, line: string, pos: nat): (r: StepResult)
    requires pos < |line| && lx.state == ExpectingSemicolon && Consistent(lx)
    ensures r.Next? ==> pos < r.pos <= |line|
    ensures r.Next? ==>
      && r.stored == Some(Entry(lx.key.value, lx.target.value, lx.comment))
      && r.lexer == lx.(state := ExpectingItem, key := None, target := None, comment := None)
    ensures r.Stop? ==> r.fault in {MissingSemicolon, Loops(ExpectingSemicolon)}
  {
    match MatchPunct(line, pos, ';')
    case Some(e) =>
      var entry := Entry(lx.key.value, lx.target.value, lx.comment);
      Next(lx.(state := ExpectingItem, key := None, target := None, comment := None), e, Some(entry))
    case None => if Strip(line) != "" then Stop(MissingSemicolon) else Stop(Loops(ExpectingSemicolon))
  }

  /** The turn of the inner read loop at `pos`, dispatched on the state. */
  function Step(lx: Lexer, line: string, pos: nat): (r: StepResult)
    requires pos < |line| && Consistent(lx)
    ensures r.Next? ==> Consistent(r.lexer) && r.pos <= |line|
    ensures r.Next? ==> pos < r.pos || (r.pos == pos && Rank(r.lexer.state) < Rank(lx.state))
    ensures r.Next? && r.stored.Some? ==>
      lx.state == ExpectingSemicolon
      && r.stored.value == Entry(lx.key.value, lx.target.value, lx.comment)
      && r.lexer == lx.(state := ExpectingItem, key := None, target := None, comment := None)
  {
    match lx.state
    case ExpectingItem => ItemStep(lx, line, pos)
    case InComment => CommentStep(lx, line, pos)
    case ExpectingKey => OpenStep(lx, line, pos, InKey)
    case InKey => StringStep(lx, line, pos)
    case ExpectingEquals => EqualsStep(lx, line, pos)
    case ExpectingTarget => OpenStep(lx, line, pos, InTarget)
    case InTarget => StringStep(lx, line, pos)
    case ExpectingSemicolon => SemicolonStep(lx, line, pos)
  }

  /** The variables after a run of turns, the entries stored in order, and the fault that stopped the run, if any. */
  datatype Run = Run(lexer: Lexer, stored: seq<Entry>, fault: Option<Fault>)

  function Stores(e: Option<Entry>): seq<Entry> {
    if e.Some? then [e.value] else []
  }

  /** The inner loop `while pos < end` over one line. */
  function RunLine(lx: Lexer, line: string, pos: nat): (r: Run)
    requires pos <= |line| && Consistent(lx)
    ensures Consistent(r.lexer)
    decreases |line| - pos, Rank(lx.state)
  {
    if pos == |line| then Run(lx, [], None)
    else
      match Step(lx, line, pos)
      case Stop(f) => Run(lx, [], Some(f))
      case Next(next, p, e) =>
        var rest := RunLine(next, line, p);
        Run(rest.lexer, Stores(e) + rest.stored, rest.fault)
  }

  /** At the start of each line a newline is appended to the chunks, unless `skip_nl` is set. */
  function LineStart(lx: Lexer): Lexer {
    if lx.skipNl then lx else lx.(chunks := lx.chunks + "\n")
  }

  /** The outer loop `for line in reader`, stopping at the first fault. */
  function ReadLines(lx: Lexer, lines: seq<string>): (r: Run)
    requires Consistent(lx)
    ensures Consistent(r.lexer)
    decreases |lines|
  {
    if lines == [] then Run(lx, [], None)
    else
      var first := RunLine(LineStart(lx), lines[0], 0);
      if first.fault.Some? then first
      else
        var rest := ReadLines(first.lexer, lines[1..]);
        Run(rest.lexer, first.stored + rest.stored, rest.fault)
  }

  /** `read` on decoded lines: the loops, then `Bad strings file` unless they end expecting an item. */
  function Parse(lines: seq<string>): Run {
    var r := ReadLines(Initial, lines);
    if r.fault.None? && r.lexer.state != ExpectingItem then r.(fault := Some(BadStringsFile)) else r
  }

  /** A read is accepted exactly when no line stopped it and it ends expecting an item; it stores what its lines stored. */
  lemma ParseAccepts(lines: seq<string>)
    ensures Parse(lines).fault.None? <==>
      ReadLines(Initial, lines).fault.None? && ReadLines(Initial, lines).lexer.state == ExpectingItem
    ensures Parse(lines).stored == ReadLines(Initial, lines).stored
  {
  }

  /** `done` stored first, then the run `r`. */
  function Then(done: seq<Entry>, r: Run): Run {
    Run(r.lexer, done + r.stored, r.fault)
  }

  /** The remainder of a read standing at `pos` of `line`, with the lines `rest` still to come. */
  function Resume(lx: Lexer, line: string, pos: nat, rest: seq<string>): Run
    requires pos <= |line| && Consistent(lx)
  {
    var first := RunLine(lx, line, pos);
    if first.fault.Some? then first else Then(first.stored, ReadLines(first.lexer, rest))
  }

  lemma ReadLinesResume(lx: Lexer, lines: seq<string>)
    requires lines != [] && Consistent(lx)
    ensures ReadLines(lx, lines) == Resume(LineStart(lx), lines[0], 0, lines[1..])
  {
  }

  lemma ResumeLineEnd(lx: Lexer, line: string, rest: seq<string>)
    requires Consistent(lx)
    ensures Resume(lx, line, |line|, rest) == ReadLines(lx, rest)
  {
    assert RunLine(lx, line, |line|) == Run(lx, [], None);
    var tail := ReadLines(lx, rest);
    assert [] + tail.stored == tail.stored;
  }

  /** One turn of the inner loop, seen from the whole read. */
  lemma ResumeStep(lx: Lexer, line: string, pos: nat, rest: seq<string>)
    requires pos < |line| && Consistent(lx)
    ensures Step(lx, line, pos).Stop? ==> Resume(lx, line, pos, rest) == Run(lx, [], Some(Step(lx, line, pos).fault))
    ensures Step(lx, line, pos).Next? ==>
      var n := Step(lx, line, pos);
      Resume(lx, line, pos, rest) == Then(Stores(n.stored), Resume(n.lexer, line, n.pos, rest))
  {
    var n := Step(lx, line, pos);
    if n.Next? {
      var r := RunLine(n.lexer, line, n.pos);
      var w := Run(r.lexer, Stores(n.stored) + r.stored, r.fault);
      RunLineNext(lx, line, pos, n, r, w);
      ResumeOf(lx, line, pos, rest, w);
      ResumeOf(n.lexer, line, n.pos, rest, r);
      if r.fault.None? {
        ThenThen(Stores(n.stored), r.stored, ReadLines(r.lexer, rest));
      }
    } else {
      ResumeOf(lx, line, pos, rest, Run(lx, [], Some(n.fault)));
    }
  }

  /** The inner loop after a turn that continues: the turn's entry, then the rest of the line. */
  lemma RunLineNext(lx: Lexer, line: string, pos: nat, n: StepResult, r: Run, w: Run)
    requires pos < |line| && Consistent(lx) && n == Step(lx, line, pos) && n.Next?
    requires r == RunLine(n.lexer, line, n.pos) && w == Run(r.lexer, Stores(n.stored) + r.stored, r.fault)
    ensures RunLine(lx, line, pos) == w
  {
  }

  /** `Resume` in terms of the run `w` of the rest of the line. */
  lemma ResumeOf(lx: Lexer, line: string, pos: nat, rest: seq<string>, w: Run)
    requires pos <= |line| && Consistent(lx) && w == RunLine(lx, line, pos)
    ensures Resume(lx, line, pos, rest) == if w.fault.Some? then w else Then(w.stored, ReadLines(w.lexer, rest))
  {
  }

  /** One turn of the inner loop, after the entries `done` were stored: where the whole read then stands. */
  lemma Resumed(done: seq<Entry>, lx: Lexer, line: string, pos: nat, rest: seq<string>, whole: Run, n: StepResult)
    requires pos < |line| && Consistent(lx) && n == Step(lx, line, pos)
    requires Then(done, Resume(lx, line, pos, rest)) == whole
    ensures n.Stop? ==> whole == Run(lx, done, Some(n.fault))
    ensures n.Next? && n.stored.None? ==> Then(done, Resume(n.lexer, line, n.pos, rest)) == whole
    ensures n.Next? && n.stored.Some? ==> Then(done + [n.stored.value], Resume(n.lexer, line, n.pos, rest)) == whole
  {
    ResumeStep(lx, line, pos, rest);
    if n.Next? {
      var r := Resume(n.lexer, line, n.pos, rest);
      ThenThen(done, Stores(n.stored), r);
      if n.stored.None? {
        SeqAppendEmpty(done);
      }
    } else {
      SeqAppendEmpty(done);
    }
  }

  lemma ThenThen(a: seq<Entry>, b: seq<Entry>, r: Run)
    ensures Then(a, Then(b, r)) == Then(a + b, r)
  {
    assert a + (b + r.stored) == a + b + r.stored;
  }

  lemma SeqAppendEmpty(a: seq<Entry>)
    ensures a + [] == a
  {
  }
}
