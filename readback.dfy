/**
  Reading back the lines `StringTable.write` (nslocalized/store.py) produces:
  a comment line leaves the reader expecting a key with that comment
  pending, a key-value line stores the entry, a blank line between blocks
  is skipped, and so the written table parses to its own entries.
 */
module ReadBack {
  import opened Wrappers
  import opened Text
  import opened Entries
  import opened Patterns
  import opened Utils
  import opened Lexer
  import opened RoundTrip
  import opened Writer
  import opened Ordering

  /** Between entries: expecting an item, nothing pending. */
  predicate Idle(lx: Lexer) {
    lx.state == ExpectingItem && lx.key.None? && lx.target.None? && lx.comment.None?
  }

  /**
    A comment that reads back as itself: not empty, no space at either end
    (the reader strips them), not starting with a quote (after the closing
    star-slash the reader looks for a key from the space before the text),
    no star-slash inside and no line break.
   */
  predicate CommentSafe(c: string) {
    && c != [] && !IsSpace(c[0]) && !IsSpace(c[|c| - 1]) && c[0] != '"'
    && (forall i :: 0 <= i < |c| - 1 ==> !ClosesAt(c, i))
    && (forall i :: 0 <= i < |c| ==> !IsLineBreak(c[i]))
  }

  /** The run of turns that ends exactly at the end of the line stores nothing more. */
  lemma {:induction false} RunLineEnd(lx: Lexer, line: string, pos: nat)
    requires Consistent(lx) && pos == |line|
    ensures RunLine(lx, line, pos) == Run(lx, [], None)
  {
  }

  /** A last turn that stores `x` and reaches the end of the line. */
  lemma {:induction false} RunLineStore(lx: Lexer, line: string, pos: nat, lx2: Lexer, x: Entry)
    requires pos < |line| && Consistent(lx)
    requires Step(lx, line, pos) == Next(lx2, |line|, Some(x))
    ensures RunLine(lx, line, pos) == Run(lx2, [x], None)
  {
    RunLineEnd(lx2, line, |line|);
    assert [x] + [] == [x];
  }

  /** `_comment_re.search` finds the first star-slash. */
  lemma {:induction false} SearchCommentEndFinds(line: string, pos: nat, q: nat)
    requires pos <= q && q + 1 < |line| && line[q] == '*' && line[q + 1] == '/'
    requires forall i :: pos <= i < q ==> !ClosesAt(line, i)
    ensures SearchCommentEnd(line, pos) == Some(q)
    decreases q - pos
  {
    if pos < q {
      assert !ClosesAt(line, pos);
      SearchCommentEndFinds(line, pos + 1, q);
    }
  }

  /** A slice given character by character. */
  lemma {:induction false} SliceAt(line: string, p: nat, s: string)
    requires p + |s| <= |line|
    requires forall i :: 0 <= i < |s| ==> line[p + i] == s[i]
    ensures line[p..p + |s|] == s
  {
    assert forall i :: 0 <= i < |s| ==> line[p..p + |s|][i] == s[i];
  }

  /** The characters of `"/* " + c + " */\n"`. */
  lemma {:induction false} CommentLayout(c: string, line: string)
    requires line == "/* " + c + " */\n"
    ensures |line| == |c| + 7
    ensures line[0] == '/' && line[1] == '*' && line[2] == ' '
    ensures forall i :: 0 <= i < |c| ==> line[3 + i] == c[i]
    ensures line[3 + |c|] == ' ' && line[4 + |c|] == '*' && line[5 + |c|] == '/' && line[6 + |c|] == '\n'
  {
    var a := "/* " + c;
    assert forall i :: 0 <= i < |c| ==> a[3 + i] == c[i];
    assert forall i :: 0 <= i < |a| ==> line[i] == a[i];
  }

  /** The first turn of a comment line: the opener. */
  lemma {:induction false} CommentOpens(lx: Lexer, line: string, lx1: Lexer)
    requires Idle(lx) && |line| > 2 && line[0] == '/' && line[1] == '*'
    requires lx1 == lx.(state := InComment, chunks := "")
    ensures Consistent(lx) && Step(lx, line, 0) == Next(lx1, 2, None)
  {
    assert SkipSpace(line, 0) == 0;
    assert line[0..2] == "/*";
  }

  /** A comment that closes on this line: `pos` stays put and the gathered text becomes the comment. */
  lemma {:induction false} CommentStepFound(lx: Lexer, line: string, pos: nat, q: nat, chunks: string)
    requires lx.state == InComment && pos < |line|
    requires SearchCommentEnd(line, pos) == Some(q) && chunks == lx.chunks + Strip(line[pos..q])
    ensures Step(lx, line, pos) == Next(lx.(state := ExpectingKey, chunks := chunks, comment := Some(chunks)), pos, None)
  {
  }

  /** The first star-slash of the comment line is the one the writer put after the text. */
  lemma {:induction false} CommentEndFound(line: string, c: string, q: nat)
    requires CommentSafe(c) && q == 4 + |c|
    requires |line| == |c| + 7 && line[2] == ' ' && (forall i :: 0 <= i < |c| ==> line[3 + i] == c[i])
    requires line[3 + |c|] == ' ' && line[4 + |c|] == '*' && line[5 + |c|] == '/'
    ensures SearchCommentEnd(line, 2) == Some(q)
  {
    forall i | 2 <= i < q ensures !ClosesAt(line, i) {
      if 3 <= i < 2 + |c| {
        assert line[i] == c[i - 3] && line[i + 1] == c[i - 2];
        assert !ClosesAt(c, i - 3);
      }
    }
    SearchCommentEndFinds(line, 2, q);
  }

  /** The text between the opener and the star-slash, stripped, is the comment. */
  lemma {:induction false} CommentText(line: string, c: string, q: nat)
    requires c != [] && !IsSpace(c[0]) && !IsSpace(c[|c| - 1]) && q == 4 + |c|
    requires line == "/* " + c + " */\n"
    ensures q <= |line| && Strip(line[2..q]) == c
  {
    var sp: string := " ";
    var mid := sp + c + sp;
    assert line == "/*" + mid + "*/\n";
    assert line[2..q] == mid;
    StripTrimmed(sp, c, sp);
  }

  /** The third turn: no quote after the spaces, so the rest of the line is skipped. */
  lemma {:induction false} CommentRest(lx2: Lexer, line: string, c: string)
    requires lx2.state == ExpectingKey && Consistent(lx2)
    requires c != [] && !IsSpace(c[0]) && c[0] != '"'
    requires |line| > 3 && line[2] == ' ' && line[3] == c[0]
    ensures Step(lx2, line, 2) == Next(lx2, |line|, None)
  {
    assert SkipSpace(line, 3) == 3;
    assert SkipSpace(line, 2) == 3;
  }

  /** The first characters of the comment line, as the first and third turns see them. */
  lemma {:induction false} CommentEdges(c: string, line: string)
    requires c != [] && line == "/* " + c + " */\n"
    ensures |line| > 3 && line[0] == '/' && line[1] == '*' && line[2] == ' ' && line[3] == c[0]
  {
    CommentLayout(c, line);
  }

  /** The second turn: the text up to the star-slash, stripped, becomes the pending comment. */
  lemma {:induction false} CommentCloses(lx1: Lexer, line: string, c: string, lx2: Lexer)
    requires lx1.state == InComment && lx1.chunks == "" && CommentSafe(c) && line == "/* " + c + " */\n"
    requires lx2 == lx1.(state := ExpectingKey, chunks := c, comment := Some(c))
    ensures Step(lx1, line, 2) == Next(lx2, 2, None)
  {
    var q := 4 + |c|;
    CommentEnd(line, c, q);
    assert lx1.chunks + Strip(line[2..q]) == c;
    CommentStepFound(lx1, line, 2, q, c);
  }

  /** Where the comment line's star-slash is, and what the reader strips out of it. */
  lemma {:induction false} CommentEnd(line: string, c: string, q: nat)
    requires CommentSafe(c) && line == "/* " + c + " */\n" && q == 4 + |c|
    ensures 2 < q <= |line| && SearchCommentEnd(line, 2) == Some(q) && Strip(line[2..q]) == c
  {
    CommentLayout(c, line);
    CommentEndFound(line, c, q);
    CommentText(line, c, q);
  }

  /** The line written for the comment `c` leaves the reader expecting a key, with `c` pending. */
  lemma {:induction false} CommentLineRead(lx: Lexer, line: string, c: string, lx2: Lexer)
    requires Idle(lx) && CommentSafe(c) && line == "/* " + c + " */\n"
    requires lx2 == lx.(state := ExpectingKey, chunks := c, comment := Some(c))
    ensures Consistent(lx) && RunLine(lx, line, 0) == Run(lx2, [], None)
  {
    CommentEdges(c, line);
    var lx1 := lx.(state := InComment, chunks := "");
    CommentOpens(lx, line, lx1);
    assert lx2 == lx1.(state := ExpectingKey, chunks := c, comment := Some(c));
    CommentCloses(lx1, line, c, lx2);
    CommentRest(lx2, line, c);
    RunLineSkip(lx, line, 0, lx1, 2);
    RunLineSkip(lx1, line, 2, lx2, 2);
    RunLineSkip(lx2, line, 2, lx2, |line|);
    RunLineEnd(lx2, line, |line|);
  }

  /** The characters of `'"%s" = "%s";\n'` with the escaped key `ek` and the escaped target `ev`. */
  lemma {:induction false} EntryLayout(line: string, ek: string, ev: string, p: nat)
    requires line == "\"" + ek + "\" = \"" + ev + "\";\n" && p == |ek| + 6
    ensures |line| > |ek| + 6 && line[0] == '"'
    ensures line[1..|ek| + 2] == ek + "\""
    ensures line[|ek| + 2] == ' ' && line[|ek| + 3] == '=' && line[|ek| + 4] == ' ' && line[|ek| + 5] == '"'
    ensures p + |ev| + 3 == |line| && line[p..p + |ev| + 1] == ev + "\""
    ensures line[p + |ev| + 1] == ';' && line[p + |ev| + 2] == '\n'
  {
    var a := "\"" + ek + "\" = \"";
    var b := a + ev;
    assert |a| == |ek| + 6;
    assert forall i :: 0 <= i < |a| ==> line[i] == a[i];
    assert forall i :: 0 <= i < |ev| ==> line[|a| + i] == ev[i] by {
      forall i | 0 <= i < |ev| ensures line[|a| + i] == ev[i] {
        assert line[|a| + i] == b[|a| + i];
      }
    }
    var kq := ek + "\"";
    forall i | 0 <= i < |kq| ensures line[1 + i] == kq[i] {
      assert line[1 + i] == a[1 + i];
    }
    SliceAt(line, 1, kq);
    var vq := ev + "\"";
    forall i | 0 <= i < |vq| ensures line[|ek| + 6 + i] == vq[i] {
      if i == |ev| {
        assert line[|ek| + 6 + i] == '"';
      }
    }
    SliceAt(line, |ek| + 6, vq);
  }

  /** The first turn of a key-value line: the opening quote of the key. */
  lemma {:induction false} KeyOpens(lx: Lexer, line: string, la: Lexer)
    requires lx.state == ExpectingKey && Consistent(lx) && |line| > 1 && line[0] == '"'
    requires la == lx.(state := InKey, chunks := "")
    ensures Step(lx, line, 0) == Next(la, 1, None)
  {
    assert SkipSpace(line, 0) == 0;
  }

  /** `" = "` after the key. */
  lemma {:induction false} EqualsTurn(lb: Lexer, line: string, p: nat, lc: Lexer)
    requires lb.state == ExpectingEquals && Consistent(lb)
    requires p + 3 < |line| && line[p] == ' ' && line[p + 1] == '=' && line[p + 2] == ' ' && line[p + 3] == '"'
    requires lc == lb.(state := ExpectingTarget)
    ensures Step(lb, line, p) == Next(lc, p + 3, None)
  {
    assert SkipSpace(line, p + 1) == p + 1;
    assert SkipSpace(line, p) == p + 1;
    assert SkipSpace(line, p + 3) == p + 3;
    assert SkipSpace(line, p + 2) == p + 3;
  }

  /** The opening quote of the target. */
  lemma {:induction false} TargetOpens(lc: Lexer, line: string, p: nat, ld: Lexer)
    requires lc.state == ExpectingTarget && Consistent(lc) && p < |line| && line[p] == '"'
    requires ld == lc.(state := InTarget, chunks := "")
    ensures Step(lc, line, p) == Next(ld, p + 1, None)
  {
    assert SkipSpace(line, p) == p;
  }

  /** `;` and the line end after the target: the pending entry is stored. */
  lemma {:induction false} SemicolonTurn(le: Lexer, line: string, p: nat, lf: Lexer, x: Entry)
    requires le.state == ExpectingSemicolon && Consistent(le)
    requires p + 2 == |line| && line[p] == ';' && line[p + 1] == '\n'
    requires lf == le.(state := ExpectingItem, key := None, target := None, comment := None)
    requires x == Entry(le.key.value, le.target.value, le.comment)
    ensures Step(le, line, p) == Next(lf, |line|, Some(x))
  {
    assert SkipSpace(line, p) == p;
    assert SkipSpace(line, p + 2) == p + 2;
    assert SkipSpace(line, p + 1) == p + 2;
  }

  /** From the opening quote of the key to the opening quote of the target. */
  lemma {:induction false} KeyHalf(lx: Lexer, line: string, k: string, ek: string, ld: Lexer, p: nat)
    requires lx.state == ExpectingKey && Consistent(lx) && HexSafe(k) && ek == Escaped(k)
    requires |line| > |ek| + 6 && line[0] == '"' && line[1..|ek| + 2] == ek + "\""
    requires line[|ek| + 2] == ' ' && line[|ek| + 3] == '=' && line[|ek| + 4] == ' ' && line[|ek| + 5] == '"'
    requires p == |ek| + 6
    requires ld == lx.(state := InTarget, chunks := "", key := Some(k), skipNl := false)
    ensures RunLine(lx, line, 0) == RunLine(ld, line, p)
  {
    var la := lx.(state := InKey, chunks := "");
    KeyOpens(lx, line, la);
    RunLineSkip(lx, line, 0, la, 1);
    var e1: nat := |ek| + 2;
    assert la.chunks + k == k;
    DecodeEscaped(la, line, 1, k, k, e1);
    var lb := Closed(la, k);
    var lc := lb.(state := ExpectingTarget);
    EqualsTurn(lb, line, e1, lc);
    RunLineSkip(lb, line, e1, lc, e1 + 3);
    assert ld == lc.(state := InTarget, chunks := "");
    TargetOpens(lc, line, e1 + 3, ld);
    RunLineSkip(lc, line, e1 + 3, ld, p);
  }

  /** From the first character of the target to the end of the line. */
  lemma {:induction false} TargetHalf(ld: Lexer, line: string, v: string, ev: string, p: nat, lf: Lexer, x: Entry)
    requires ld.state == InTarget && Consistent(ld) && ld.chunks == "" && HexSafe(v) && ev == Escaped(v)
    requires p + |ev| + 3 == |line| && line[p..p + |ev| + 1] == ev + "\""
    requires line[p + |ev| + 1] == ';' && line[p + |ev| + 2] == '\n'
    requires lf == ld.(state := ExpectingItem, chunks := v, key := None, target := None, comment := None, skipNl := false)
    requires x == Entry(ld.key.value, v, ld.comment)
    ensures RunLine(ld, line, p) == Run(lf, [x], None)
  {
    var e2: nat := p + |ev| + 1;
    assert ld.chunks + v == v;
    DecodeEscaped(ld, line, p, v, v, e2);
    SemicolonEnd(ld, line, v, e2, lf, x);
  }

  /** After the target's closing quote: the semicolon stores the entry and ends the line. */
  lemma {:induction false} SemicolonEnd(ld: Lexer, line: string, v: string, e2: nat, lf: Lexer, x: Entry)
    requires ld.state == InTarget && Consistent(ld)
    requires e2 + 2 == |line| && line[e2] == ';' && line[e2 + 1] == '\n'
    requires lf == ld.(state := ExpectingItem, chunks := v, key := None, target := None, comment := None, skipNl := false)
    requires x == Entry(ld.key.value, v, ld.comment)
    ensures RunLine(Closed(ld, v), line, e2) == Run(lf, [x], None)
  {
    var le := Closed(ld, v);
    assert lf == le.(state := ExpectingItem, key := None, target := None, comment := None);
    SemicolonTurn(le, line, e2, lf, x);
    RunLineStore(le, line, e2, lf, x);
  }

  /** The key-value line written for the key `k` and target `v` stores them, with the pending comment. */
  lemma {:induction false} EntryLineRead(lx: Lexer, line: string, k: string, v: string, lf: Lexer, x: Entry)
    requires lx.state == ExpectingKey && lx.key.None? && lx.target.None? && HexSafe(k) && HexSafe(v)
    requires line == "\"" + Escaped(k) + "\" = \"" + Escaped(v) + "\";\n"
    requires lf == lx.(state := ExpectingItem, chunks := v, key := None, target := None, comment := None, skipNl := false)
    requires x == Entry(k, v, lx.comment)
    ensures Consistent(lx) && RunLine(lx, line, 0) == Run(lf, [x], None)
  {
    var ek, ev := Escaped(k), Escaped(v);
    var p := |ek| + 6;
    EntryLayout(line, ek, ev, p);
    var ld := lx.(state := InTarget, chunks := "", key := Some(k), skipNl := false);
    KeyHalf(lx, line, k, ek, ld, p);
    TargetHalf(ld, line, v, ev, p, lf, x);
  }

  /** A line holding only a line break, between blocks, changes nothing. */
  lemma {:induction false} BlankLineRead(lx: Lexer)
    requires Idle(lx)
    ensures RunLine(lx, "\n", 0) == Run(lx, [], None)
  {
    var line := "\n";
    assert SkipSpace(line, 0) == |line| by {
      assert IsSpace(line[0]);
    }
    StripEmptyIff(line);
    assert Step(lx, line, 0) == Next(lx, 1, None);
    RunLineEnd(lx, line, 1);
  }

  /** The outer loop over `a + b`: the lines `a`, then, unless they stopped the read, the lines `b`. */
  lemma {:induction false} ReadLinesAppend(lx: Lexer, a: seq<string>, b: seq<string>)
    requires Consistent(lx)
    ensures var r := ReadLines(lx, a);
      ReadLines(lx, a + b) == if r.fault.Some? then r else Then(r.stored, ReadLines(r.lexer, b))
    decreases |a|
  {
    if a == [] {
      assert a + b == b;
      var t := ReadLines(lx, b);
      assert [] + t.stored == t.stored;
    } else {
      assert (a + b)[0] == a[0] && (a + b)[1..] == a[1..] + b;
      var first := RunLine(LineStart(lx), a[0], 0);
      if first.fault.None? {
        ReadLinesAppend(first.lexer, a[1..], b);
        var r1 := ReadLines(first.lexer, a[1..]);
        if r1.fault.None? {
          ThenThen(first.stored, r1.stored, ReadLines(r1.lexer, b));
        }
      }
    }
  }

  /** The comment a written block carries when read back: the entry's own, or the placeholder. */
  function Shown(c: Option<string>): Option<string> {
    if Truthy(c) then c else Some("No description")
  }

  /** An entry as it reads back from its block. */
  function ShownEntry(e: Entry): Entry {
    Entry(e.source, e.target, Shown(e.comment))
  }

  function ShownAll(es: seq<Entry>): (r: seq<Entry>)
    ensures |r| == |es| && forall i :: 0 <= i < |es| ==> r[i] == ShownEntry(es[i])
  {
    seq(|es|, i requires 0 <= i < |es| => ShownEntry(es[i]))
  }

  /** The table as it reads back: every entry with its shown comment. */
  function ShownTable(m: map<string, Entry>): (r: map<string, Entry>)
    ensures r.Keys == m.Keys && forall k :: k in m ==> r[k] == ShownEntry(m[k])
  {
    map k | k in m :: ShownEntry(m[k])
  }

  /** An entry whose block reads back as itself, up to the placeholder comment. */
  predicate BlockSafe(e: Entry) {
    HexSafe(e.source) && HexSafe(e.target) && (Truthy(e.comment) ==> CommentSafe(e.comment.value))
  }

  /** The comment line of a safe entry opens and closes around a safe text. */
  lemma {:induction false} CommentLineShown(e: Entry)
    requires BlockSafe(e)
    ensures Shown(e.comment).Some? && CommentSafe(Shown(e.comment).value)
    ensures CommentLine(e.comment) == "/* " + Shown(e.comment).value + " */\n"
  {
    if !Truthy(e.comment) {
      var c := "No description";
      assert c[0] == 'N' && c[|c| - 1] == 'n';
      assert forall i :: 0 <= i < |c| ==> c[i] != '/' && !IsLineBreak(c[i]);
    }
  }

  /** The outer loop, one line in: the first line's run, then the rest from where it left the variables. */
  lemma {:induction false} ReadLinesCons(lx: Lexer, line: string, rest: seq<string>, lines: seq<string>, first: Run)
    requires Consistent(lx) && lines == [line] + rest
    requires first == RunLine(LineStart(lx), line, 0) && first.fault.None?
    ensures ReadLines(lx, lines) == Then(first.stored, ReadLines(first.lexer, rest))
  {
    assert lines[0] == line && lines[1..] == rest;
  }

  /** A written block, comment line then key-value line, read from between entries. */
  lemma {:induction false} BlockRead(lx: Lexer, cl: string, el: string, e: Entry)
    requires Idle(lx) && BlockSafe(e)
    requires cl == CommentLine(e.comment) && el == EntryLine(e)
    ensures var r := ReadLines(lx, [cl, el]);
      r.fault.None? && Idle(r.lexer) && r.stored == [ShownEntry(e)]
  {
    CommentLineShown(e);
    var c := Shown(e.comment).value;
    var l0 := LineStart(lx);
    var lx2 := l0.(state := ExpectingKey, chunks := c, comment := Some(c));
    CommentLineRead(l0, cl, c, lx2);
    var rest := [el];
    assert [cl, el] == [cl] + rest;
    ReadLinesCons(lx, cl, rest, [cl, el], Run(lx2, [], None));
    EntryAfterComment(lx2, el, rest, e);
    var b := ReadLines(lx2, rest);
    assert [] + b.stored == b.stored;
  }

  /** The key-value line of a block, read with the block's comment pending. */
  lemma {:induction false} EntryAfterComment(lx2: Lexer, el: string, rest: seq<string>, e: Entry)
    requires lx2.state == ExpectingKey && lx2.key.None? && lx2.target.None? && lx2.comment == Shown(e.comment)
    requires BlockSafe(e) && el == EntryLine(e) && rest == [el]
    ensures var r := ReadLines(lx2, rest);
      r.fault.None? && Idle(r.lexer) && r.stored == [ShownEntry(e)]
  {
    var l1 := LineStart(lx2);
    var lf := l1.(state := ExpectingItem, chunks := e.target, key := None, target := None, comment := None, skipNl := false);
    var x := Entry(e.source, e.target, l1.comment);
    EntryLineRead(l1, el, e.source, e.target, lf, x);
    ReadLinesCons(lx2, el, [], rest, Run(lf, [x], None));
    assert ReadLines(lf, []) == Run(lf, [], None);
    assert [x] + [] == [x];
  }

  /** The decoder's lines of the blocks of `es`, one entry at a time from the back. */
  lemma {:induction false} BlockLinesSnoc(es: seq<Entry>, pre: seq<Entry>, e: Entry)
    requires |es| > 1 && pre == es[..|es| - 1] && e == es[|es| - 1]
    ensures BlockLines(Blocks(es)) == BlockLines(Blocks(pre)) + ["\n", CommentLine(e.comment), EntryLine(e)]
  {
    var bs := Blocks(es);
    assert bs[..|bs| - 1] == Blocks(pre);
  }

  /** A blank line and then a block, read from between entries. */
  lemma {:induction false} SeparatedBlockRead(lx: Lexer, tail: seq<string>, e: Entry)
    requires Idle(lx) && BlockSafe(e)
    requires tail == ["\n", CommentLine(e.comment), EntryLine(e)]
    ensures var r := ReadLines(lx, tail);
      r.fault.None? && Idle(r.lexer) && r.stored == [ShownEntry(e)]
  {
    var l0 := LineStart(lx);
    var blank, cl, el := "\n", CommentLine(e.comment), EntryLine(e);
    var rest := [cl, el];
    assert tail == [blank] + rest;
    BlankLineRead(l0);
    ReadLinesCons(lx, blank, rest, tail, Run(l0, [], None));
    BlockRead(l0, cl, el, e);
    var b := ReadLines(l0, rest);
    assert [] + b.stored == b.stored;
  }

  /** Reading the decoder's lines of written blocks stores each entry in turn and ends between entries. */
  lemma {:induction false} BlocksRead(lx: Lexer, es: seq<Entry>)
    requires Idle(lx) && forall i :: 0 <= i < |es| ==> BlockSafe(es[i])
    ensures var r := ReadLines(lx, BlockLines(Blocks(es)));
      r.fault.None? && Idle(r.lexer) && r.stored == ShownAll(es)
    decreases |es|
  {
    var bs := Blocks(es);
    if es == [] {
      assert ShownAll(es) == [];
    } else if |es| == 1 {
      BlockRead(lx, bs[0].0, bs[0].1, es[0]);
      assert ShownAll(es) == [ShownEntry(es[0])];
    } else {
      var pre := es[..|es| - 1];
      var e := es[|es| - 1];
      BlocksRead(lx, pre);
      var tail := ["\n", CommentLine(e.comment), EntryLine(e)];
      var front := BlockLines(Blocks(pre));
      BlockLinesSnoc(es, pre, e);
      ReadLinesAppend(lx, front, tail);
      var r := ReadLines(lx, front);
      SeparatedBlockRead(r.lexer, tail, e);
      ShownAllSnoc(es, pre, e);
    }
  }

  lemma {:induction false} ShownAllSnoc(es: seq<Entry>, pre: seq<Entry>, e: Entry)
    requires |es| > 0 && pre == es[..|es| - 1] && e == es[|es| - 1]
    ensures ShownAll(es) == ShownAll(pre) + [ShownEntry(e)]
  {
    var a := ShownAll(es);
    var b := ShownAll(pre) + [ShownEntry(e)];
    assert |a| == |b|;
    forall i | 0 <= i < |a| ensures a[i] == b[i] {
      if i < |pre| {
        assert es[i] == pre[i];
      }
    }
  }

  /** The decoder's lines of written entries parse without fault to those entries, in order. */
  lemma WrittenParses(es: seq<Entry>)
    requires forall i :: 0 <= i < |es| ==> BlockSafe(es[i])
    ensures Parse(BlockLines(Blocks(es))).fault.None?
    ensures Parse(BlockLines(Blocks(es))).stored == ShownAll(es)
  {
    BlocksRead(Initial, es);
  }

  /** Storing entries with fresh, distinct sources adds each under its source. */
  lemma {:induction false} StoreAllFresh(m: map<string, Entry>, es: seq<Entry>)
    requires forall i :: 0 <= i < |es| ==> es[i].source !in m
    requires forall i, j :: 0 <= i < j < |es| ==> es[i].source != es[j].source
    ensures forall k :: k in m ==> k in StoreAll(m, es) && StoreAll(m, es)[k] == m[k]
    ensures forall i :: 0 <= i < |es| ==> es[i].source in StoreAll(m, es) && StoreAll(m, es)[es[i].source] == es[i]
    decreases |es|
  {
    if es != [] {
      var m1 := Stored(m, es[0]);
      forall i | 0 <= i < |es[1..]| ensures es[1..][i].source !in m1 {
        assert es[1..][i] == es[i + 1];
      }
      forall i, j | 0 <= i < j < |es[1..]| ensures es[1..][i].source != es[1..][j].source {
        assert es[1..][i] == es[i + 1] && es[1..][j] == es[j + 1];
      }
      StoreAllFresh(m1, es[1..]);
      forall i | 0 <= i < |es| ensures es[i].source in StoreAll(m, es) && StoreAll(m, es)[es[i].source] == es[i] {
        if i > 0 {
          assert es[1..][i - 1] == es[i];
        }
      }
    }
  }

  /** Storing the shown entries of a table, in ascending key order, into an empty table gives the shown table. */
  lemma ShownStored(m: map<string, Entry>)
    requires KeyedBySource(m)
    ensures StoreAll(map[], ShownAll(Ordered(m))) == ShownTable(m)
  {
    var ks := SortedKeys(m.Keys);
    var sh := ShownAll(Ordered(m));
    ShownSources(m, ks, sh);
    var t := StoreAll(map[], sh);
    StoredByKeys(m, ks, sh, t);
    ShownTableIs(m, t);
  }

  /** Storing one shown entry per key, keys all different, holds each key's shown entry. */
  lemma StoredByKeys(m: map<string, Entry>, ks: seq<string>, sh: seq<Entry>, t: map<string, Entry>)
    requires |sh| == |ks| && forall k :: k in m <==> k in ks
    requires forall i :: 0 <= i < |sh| ==> sh[i].source == ks[i] && sh[i] == ShownEntry(m[ks[i]])
    requires forall i, j :: 0 <= i < j < |sh| ==> sh[i].source != sh[j].source
    requires t == StoreAll(map[], sh)
    ensures t.Keys == m.Keys && forall k :: k in m ==> t[k] == ShownEntry(m[k])
  {
    StoreAllFresh(map[], sh);
    forall k ensures k in t <==> k in m {
      StoreAllKeys(map[], sh, k);
      if k in m {
        var i :| 0 <= i < |ks| && ks[i] == k;
        assert sh[i].source == k;
      }
    }
    forall k | k in m ensures t[k] == ShownEntry(m[k]) {
      var i :| 0 <= i < |ks| && ks[i] == k;
      assert sh[i].source == k;
    }
  }

  /** A table with the keys of `m` and each key's shown entry is the shown table. */
  lemma ShownTableIs(m: map<string, Entry>, t: map<string, Entry>)
    requires t.Keys == m.Keys && forall k :: k in m ==> t[k] == ShownEntry(m[k])
    ensures t == ShownTable(m)
  {
    assert t.Keys == ShownTable(m).Keys;
  }

  /** The shown entries of a table, in ascending key order: one per key, in the order of the keys. */
  lemma ShownSources(m: map<string, Entry>, ks: seq<string>, sh: seq<Entry>)
    requires KeyedBySource(m) && ks == SortedKeys(m.Keys) && sh == ShownAll(Ordered(m))
    ensures |sh| == |ks| && forall k :: k in m <==> k in ks
    ensures forall i :: 0 <= i < |sh| ==> sh[i].source == ks[i] && sh[i] == ShownEntry(m[ks[i]])
    ensures forall i, j :: 0 <= i < j < |sh| ==> sh[i].source != sh[j].source
  {
    SortedKeysOrder(m.Keys);
    forall i | 0 <= i < |sh| ensures sh[i].source == ks[i] && sh[i] == ShownEntry(m[ks[i]]) {
      assert ks[i] in m;
    }
    forall i, j | 0 <= i < j < |sh| ensures sh[i].source != sh[j].source {
      BelowIrreflexive(ks[i]);
    }
  }

  /**
    A table written with `write` and read into an empty table comes back
    entry for entry, each with its shown comment, so unchanged when every
    comment is non-empty. The written text after its byte-order mark is
    exactly the parsed lines put together, and splitting it at its line
    breaks gives those lines back.
   */
  lemma TableRoundTrip(m: map<string, Entry>, encoding: string)
    requires KeyedBySource(m) && forall k :: k in m ==> BlockSafe(m[k])
    ensures Written(m, encoding) == Bom(encoding) + Concat(BlockLines(Blocks(Ordered(m))))
    ensures SplitLines(Concat(BlockLines(Blocks(Ordered(m))))) == BlockLines(Blocks(Ordered(m)))
    ensures Parse(BlockLines(Blocks(Ordered(m)))).fault.None?
    ensures StoreAll(map[], Parse(BlockLines(Blocks(Ordered(m)))).stored) == ShownTable(m)
    ensures (forall k :: k in m ==> Truthy(m[k].comment)) ==>
      StoreAll(map[], Parse(BlockLines(Blocks(Ordered(m)))).stored) == m
  {
    var es := Ordered(m);
    var ks := SortedKeys(m.Keys);
    BlockLinesConcat(Blocks(es));
    WrittenSplits(m);
    forall i | 0 <= i < |es| ensures BlockSafe(es[i]) {
      assert ks[i] in m;
    }
    WrittenParses(es);
    ShownStored(m);
    if forall k :: k in m ==> Truthy(m[k].comment) {
      ShownTableSame(m);
    }
  }

  /** With every comment non-empty, the table reads back as it is. */
  lemma ShownTableSame(m: map<string, Entry>)
    requires forall k :: k in m ==> Truthy(m[k].comment)
    ensures ShownTable(m) == m
  {
  }

  /** The file of the first read test: one commented entry with accented text, stored with its comment. */
  lemma ReadsCommentedEntry(k: string, v: string, c: string)
    requires k == "åéîøü" && v == "ÅÉÎØÜ" && c == "Test string"
    ensures var lines := ["/* " + c + " */\n", "\"" + k + "\" = \"" + v + "\";\n"];
      Parse(lines).fault.None? && Parse(lines).stored == [Entry(k, v, Some(c))]
  {
    var e := Entry(k, v, Some(c));
    SampleSafe(k, v, c);
    PlainText(k);
    PlainText(v);
    BlockRead(Initial, CommentLine(e.comment), EntryLine(e), e);
  }

  lemma SampleSafe(k: string, v: string, c: string)
    requires k == "åéîøü" && v == "ÅÉÎØÜ" && c == "Test string"
    ensures BlockSafe(Entry(k, v, Some(c)))
  {
    HexSafeIff(k);
    HexSafeIff(v);
    assert forall i :: 0 <= i < |c| ==> c[i] != '/' && !IsLineBreak(c[i]);
  }

  /** Accented letters from U+00C0 to U+00FF are written as they are. */
  lemma PlainText(s: string)
    requires s in {"åéîøü", "ÅÉÎØÜ"}
    ensures Escaped(s) == s
  {
    assert forall i :: 0 <= i < |s| ==> 0xC0 <= s[i] as int <= 0xFF;
    EscapedPlain(s);
  }
  /**
    A quoted key left open at the end of its line continues on the next one:
    the first line's terminator is kept, and the `\n` pushed at the next
    line's start follows it.
   */
  lemma ReadsStringAcrossLines(l1: string, l2: string)
    requires l1 == "\"ab\n" && l2 == "c\" = \"d\";\n"
    ensures Parse([l1, l2]).fault.None? && Parse([l1, l2]).stored == [Entry("ab\n\nc", "d", None)]
  {
    var pending := Initial.(state := InKey, chunks := "ab\n", skipNl := false);
    var e := Entry("ab\n\nc", "d", None);
    var done := pending.(state := ExpectingItem, chunks := "d");
    OpenKeyLine(l1, pending);
    assert LineStart(pending) == pending.(chunks := "ab\n\n");
    ClosingLine(l2, LineStart(pending), done, e);
    assert [l1, l2][1..] == [l2];
    assert [l2][1..] == [];
    assert ReadLines(done, []) == Run(done, [], None);
    assert ReadLines(pending, [l2]) == Run(done, [e], None);
  }

  /** The first line opens the key and keeps the rest of the line, terminator included. */
  lemma OpenKeyLine(l1: string, pending: Lexer)
    requires l1 == "\"ab\n" && pending == Initial.(state := InKey, chunks := "ab\n", skipNl := false)
    ensures RunLine(Initial, l1, 0) == Run(pending, [], None)
  {
    var open := Initial.(state := InKey, chunks := "");
    assert MatchStart(l1, 0) == Some(1);
    assert Step(Initial, l1, 0) == Next(open, 1, None);
    assert SearchQuoteOrBackslash(l1, 1) == None;
    assert Step(open, l1, 1) == Next(pending, 4, None);
    RunLineEnd(pending, l1, 4);
    assert RunLine(open, l1, 1) == Run(pending, [], None);
  }

  /** The second line closes the key after the pushed newline, then reads the rest of the entry. */
  lemma ClosingLine(l2: string, lx: Lexer, done: Lexer, e: Entry)
    requires l2 == "c\" = \"d\";\n"
    requires lx == Initial.(state := InKey, chunks := "ab\n\n", skipNl := false)
    requires done == lx.(state := ExpectingItem, chunks := "d") && e == Entry("ab\n\nc", "d", None)
    ensures RunLine(lx, l2, 0) == Run(done, [e], None)
  {
    assert SearchQuoteOrBackslash(l2, 0) == Some(1);
    assert l2[0..1] == "c" && l2[1] == '"';
    assert lx.chunks + l2[0..1] == "ab\n\nc";
    var keyed := lx.(state := ExpectingEquals, chunks := "ab\n\nc", key := Some("ab\n\nc"));
    assert Step(lx, l2, 0) == Next(keyed, 2, None);
    ValueRest(l2, keyed, done, e);
  }

  /** After the key: the equals sign, the quoted target and the semicolon that stores the entry. */
  lemma ValueRest(l2: string, keyed: Lexer, done: Lexer, e: Entry)
    requires l2 == "c\" = \"d\";\n"
    requires keyed == Lexer(ExpectingEquals, "ab\n\nc", Some("ab\n\nc"), None, None, false)
    requires done == Lexer(ExpectingItem, "d", None, None, None, false) && e == Entry("ab\n\nc", "d", None)
    ensures RunLine(keyed, l2, 2) == Run(done, [e], None)
  {
    assert SkipSpace(l2, 3) == 3 && SkipSpace(l2, 2) == 3;
    assert SkipSpace(l2, 5) == 5 && SkipSpace(l2, 4) == 5;
    assert MatchPunct(l2, 2, '=') == Some(5);
    var equals := keyed.(state := ExpectingTarget);
    assert Step(keyed, l2, 2) == Next(equals, 5, None);
    assert MatchOpenQuote(l2, 5) == Some(6);
    var target := equals.(state := InTarget, chunks := "");
    assert Step(equals, l2, 5) == Next(target, 6, None);
    assert SearchQuoteOrBackslash(l2, 6) == Some(7);
    assert target.chunks + l2[6..7] == "d";
    var valued := target.(state := ExpectingSemicolon, chunks := "d", target := Some("d"));
    assert Step(target, l2, 6) == Next(valued, 8, None);
    assert SkipSpace(l2, 9) == 10;
    assert MatchPunct(l2, 8, ';') == Some(10);
    RunLineStore(valued, l2, 8, done, e);
    assert RunLine(target, l2, 6) == Run(done, [e], None);
    assert RunLine(equals, l2, 5) == Run(done, [e], None);
  }
}
