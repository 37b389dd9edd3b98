/**
  The text `StringTable.write` (nslocalized/store.py) hands to its encoder:
  a byte-order-mark character unless the encoding is `'utf_8'`, then for
  each entry in ascending key order a comment line and a key-value line,
  entries separated by a blank line.
 */
module Writer {
  import opened Wrappers
  import opened Text
  import opened Entries
  import opened Utils
  import opened Ordering

  /** `'/* %s */\n' % comment`, or the placeholder when the comment is empty or `None`. */
  function CommentLine(comment: Option<string>): string {
    if Truthy(comment) then "/* " + comment.value + " */\n" else "/* No description */\n"
  }

  /** `'"%s" = "%s";\n'` with both strings escaped. */
  function EntryLine(e: Entry): string {
    "\"" + Escaped(e.source) + "\" = \"" + Escaped(e.target) + "\";\n"
  }

  /** The entries of a table in ascending order of their keys. */
  function Ordered(m: map<string, Entry>): (es: seq<Entry>)
    ensures |es| == |m|
    ensures forall i :: 0 <= i < |es| ==> es[i] == m[SortedKeys(m.Keys)[i]]
  {
    var ks := SortedKeys(m.Keys);
    seq(|ks|, i requires 0 <= i < |ks| => m[ks[i]])
  }

  /** The two lines written for each entry: its comment line and its key-value line. */
  function Blocks(es: seq<Entry>): (bs: seq<(string, string)>)
    ensures |bs| == |es|
    ensures forall i :: 0 <= i < |es| ==> bs[i] == (CommentLine(es[i].comment), EntryLine(es[i]))
  {
    seq(|es|, i requires 0 <= i < |es| => (CommentLine(es[i].comment), EntryLine(es[i])))
  }

  /** Each block as one piece of text. */
  function Glued(bs: seq<(string, string)>): (ts: seq<string>)
    ensures |ts| == |bs|
    ensures forall i :: 0 <= i < |bs| ==> ts[i] == bs[i].0 + bs[i].1
  {
    seq(|bs|, i requires 0 <= i < |bs| => bs[i].0 + bs[i].1)
  }

  /** The pieces with a `"\n"` between neighbours. */
  function Joined(ts: seq<string>): string {
    if ts == [] then ""
    else if |ts| == 1 then ts[0]
    else Joined(ts[..|ts| - 1]) + "\n" + ts[|ts| - 1]
  }

  function Bom(encoding: string): string {
    if encoding != "utf_8" then "\U{FEFF}" else ""
  }

  /** Everything `write` passes to the encoder. */
  function Written(m: map<string, Entry>, encoding: string): string {
    Bom(encoding) + Joined(Glued(Blocks(Ordered(m))))
  }

  /** The same text as the lines a decoder yields: each block's two lines, a lone `"\n"` between blocks. */
  function BlockLines(bs: seq<(string, string)>): seq<string> {
    if bs == [] then []
    else if |bs| == 1 then [bs[0].0, bs[0].1]
    else BlockLines(bs[..|bs| - 1]) + ["\n", bs[|bs| - 1].0, bs[|bs| - 1].1]
  }

  /** A key-value line is one line: escaped strings hold no break. */
  lemma EntryLineOneLine(e: Entry)
    ensures OneLine(EntryLine(e))
  {
    var a, b := Escaped(e.source), Escaped(e.target);
    EscapedNoBreak(e.source);
    EscapedNoBreak(e.target);
    NoBreakConcat("\"", a);
    NoBreakConcat("\"" + a, "\" = \"");
    NoBreakConcat("\"" + a + "\" = \"", b);
    NoBreakConcat("\"" + a + "\" = \"" + b, "\";");
    var body := "\"" + a + "\" = \"" + b + "\";";
    assert EntryLine(e) == body + "\n";
    assert EntryLine(e)[..|EntryLine(e)| - 1] == body;
  }

  /** A comment line is one line when the comment holds no break. */
  lemma CommentLineOneLine(comment: Option<string>)
    requires Truthy(comment) ==> NoBreak(comment.value)
    ensures OneLine(CommentLine(comment))
  {
    var l := CommentLine(comment);
    if Truthy(comment) {
      NoBreakConcat("/* ", comment.value);
      NoBreakConcat("/* " + comment.value, " */");
      assert l[..|l| - 1] == "/* " + comment.value + " */";
    } else {
      assert l[..|l| - 1] == "/* No description */";
    }
  }

  /** Every line of `BlockLines` is one line when every block's two lines are. */
  lemma {:induction false} BlockLinesOneLine(bs: seq<(string, string)>)
    requires forall i :: 0 <= i < |bs| ==> OneLine(bs[i].0) && OneLine(bs[i].1)
    ensures forall i :: 0 <= i < |BlockLines(bs)| ==> OneLine(BlockLines(bs)[i])
    decreases |bs|
  {
    if |bs| > 1 {
      BlockLinesOneLine(bs[..|bs| - 1]);
      assert OneLine("\n");
    }
  }

  /**
    Splitting the written body at its line breaks gives exactly the block
    lines, provided no comment holds a line break.
   */
  lemma WrittenSplits(m: map<string, Entry>)
    requires forall k :: k in m && Truthy(m[k].comment) ==> NoBreak(m[k].comment.value)
    ensures SplitLines(Concat(BlockLines(Blocks(Ordered(m))))) == BlockLines(Blocks(Ordered(m)))
  {
    var es := Ordered(m);
    var ks := SortedKeys(m.Keys);
    var bs := Blocks(es);
    forall i | 0 <= i < |bs| ensures OneLine(bs[i].0) && OneLine(bs[i].1) {
      assert ks[i] in m;
      CommentLineOneLine(es[i].comment);
      EntryLineOneLine(es[i]);
    }
    BlockLinesOneLine(bs);
    ConcatSplitLines(BlockLines(bs));
  }

  /** The output starts with U+FEFF exactly when the encoding is not `'utf_8'`. */
  lemma WrittenBom(m: map<string, Entry>, encoding: string)
    ensures Written(m, encoding) != [] && Written(m, encoding)[0] == '\U{FEFF}' <==> encoding != "utf_8"
  {
    var bs := Blocks(Ordered(m));
    JoinedStartsWithComment(bs);
  }

  /** Written blocks start with a comment opener, so the body never starts with U+FEFF. */
  lemma {:induction false} JoinedStartsWithComment(bs: seq<(string, string)>)
    requires forall i :: 0 <= i < |bs| ==> |bs[i].0| >= 2 && bs[i].0[..2] == "/*"
    ensures bs != [] ==> |Joined(Glued(bs))| >= 2 && Joined(Glued(bs))[..2] == "/*"
    ensures bs == [] ==> Joined(Glued(bs)) == ""
    decreases |bs|
  {
    var ts := Glued(bs);
    if |bs| > 1 {
      var pre := bs[..|bs| - 1];
      JoinedStartsWithComment(pre);
      assert Glued(pre) == ts[..|ts| - 1];
      var p := Joined(Glued(pre));
      assert Joined(ts)[..2] == p[..2];
    } else if |bs| == 1 {
      assert ts[0][..2] == bs[0].0[..2];
    }
  }

  /** The decoder's lines put back together give the written body. */
  lemma {:induction false} BlockLinesConcat(bs: seq<(string, string)>)
    ensures Concat(BlockLines(bs)) == Joined(Glued(bs))
    decreases |bs|
  {
    if |bs| == 1 {
      var ls := [bs[0].0, bs[0].1];
      assert ls[..1] == [bs[0].0];
      assert Concat(ls[..1]) == Concat([]) + ls[0];
    } else if |bs| > 1 {
      var pre := bs[..|bs| - 1];
      var b := bs[|bs| - 1];
      BlockLinesConcat(pre);
      assert Glued(pre) == Glued(bs)[..|bs| - 1];
      ConcatSnoc3(BlockLines(pre), "\n", b.0, b.1);
      ConcatAssoc(Joined(Glued(pre)), "\n", b.0, b.1);
    }
  }

  lemma ConcatSnoc3(lines: seq<string>, a: string, b: string, c: string)
    ensures Concat(lines + [a, b, c]) == Concat(lines) + a + b + c
  {
    ConcatSnoc(lines, a);
    ConcatSnoc(lines + [a], b);
    ConcatSnoc(lines + [a] + [b], c);
    assert lines + [a] + [b] + [c] == lines + [a, b, c];
  }

  lemma ConcatAssoc(a: string, b: string, c: string, d: string)
    ensures a + b + c + d == a + (b + c + d)
  {
  }

  lemma ConcatSnoc(lines: seq<string>, line: string)
    ensures Concat(lines + [line]) == Concat(lines) + line
  {
    assert (lines + [line])[..|lines|] == lines;
  }

  /** `write`'s loop, one entry further: the text so far, a separator unless it is the first entry, then the entry's text. */
  lemma WrittenStep(ts: seq<string>, i: nat, encoding: string, text: string)
    requires i < |ts|
    requires text == Bom(encoding) + Joined(ts[..i])
    ensures (if i == 0 then text else text + "\n") + ts[i] == Bom(encoding) + Joined(ts[..i + 1])
  {
    var pre := ts[..i];
    assert ts[..i + 1][..i] == pre;
    if i == 0 {
      assert pre == [];
    } else {
      ConcatAssoc(Bom(encoding), Joined(pre), "\n", ts[i]);
    }
  }

  /** The text written for the `i`-th key in ascending order. */
  lemma WrittenPiece(m: map<string, Entry>, ks: seq<string>, ts: seq<string>, i: nat)
    requires ks == SortedKeys(m.Keys) && ts == Glued(Blocks(Ordered(m))) && i < |m|
    ensures |ks| == |m| == |ts| && ks[i] in m
    ensures ts[i] == CommentLine(m[ks[i]].comment) + EntryLine(m[ks[i]])
  {
    assert ks[i] in ks;
  }
}
