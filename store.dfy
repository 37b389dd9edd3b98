/**
  `StringTable` of nslocalized/store.py: the table from source string to
  entry, with its indexing, `lookup`, `store`, `read` and `write`.
  `Read` takes the lines its decoder yields; `Write` returns the text it
  hands to its encoder.
 */
module Store {
  import opened Wrappers
  import opened Text
  import opened Entries
  import opened Patterns
  import opened Lexer
  import opened Utils
  import opened Ordering
  import opened Writer

  /** What `t[source]` raises for an absent source. */
  datatype LookupError = KeyError(source: string)

  class StringTable {
    var strings: map<string, Entry>

    /** Every key names the entry whose source it is. */
    ghost predicate Valid()
      reads this
    {
      KeyedBySource(strings)
    }

    constructor ()
      ensures strings == map[] && Valid()
    {
      strings := map[];
    }

    /** `lookup(source)`: the entry for `source`, or `None`. */
    function Lookup(source: string): (r: Option<Entry>)
      reads this
      ensures r.Some? <==> source in strings
      ensures r.Some? ==> r.value == strings[source]
      ensures Valid() && r.Some? ==> r.value.source == source
    {
      if source in strings then Some(strings[source]) else None
    }

    /** `t[source]`: the target stored for `source`, or a `KeyError`. */
    function GetItem(source: string): (r: Result<string, LookupError>)
      reads this
      ensures r.Ok? <==> source in strings
      ensures r.Ok? ==> r.value == strings[source].target
      ensures r.Err? ==> r.error == KeyError(source)
    {
      match Lookup(source)
      case Some(e) => Ok(e.target)
      case None => Err(KeyError(source))
    }

    /**
      `store(e)`: inserts `e` under its source, or updates the entry already
      there: its target becomes `e`'s, and a non-empty comment of `e` is
      appended to the existing one on a new line.
     */
    method Store(e: Entry)
      modifies this
      ensures strings == Stored(old(strings), e)
      ensures GetItem(e.source) == Ok(e.target)
      ensures old(Valid()) ==> Valid()
    {
      var cur := Lookup(e.source);
      if cur.Some? {
        var c := cur.value;
        if Truthy(e.comment) {
          if Truthy(c.comment) {
            c := c.(comment := Some(c.comment.value + "\n" + e.comment.value));
          } else {
            c := c.(comment := e.comment);
          }
        }
        c := c.(target := e.target);
        strings := strings[e.source := c];
      } else {
        strings := strings[e.source := e];
      }
    }

    /** `t[source] = target`: stores an entry without a comment. */
    method SetItem(source: string, target: string)
      modifies this
      ensures strings == Stored(old(strings), Entry(source, target, None))
      ensures GetItem(source) == Ok(target)
      ensures source in old(strings) ==> strings[source].comment == old(strings)[source].comment
      ensures old(Valid()) ==> Valid()
    {
      Store(Entry(source, target, None));
    }

    /**
      One turn of `read`'s inner loop at `pos`: the lexer's step for the
      current state, and the store of the pending entry when its semicolon
      is met.
     */
    method Turn(lx: Lexer, line: string, pos: nat) returns (r: StepResult)
      requires pos < |line| && Consistent(lx)
      modifies this
      ensures r == Step(lx, line, pos)
      ensures r.Next? && r.stored.Some? ==> strings == Stored(old(strings), r.stored.value)
      ensures !(r.Next? && r.stored.Some?) ==> strings == old(strings)
    {
      r := Step(lx, line, pos);
      if r.Next? && r.stored.Some? {
        Store(r.stored.value);
      }
    }

    /**
      `read`: runs the line state machine over `lines`, storing each entry
      as its semicolon is met. A fault stops the read and leaves the
      entries stored before it in the table.
     */
    method Read(lines: seq<string>) returns (fault: Option<Fault>)
      modifies this
      ensures fault == Parse(lines).fault
      ensures strings == StoreAll(old(strings), Parse(lines).stored)
      ensures old(Valid()) ==> Valid()
    {
      ghost var whole := ReadLines(Initial, lines);
      ghost var m0 := strings;
      ghost var stored: seq<Entry> := [];
      var lx := Initial;
      var li := 0;
      while li < |lines|
        invariant li <= |lines|
        invariant Consistent(lx)
        invariant Then(stored, ReadLines(lx, lines[li..])) == whole
        invariant strings == StoreAll(m0, stored)
        invariant KeyedBySource(m0) ==> Valid()
      {
        var line := lines[li];
        ghost var rest := lines[li + 1..];
        ReadLinesResume(lx, lines[li..]);
        assert lines[li..][1..] == rest;
        if !lx.skipNl {
          lx := lx.(chunks := lx.chunks + "\n");
        }
        var f;
        lx, f, stored := ReadLine(lx, line, rest, m0, stored, whole);
        if f.Some? {
          return f;
        }
        li := li + 1;
      }
      assert lines[li..] == [] && stored + [] == stored;
      if lx.state != ExpectingItem {
        return Some(BadStringsFile);
      }
      return None;
    }

    /**
      `read`'s inner loop over one line: turns from the line's start until
      the line is used up or a turn faults, storing each entry as its
      semicolon is met. Ghost `done` and `stored` are the entries stored
      before and after the line, and `whole` is the run of the whole read.
     */
    method ReadLine(lx0: Lexer, line: string, ghost rest: seq<string>, ghost m0: map<string, Entry>,
                    ghost done: seq<Entry>, ghost whole: Run)
      returns (lx: Lexer, fault: Option<Fault>, ghost stored: seq<Entry>)
      requires Consistent(lx0) && Then(done, Resume(lx0, line, 0, rest)) == whole
      requires strings == StoreAll(m0, done) && (KeyedBySource(m0) ==> Valid())
      modifies this
      ensures strings == StoreAll(m0, stored) && (KeyedBySource(m0) ==> Valid())
      ensures fault.Some? ==> whole == Run(lx, stored, fault)
      ensures fault.None? ==> Consistent(lx) && Then(stored, ReadLines(lx, rest)) == whole
    {
      lx, stored := lx0, done;
      var pos := 0;
      while pos < |line|
        invariant pos <= |line|
        invariant Consistent(lx)
        invariant Then(stored, Resume(lx, line, pos, rest)) == whole
        invariant strings == StoreAll(m0, stored)
        invariant KeyedBySource(m0) ==> Valid()
        decreases |line| - pos, Rank(lx.state)
      {
        var r := Turn(lx, line, pos);
        Resumed(stored, lx, line, pos, rest, whole, r);
        if r.Stop? {
          return lx, Some(r.fault), stored;
        }
        if r.stored.Some? {
          StoreAllAppend(m0, stored, [r.stored.value]);
          stored := stored + [r.stored.value];
        }
        lx, pos := r.lexer, r.pos;
      }
      ResumeLineEnd(lx, line, rest);
      fault := None;
    }

    /**
      `write`: the byte-order mark unless the encoding is `'utf_8'`, then
      each entry in ascending source order as a comment line and a
      `"source" = "target";` line, entries separated by a blank line.
     */
    method Write(encoding: string) returns (text: string)
      ensures text == Written(strings, encoding)
    {
      text := "";
      if encoding != "utf_8" {
        text := text + "\U{FEFF}";
      }
      var keys := SortedKeys(strings.Keys);
      ghost var ts := Glued(Blocks(Ordered(strings)));
      var first := true;
      var i := 0;
      assert ts[..i] == [];
      while i < |keys|
        invariant i <= |keys| == |ts|
        invariant first <==> i == 0
        invariant text == Bom(encoding) + Joined(ts[..i])
      {
        var ls := strings[keys[i]];
        WrittenStep(ts, i, encoding, text);
        if first {
          first := false;
        } else {
          text := text + "\n";
        }
        var block := WriteBlock(ls);
        WrittenPiece(strings, keys, ts, i);
        text := text + block;
        i := i + 1;
      }
      assert ts[..i] == ts;
    }
  }

  /** One entry's two lines as `write` emits them: the comment line, then the escaped pair. */
  method WriteBlock(e: Entry) returns (block: string)
    ensures block == CommentLine(e.comment) + EntryLine(e)
  {
    if Truthy(e.comment) {
      block := "/* " + e.comment.value + " */\n";
    } else {
      block := "/* No description */\n";
    }
    var source := EscapeString(e.source);
    var target := EscapeString(e.target);
    block := block + "\"" + source + "\" = \"" + target + "\";\n";
  }
}
