# nslocalized `.strings` tables in Dafny

This project models the core of `nslocalized`, a Python library that reads and
writes Apple `.strings` localisation files. It covers four parts:

- **The entry table.** `StringTable` maps each source string to a
  `LocalizedString(source, target, comment)`. Storing a source that is
  already present overwrites its target and appends a non-empty comment on a
  new line.
- **The byte-order-mark sniffer.** The first two bytes choose UTF-16BE,
  UTF-16LE or UTF-8, and how many bytes to drop.
- **The reader.** `read` is a line-driven state machine with eight states,
  a cursor `pos`, a `chunks` accumulator and the pending key, target and
  comment. It decodes C-style escapes inside quoted strings.
- **The writer.** `write` emits the byte-order mark unless the encoding is
  `utf_8`. Then, for each source in ascending order, it emits a comment line
  and a `"source" = "target";` line. `escape_string` writes control and
  invisible characters as `\a`…`\v`, `\xHH`, `\uHHHH` or `\UHHHHHHHH`.

The modules follow the source:

- `Entries` holds the record and the insert-or-merge rule.
- `Store` holds the `StringTable` class. Its `Store`, `SetItem`, `Read` and
  `Write` methods update or read its `strings` map.
- `Lexer` holds `read`'s loop as functions:
  - `Step` is one turn of the inner `while pos < end` loop;
  - `RunLine` runs a line;
  - `ReadLines` is the outer `for line in reader` loop;
  - `Parse` adds the final state check.
- `Patterns` gives one hand-written matcher per regular expression.
- `Text` holds the character classes and `strip`.
- `Utils` holds `uchr`, `ord_skip` and `escape_string`.
- `Ordering` holds the sort order of `keys.sort()`.
- `Writer` holds the text `write` produces.
- `Bom` holds the byte-order-mark choice.

`Store.StringTable.Read` is a method with the source's two nested loops. It
is proved to compute exactly `Parse` and the stores it implies.
`Store.StringTable.Write` is proved to compute exactly `Writer.Written`.

Two modules prove that reading inverts writing:

- `RoundTrip` proves that every escape `escape_string` emits decodes back to
  its character in `handle_string`. It also proves that the reader closes an
  escaped string exactly at the writer's closing quote.
- `ReadBack` proves that a written table parses without a fault once the
  text after its byte-order mark is cut at its line breaks, as the stream
  reader cuts it (`Text.SplitLines`). Storing the parsed entries into an
  empty table gives the table back. This holds for the encodings whose codec
  adds no mark of its own: `utf_8`, `utf_16_be` and `utf_16_le`, the three
  that tests/test_basics.py:88-94 round-trips. The one exception is a comment that is `None` or empty: it
  comes back as `"No description"`, because that is what `write` prints.

The round trip has two preconditions. First, no `\xHH` escape may be
followed by a hex digit: the reader's `\x` is greedy, and
`RoundTrip.ByteEscapeAbsorbsHexDigit` shows U+0001 followed by `a`
reading back as U+001A. Second, a comment must survive the reader's
stripping. It must have no surrounding spaces, no `*/` inside, no line break,
and no `"` as its first character.

`Read` takes the decoder's lines, each with its terminator kept;
`Text.SplitLines` models how the stream reader cuts decoded text into them.
Strings are sequences of Dafny `char`s, which are Unicode scalar values:
every code point except the surrogates U+D800 to U+DFFF. A wide Python build
sees strings as code points in the same way. `uchr`
and `ord_skip` are modelled separately, on UTF-16 code units.

Two places in the code make `read` loop forever without advancing `pos`:

- In `EXPECTING_EQUALS` or `EXPECTING_SEMICOLON`, a line made only of
  whitespace. The punctuation does not match, and `line.strip()` of the
  whole line is empty, so nothing is raised and nothing moves.
- In `EXPECTING_ITEM`, a `/*` or `"` preceded by spaces. The matched text
  then includes the spaces, so neither comparison succeeds.

The model stops there with the fault `Loops(state)`. This is what makes the
loop's termination measure provable.

Where the tests or the code's own dead branches suggest otherwise, the model
follows the code:

- The UTF-8 mark is the three bytes EF BB BF (section 6 of RFC 3629). The
  sniffer compares only `EF BB` (nslocalized/store.py:126-128), and it drops
  three bytes whatever the third byte is.
- The line-continuation branch for a trailing backslash
  (nslocalized/store.py:153-155) is unreachable, so a trailing backslash
  never joins a string to the next line. A string left open at the end of a
  line still continues on the next one. It keeps the line's terminator, plus
  the `\n` pushed at the next line's start (`ReadBack.ReadsStringAcrossLines`).
- tests/test_basics.py:96-108 expects unquoted keys to be read, and
  tests/test_basics.py:153-158 expects `//` comment lines to be read. The
  code accepts only `/* */` comments and quoted keys. Between entries, a `//`
  comment line or an unquoted key raises "Unexpected garbage".

## Model

| member | source | states |
|---|---|---|
| Entries.Stored | nslocalized/store.py:93-103 | An absent source is inserted as the entry itself. A present one keeps its key and source, takes the new target, and merges the comments. No other key changes. Keying entries by their source is preserved. |
| Entries.StoreNewSource | nslocalized/store.py:93-103 | Storing an absent source adds exactly that key, mapped to the stored entry. |
| Entries.StoreMergesComment | nslocalized/store.py:96-100 | On a present key the comment is merged. A new comment that is None or empty keeps the old one. An old comment that is None or empty is replaced. Otherwise the result is old + "\n" + new. |
| Entries.SetItemKeepsComment | nslocalized/store.py:84-101 | `t[s] = v` leaves `s` present with target `v`, and keeps an existing comment. |
| Entries.StoreAllAppend | nslocalized/store.py:93-103 | Storing a sequence is storing its two halves one after the other. |
| Entries.StoreAllKeys | nslocalized/store.py:90-103 | After a run of stores, a key is present exactly when it was present before or some stored entry had it as its source. So `lookup` gives None exactly for sources never stored. |
| Entries.StoreAllKeyed | nslocalized/store.py:93-103 | A run of stores keeps every key naming its entry's source. |
| Store.StringTable.constructor | nslocalized/store.py:72-73 | A new table is empty. |
| Store.StringTable.Lookup | nslocalized/store.py:90-91 | `lookup(s)` is Some exactly when `s` is a key, and is then that key's entry, whose source is `s`. |
| Store.StringTable.GetItem | nslocalized/store.py:81-82 | `t[s]` is the stored target when `s` is a key, and a KeyError for `s` otherwise. |
| Store.StringTable.Store | nslocalized/store.py:93-103 | The table becomes `Stored(old table, e)`. Afterwards `t[e.source]` is `e.target`, and the table stays keyed by source. |
| Store.StringTable.SetItem | nslocalized/store.py:84-85 | Stores a comment-less entry. `t[s]` becomes `v`, an existing comment is kept, and the table stays keyed by source. |
| Store.StringTable.ReadLine | nslocalized/store.py:194-261 | The inner loop over one line ends with the table holding every entry stored so far. On a fault it returns that fault and the run stops there; otherwise the read continues from the new lexer state with the remaining lines. |
| Store.StringTable.Turn | nslocalized/store.py:195-261 | One turn of the inner loop returns the step function's result. It stores the completed entry exactly when a semicolon commits one, and otherwise leaves the table unchanged. |
| Store.StringTable.Read | nslocalized/store.py:136-264 | The nested line/position loops report exactly the fault of `Parse(lines)`. The table ends as the old table with the parsed entries stored in order, which includes the entries stored before a fault. |
| Store.StringTable.Write | nslocalized/store.py:276-295 | The text emitted is exactly `Written(strings, encoding)`. |
| Store.WriteBlock | nslocalized/store.py:288-295 | One entry's output is its comment line followed by its escaped key-value line. |
| Bom.SniffMarked | nslocalized/store.py:118-130 | A stream starting with the UTF-16BE, UTF-16LE or UTF-8 mark is read with that encoding, and exactly the mark's bytes are dropped. |
| Bom.SniffUnmarked | nslocalized/store.py:118-130 | A stream whose first two bytes are none of FE FF, FF FE and EF BB is read as UTF-8 from its first byte. |
| Bom.SniffShort | nslocalized/store.py:118-130 | A stream shorter than two bytes is read as UTF-8 with nothing dropped. |
| Bom.SniffUtf8Prefix | nslocalized/store.py:126-128 | EF BB followed by any byte, not only BF, makes the reader drop three bytes. |
| Lexer.HandleString | nslocalized/store.py:143-187 | A successful call advances `pos` within the line. When it closes the string, the string returned is the accumulated chunks. |
| Lexer.Escape | nslocalized/store.py:151-182 | A decoded escape advances past the escape letter and never closes the string. |
| Lexer.HexEscape | nslocalized/store.py:159-174 | A hex escape ends within the line and never closes the string. |
| Lexer.EscapeNamed | nslocalized/store.py:156-158 | `\a \b \f \n \r \t \v` append their control character and advance one position. |
| Lexer.EscapeOctal | nslocalized/store.py:175-179 | An octal escape takes one to three octal digits, as many as follow, and appends the one code point they spell. |
| Lexer.EscapeHex | nslocalized/store.py:159-174 | `\x` takes the whole run of hex digits after it. It fails with BadUnicodeEscape exactly when their value is a surrogate or above 10FFFF, and otherwise appends that code point. With no digit it appends a literal `x`. |
| Lexer.EscapeFixedHex | nslocalized/store.py:159-174 | `\u` takes exactly 4 and `\U` exactly 8 hex digits, refused on the same condition as `\x`. With fewer digits a literal `x` is appended whatever the letter was. |
| Lexer.EscapeLiteral | nslocalized/store.py:180-182 | Any other character after a backslash is appended as itself. |
| Lexer.ItemStep | nslocalized/store.py:196-210 | In EXPECTING_ITEM a turn makes progress and stores nothing. It stops only with the garbage fault or the no-progress fault. |
| Lexer.CommentStep | nslocalized/store.py:211-219 | In IN_COMMENT a turn always continues. On reaching EXPECTING_KEY, the comment is the accumulated stripped text. |
| Lexer.OpenStep | nslocalized/store.py:220-246 | EXPECTING_KEY and EXPECTING_TARGET always continue and make progress. |
| Lexer.StringStep | nslocalized/store.py:228-250 | IN_KEY and IN_TARGET make progress, keep the pending key consistent, and store nothing. |
| Lexer.EqualsStep | nslocalized/store.py:232-238 | EXPECTING_EQUALS makes progress, or stops with Missing equals or the no-progress fault. |
| Lexer.SemicolonStep | nslocalized/store.py:251-261 | A matched semicolon stores exactly `(key, target, comment)`. It resets key, target and comment to None, returns to EXPECTING_ITEM, and advances. Otherwise the turn stops with Missing semicolon or the no-progress fault. |
| Lexer.Step | nslocalized/store.py:195-261 | Every turn keeps the pending key and target consistent with the state. It advances `pos`, or leaves IN_COMMENT without moving. An entry is stored only from EXPECTING_SEMICOLON, as the pending triple, with key, target and comment reset. |
| Lexer.RunLine | nslocalized/store.py:195-261 | The inner loop over one line terminates and keeps the lexer consistent. |
| Lexer.ReadLines | nslocalized/store.py:189-261 | The outer loop keeps the lexer consistent. |
| Lexer.ParseAccepts | nslocalized/store.py:263-264 | A read is accepted exactly when no line faulted and the state at the end is EXPECTING_ITEM. |
| Patterns.SkipSpace | nslocalized/store.py:29-38 | `\s*` stops at the first non-space character at or after `pos`, or at the end. |
| Patterns.MatchStart | nslocalized/store.py:29 | `_start_re.match` succeeds exactly at spaces followed by `/*` or `"`, and ends after them. |
| Patterns.SearchCommentEnd | nslocalized/store.py:30 | `_comment_re.search` finds the first `*/` at or after `pos`, and finds none exactly when there is none. |
| Patterns.MatchOpenQuote | nslocalized/store.py:31 | `_exp_key_re.match` succeeds exactly at spaces followed by a quote, and ends after the quote. |
| Patterns.SearchQuoteOrBackslash | nslocalized/store.py:32 | `_key_re.search` finds the first backslash or quote at or after `pos`, and finds none exactly when there is none. |
| Patterns.MatchHex | nslocalized/store.py:33 | `_hex_re.match` succeeds exactly at a hex digit and takes the whole run. |
| Patterns.MatchHexN | nslocalized/store.py:35-36 | `_u4_re` and `_u8_re` succeed exactly when `n` hex digits follow, and take exactly those. |
| Patterns.MatchOct | nslocalized/store.py:34 | `_oct_re.match` succeeds exactly at an octal digit and takes up to three, stopping early only at a non-octal character or the end. |
| Patterns.MatchPunct | nslocalized/store.py:37-38 | `_equals_re` and `_semi_re` succeed exactly when the next non-space is the punctuation, and end after the spaces that follow it. |
| Text.OctValue | nslocalized/store.py:177 | `int(s, 8)` of `n` octal digits is below 8^n. |
| Text.HexDigits | nslocalized/utils.py:69-74 | `'%0nx' % cp` gives exactly `n` digits, each `0`-`9` or lower-case `a`-`f`, whose hex value is `cp`. |
| Text.SplitLinesConcat | nslocalized/store.py:189 | The lines the stream reader yields (`splitlines` with ends kept), put back together, are the decoded text: splitting neither drops nor adds a character. |
| Text.SplitLinesCons | nslocalized/store.py:189 | A text that starts with a line ending in `\n` and holding no other line break yields that line first, then the lines of the rest. |
| Text.ConcatSplitLines | nslocalized/store.py:189 | Lines that each end in `\n` and hold no other line break, put together, split back into exactly those lines. |
| Text.TrimStart | nslocalized/store.py:215 | Leading whitespace is dropped: the result is a suffix, it does not start with a space, and everything dropped is space. |
| Text.TrimEnd | nslocalized/store.py:215 | Trailing whitespace is dropped: the result is a prefix, it does not end with a space, and everything dropped is space. |
| Text.StripEmptyIff | nslocalized/store.py:207 | `line.strip() != ''` holds exactly when the line has a non-space character. |
| Text.StripTrimmed | nslocalized/store.py:215 | Stripping spaces around a text that neither starts nor ends with a space gives that text. |
| Utils.UchrUnits | nslocalized/utils.py:20-27 | Below 0x10000 `uchr` is the single unit. Above, it is a high surrogate `0xD800 + (cp-0x10000) >> 10` and a low surrogate `0xDC00 + (cp-0x10000) & 0x3FF`. |
| Utils.OrdSkip | nslocalized/utils.py:31-38 | `ord_skip` consumes two units exactly at a high surrogate, and one otherwise. |
| Utils.OrdSkipPair | nslocalized/utils.py:33-37 | On a surrogate pair, the `|` of the shifted high part and the low part is their sum, giving the supplementary code point. |
| Utils.OrdSkipUchr | nslocalized/utils.py:20-38 | `ord_skip(uchr(cp), 0) == (cp, len(uchr(cp)))` for every code point that is not a high surrogate (lone low surrogates included), with length 1 below 0x10000 and 2 above. |
| Utils.EscapeSequence | nslocalized/utils.py:67-74 | An emitted escape starts with a backslash and has at least two characters. |
| Utils.EscapeSequenceForm | nslocalized/utils.py:67-74 | The nine `_c_escapes` code points become a backslash and their letter. Others become `\x` plus 2 hex digits up to 0xFF, `\u` plus 4 up to 0xFFFF, else `\U` plus 8, in each case lower-case hex digits whose value is the code point. |
| Utils.SearchEscapable | nslocalized/utils.py:54-60 | `_esc_re.search` finds the first escape-class character at or after `pos`, and finds none exactly when there is none. |
| Utils.EscapedAppend | nslocalized/utils.py:59-77 | `escape_string(a + b) == escape_string(a) + escape_string(b)`. |
| Utils.EscapedPlain | nslocalized/utils.py:75-77 | A string without escape-class characters is returned unchanged. |
| Utils.EscapedLength | nslocalized/utils.py:59-77 | Escaping never shortens, and strictly lengthens when an escape-class character occurs. |
| Utils.EscapedIdentityIff | nslocalized/utils.py:54-77 | `escape_string(s) == s` exactly when `s` has no escape-class character. |
| Utils.EscapedQuotesAreEscaped | nslocalized/utils.py:67-68 | Every `"` in the output directly follows a backslash. |
| Utils.EscapeCharNoBreak | nslocalized/utils.py:52-74 | The escape of any character holds no line-break character. Every break is in the escape class, and an escape sequence is a backslash, a letter and hex digits. |
| Utils.EscapeSequenceNoBreak | nslocalized/utils.py:67-74 | Each of the four escape forms (named letter, `\x`, `\u`, `\U` with lower-case hex digits) holds no line-break character. |
| Utils.EscapedNoBreak | nslocalized/utils.py:59-77 | `escape_string(s)` never holds a line-break character, so a written key or target never breaks its line. |
| Utils.EscapedStep | nslocalized/utils.py:59-74 | One loop turn appends the plain run and then the escape of the found character. |
| Utils.EscapedRest | nslocalized/utils.py:75-77 | The last loop turn appends the plain rest. |
| Utils.EscapeString | nslocalized/utils.py:55-78 | The `while pos < end` loop returns exactly the character-by-character escape `Escaped(s)`. |
| Ordering.BelowIrreflexive | nslocalized/store.py:280 | No string sorts before itself. |
| Ordering.BelowTransitive | nslocalized/store.py:280 | The sort order on strings is transitive. |
| Ordering.BelowTotal | nslocalized/store.py:280 | Of two different strings, one sorts before the other. |
| Ordering.BelowAsymmetric | nslocalized/store.py:280 | Two strings never sort before each other. |
| Ordering.LeastExists | nslocalized/store.py:280 | A non-empty key set has a least key. |
| Ordering.LeastUnique | nslocalized/store.py:280 | The least key is unique. |
| Ordering.SortedKeys | nslocalized/store.py:279-280 | The sorted key list has one element per key, each a key. |
| Ordering.SortedKeysOrder | nslocalized/store.py:279-280 | The sorted key list is strictly ascending and holds exactly the keys. |
| Ordering.SortedUnique | nslocalized/store.py:279-280 | Two strictly ascending lists with the same elements are equal, so the sort result is determined by the key set. |
| Writer.Ordered | nslocalized/store.py:279-288 | The entries are visited in the order of the sorted keys, one per key. |
| Writer.Blocks | nslocalized/store.py:288-295 | Each entry gives its comment line and its key-value line. |
| Writer.Glued | nslocalized/store.py:288-295 | Each block's text is its comment line followed by its key-value line. |
| Writer.WrittenBom | nslocalized/store.py:276-277 | The output starts with U+FEFF exactly when the encoding is not `utf_8`. |
| Writer.JoinedStartsWithComment | nslocalized/store.py:282-292 | A non-empty body starts with `/*`, so the body never adds a second mark. |
| Writer.BlockLinesConcat | nslocalized/store.py:282-295 | The lines a decoder yields, put together, are the written body: blocks separated by one `\n`, none before the first. |
| Writer.EntryLineOneLine | nslocalized/store.py:293-295 | The key-value line ends in its `\n` and holds no other line break. |
| Writer.CommentLineOneLine | nslocalized/store.py:289-292 | The comment line ends in its `\n` and holds no other line break when the comment holds none. |
| Writer.BlockLinesOneLine | nslocalized/store.py:282-295 | If each block's two lines are whole lines, so is every line of the written body, the blank separators included. |
| Writer.WrittenSplits | nslocalized/store.py:282-295 | Splitting the written body at its line breaks gives exactly the block lines, provided no comment holds a line break. |
| Writer.WrittenStep | nslocalized/store.py:282-287 | The `first` flag puts a newline before every block but the first. |
| Writer.WrittenPiece | nslocalized/store.py:283-295 | The `i`-th block is the comment line and the escaped key-value line of the `i`-th key in ascending order. |
| RoundTrip.HexSafeIff | nslocalized/utils.py:69-70 | The round-trip condition, position by position: no character written as `\xHH` is followed by a hex digit. |
| RoundTrip.ByteEscapeAbsorbsHexDigit | nslocalized/utils.py:69-70 | U+0001 followed by `a` is written `\x01a`. Reading `\x01a` back yields U+001A, so the condition is needed. |
| RoundTrip.NamedDecodes | nslocalized/store.py:156-158 | Each named escape the writer emits decodes to its character. |
| RoundTrip.ByteDecodes | nslocalized/store.py:159-172 | A `\xHH` escape not followed by a hex digit decodes to its character. |
| RoundTrip.WideDecodes | nslocalized/store.py:159-172 | A `\uHHHH` or `\UHHHHHHHH` escape decodes to its character. |
| RoundTrip.EscapeDecodes | nslocalized/store.py:151-182 | Every escape `escape_string` emits for an escape-class character decodes back to that character and ends right after the escape. |
| RoundTrip.DecodeEscaped | nslocalized/store.py:143-187 | Reading `escape_string(s)` followed by a closing quote in IN_KEY or IN_TARGET leaves the string's state with value `chunks + s`, right after the quote. This holds for any `s` meeting the `\x` condition. |
| ReadBack.CommentLineRead | nslocalized/store.py:196-219 | The comment line `write` emits, read between entries, leaves the reader expecting a key with exactly that comment pending. |
| ReadBack.EntryLineRead | nslocalized/store.py:220-261 | The key-value line `write` emits, read after a comment, stores exactly (key, target, pending comment) and returns to EXPECTING_ITEM. |
| ReadBack.BlankLineRead | nslocalized/store.py:207-210 | The blank line between blocks changes nothing. |
| ReadBack.ReadLinesAppend | nslocalized/store.py:189-194 | Reading `a + b` reads `a`, then, unless `a` faulted, reads `b` from where `a` left off. |
| ReadBack.CommentLineShown | nslocalized/store.py:289-292 | The comment line shows the entry's comment, or `No description` when it is None or empty. Either way it reads back unchanged. |
| ReadBack.BlockRead | nslocalized/store.py:189-261 | A written block stores its entry with its shown comment, and the reader ends between entries. |
| ReadBack.BlocksRead | nslocalized/store.py:189-261 | The decoder's lines of all written blocks store every entry in order, without fault, ending between entries. |
| ReadBack.WrittenParses | nslocalized/store.py:136-264 | The written lines parse without fault to the written entries, in order. |
| ReadBack.StoreAllFresh | nslocalized/store.py:102-103 | Storing entries with distinct, absent sources inserts each under its source and leaves the rest unchanged. |
| ReadBack.ShownStored | nslocalized/store.py:93-103 | Storing a table's entries in ascending key order into an empty table gives back the table. |
| ReadBack.TableRoundTrip | nslocalized/store.py:276-295 | A written table is its byte-order mark followed by the block lines put together. Splitting that text at its line breaks, as the stream reader does, gives exactly those lines back. They parse without fault, and storing them into an empty table gives the table with its shown comments. This is the table itself when every comment is non-empty. |
| ReadBack.ShownTableSame | nslocalized/store.py:289-290 | With every comment non-empty, the shown table is the table. |
| ReadBack.ReadsCommentedEntry | tests/test_basics.py:6-17 | The test file `/* Test string */` then `"åéîøü" = "ÅÉÎØÜ";` parses without fault to that one entry with comment `Test string`. |
| ReadBack.ReadsStringAcrossLines | nslocalized/store.py:184-194 | A key left open at the end of its line continues on the next one. The lines `"ab` + LF and `c" = "d";` + LF parse without fault to one entry: key `ab` LF LF `c`, target `d`, no comment. The first LF is the first line's own terminator. The second is the newline pushed at the start of the next line. |

## Left out

- The `alsoconstruct` descriptor (nslocalized/store.py:40-47) is Python method-binding plumbing.
- Opening files, the peekable-stream and `fileno` dispatch of `read` (nslocalized/store.py:109-116), and opening the file in `write` (nslocalized/store.py:269-270) are I/O. `Read` takes decoded lines, and `Write` returns the text.
- The codecs (nslocalized/store.py:132-134, 272-274) are left out. Byte-level UTF-8/UTF-16 decoding and encoding are library calls. Only the sniffer's choice of encoding and skip count is modelled. The stream reader's cutting of decoded text into lines is modelled as `splitlines` with ends kept (`Text.SplitLines`), over the whole text rather than chunk by chunk.
- The `utf_16` codec's own byte-order mark is not modelled. `write`'s default encoding `'utf_16'` (nslocalized/store.py:268) makes the codec add a mark in front of the U+FEFF that `write` writes (nslocalized/store.py:276-277).
- Lone surrogates (U+D800 to U+DFFF) in keys, targets and comments are not modelled, because a Dafny `char` cannot hold one. `Utils.Uchr` and `Utils.OrdSkip` work on integer code units and so do cover them.
- Narrow or wide build detection and the `unichr`/`chr` fallback (nslocalized/utils.py:5, 13-19, 28-29) depend on the host. `Utils.Uchr` models the narrow-build arithmetic on code units. Everything else treats strings as code points, as a wide build does. So `_esc_re`'s narrow-build surrogate alternative (nslocalized/utils.py:52) is not modelled.
- `\s` and `str.strip` are modelled as one fixed ASCII whitespace class: space, tab, LF, CR, FF, VT. Python's Unicode whitespace is wider.
- `LocalizedString.__eq__`, `__ne__` and `__repr__`, and `StringTable.__eq__`, `__ne__` and `__repr__` (nslocalized/store.py:62-69, 75-79, 87-88) are left out. Entries are datatype values, so equality is structural.
- Store.StringTable.Store: the source mutates the existing `LocalizedString` object in place. The model replaces the map entry with an updated value, so aliasing of entry objects shared outside the table is not captured.
- Lexer.Step: the source hangs in two cases: a whitespace-only line in EXPECTING_EQUALS or EXPECTING_SEMICOLON, and spaces before `/*` or `"` in EXPECTING_ITEM. Both are modelled as the fault `Loops(state)`, which ends the read where the source never returns.
- Lexer.HandleString: `line[pos]` is read before the `pos == end` test (nslocalized/store.py:153-154). A backslash that is the very last character of a line, which only a final line without terminator can have, raises IndexError; the model gives the fault `IndexOutOfRange`. A backslash before a line terminator escapes the terminator character itself, which is appended as it is. So the line-continuation branch is unreachable and is not modelled.
- ReadBack.TableRoundTrip: proved under three conditions:
  - every entry's source and target have no `\xHH` escape followed by a hex digit (`RoundTrip.HexSafe`);
  - every non-empty comment survives the reader (`ReadBack.CommentSafe`): no surrounding spaces, no `*/` inside, no line break, and no leading `"`;
  - the table keys each entry by its own source.
  A None or empty comment comes back as `"No description"`.
- ReadBack.TableRoundTrip: holds only for codecs that add no byte-order mark of their own (`utf_8`, `utf_16_be`, `utf_16_le`, as in tests/test_basics.py:88-94). With `write`'s default `'utf_16'` (nslocalized/store.py:268, 272-277) the file starts with the codec's mark and then U+FEFF. The sniffer (nslocalized/store.py:118-125) drops only the first mark. The reader then sees U+FEFF at the start of the first line, and `read` raises "Unexpected garbage in input" (nslocalized/store.py:207-208). The model does not follow the bytes that far, so this failure is stated here and not proved.
- Behaviour that tests/test_basics.py asserts but store.py does not implement is left out: unquoted keys, `//` comments, `include_empty_comments`, and space-joined multi-line comments.
