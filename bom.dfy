/**
  The byte-order-mark sniffing at the top of `StringTable.read`
  (nslocalized/store.py): the first two bytes choose the decoder and how many
  bytes to discard before decoding. Byte-order marks: U+FEFF encoded in
  UTF-16 (section 3.2 of RFC 2781) and in UTF-8 (section 6 of RFC 3629).
 */
module Bom {

  newtype byte = x: int | 0 <= x < 256

  datatype Encoding = Utf8 | Utf16Be | Utf16Le

  /** The chosen decoder and the number of bytes read off before decoding. */
  datatype Sniffed = Sniffed(encoding: Encoding, skip: nat)

  /**
    `peek(2)[:2]` compared with `FE FF`, `FF FE` and `EF BB`. Only two bytes
    of the UTF-8 mark are compared, yet three are read off.
   */
  function Sniff(head: seq<byte>): Sniffed {
    var maybeBom := if |head| < 2 then head else head[..2];
    if maybeBom == [0xFE, 0xFF] then Sniffed(Utf16Be, 2)
    else if maybeBom == [0xFF, 0xFE] then Sniffed(Utf16Le, 2)
    else if maybeBom == [0xEF, 0xBB] then Sniffed(Utf8, 3)
    else Sniffed(Utf8, 0)
  }

  /** U+FEFF in each encoding. */
  function BomBytes(e: Encoding): seq<byte> {
    match e
    case Utf16Be => [0xFE, 0xFF]
    case Utf16Le => [0xFF, 0xFE]
    case Utf8 => [0xEF, 0xBB, 0xBF]
  }

  /** A stream that starts with a byte-order mark is read with that encoding, and exactly the mark is dropped. */
  lemma SniffMarked(e: Encoding, rest: seq<byte>)
    ensures Sniff(BomBytes(e) + rest) == Sniffed(e, |BomBytes(e)|)
  {
    var head := BomBytes(e) + rest;
    assert head[..2] == BomBytes(e)[..2];
    match e
    case Utf16Be => assert head[..2] == [0xFE, 0xFF];
    case Utf16Le => assert head[..2] == [0xFF, 0xFE];
    case Utf8 => assert head[..2] == [0xEF, 0xBB];
  }

  /** A stream that starts with none of the three marks is read as UTF-8 from its first byte. */
  lemma SniffUnmarked(head: seq<byte>)
    requires |head| >= 2
    requires head[..2] != [0xFE, 0xFF] && head[..2] != [0xFF, 0xFE] && head[..2] != [0xEF, 0xBB]
    ensures Sniff(head) == Sniffed(Utf8, 0)
  {
  }

  /** A stream shorter than two bytes has no mark. */
  lemma SniffShort(head: seq<byte>)
    requires |head| < 2
    ensures Sniff(head) == Sniffed(Utf8, 0)
  {
  }

  /** `EF BB` followed by any byte, not just `BF`, makes the reader drop three bytes. */
  lemma SniffUtf8Prefix(b: byte, rest: seq<byte>)
    ensures Sniff([0xEF, 0xBB, b] + rest) == Sniffed(Utf8, 3)
  {
    assert ([0xEF, 0xBB, b] + rest)[..2] == [0xEF, 0xBB];
  }
}
