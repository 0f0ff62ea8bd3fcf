/**
 * getData and processElement: one archive entry is read into a byte
 * array, its encoding is guessed, a UTF-8 byte order mark is skipped, the
 * bytes are decoded, the line ends normalised, and the lines reclassified
 * into records on the output.
 *
 * Decoding (new String(data, off, len, charset), including makeCharset's
 * fallback to UTF-8 for a charset the JVM lacks) is a parameter.
 */
module Pipeline {
  import opened Wrappers
  import opened Sniffer
  import opened Decoder
  import opened Reclassifier

  /** A decoder: the text the bytes stand for in the named charset. */
  type Decode = (seq<byte>, string) -> string

  /** getData's size check: sizes above Integer.MAX_VALUE are refused. */
  predicate SizeAccepted(size: int) {
    0 <= size <= M
  }

  /** A fresh Java array: every element starts out zero. */
  function Zeros(n: nat): (z: seq<byte>)
    ensures |z| == n && forall i :: 0 <= i < n ==> z[i] == 0
  {
    seq(n, _ => 0)
  }

  /**
   * getData: refuses an entry larger than Integer.MAX_VALUE with an
   * IOException; a negative (unknown) size makes the array allocation fail.
   * Otherwise a zeroed array of the entry's size receives the bytes one call
   * of `read` delivers, which may be fewer than the size; nothing checks
   * the count unless assertions are enabled, so the rest stays zero.
   */
  method GetData(size: int, delivered: seq<byte>) returns (r: Option<array<byte>>)
    requires SizeAccepted(size) ==> |delivered| <= size
    ensures r.None? <==> !SizeAccepted(size)
    ensures r.Some? ==> fresh(r.value) && r.value[..] == delivered + Zeros(size - |delivered|)
  {
    if size > M || size < 0 {
      return None;
    }
    var data := new byte[size](_ => 0);
    var i := 0;
    while i < |delivered|
      invariant 0 <= i <= |delivered|
      invariant data[..i] == delivered[..i]
      invariant forall j :: i <= j < size ==> data[j] == 0
    {
      data[i] := delivered[i];
      i := i + 1;
    }
    assert data[..] == data[..i] + data[i..];
    assert data[i..] == Zeros(size - i);
    return Some(data);
  }

  /**
   * A short read of "ab " from a five-byte entry leaves two NUL bytes at the
   * end, and the sniffer then takes the text for UTF-16LE.
   */
  lemma ShortReadLooksUtf16(delivered: seq<byte>, data: seq<byte>)
    requires delivered == [0x61, 0x62, 0x20] && data == delivered + Zeros(2)
    ensures Detect(data) == "UTF-16LE"
  {
    assert data == [0x61, 0x62, 0x20, 0x00, 0x00];
    TrailingNulsLookUtf16(data);
  }

  /** The lines processElement hands to processLines for the bytes `data`. */
  ghost function ElementLines(data: seq<byte>, decode: Decode): seq<string>
    requires |data| <= M
  {
    RangeInBounds(data);
    var r := RangeFor(Detect(data), |data|);
    Lines(decode(data[r.off..r.off + r.len], r.charset))
  }

  /** The records processElement writes for the entry `key` holding `data`. */
  ghost function ElementRows(key: string, data: seq<byte>, decode: Decode): seq<Row>
    requires |data| <= M
  {
    Reclassify(key, ElementLines(data, decode))
  }

  /**
   * processElement up to the split: sniff the encoding, skip a UTF-8
   * byte-order mark, decode, normalise the line ends and split.
   */
  method DecodeLines(data: array<byte>, decode: Decode) returns (lines: seq<string>)
    requires data.Length <= M
    ensures lines == ElementLines(data[..], decode)
  {
    var enc := DetermineEncoding(data);
    ghost var range := RangeFor(enc, data.Length);
    RangeInBounds(data[..]);
    var off := 0;
    var len := data.Length;
    if enc == Utf8WithBom {
      off := off + 3;
      len := len - 3;
      enc := DefaultEncoding;
    }
    assert off == range.off && len == range.len && enc == range.charset;
    var bytes := data[off..off + len];
    assert bytes == data[..][range.off..range.off + range.len];
    ElementLinesOf(data[..], decode, range, bytes, enc);
    lines := Lines(decode(bytes, enc));
  }

  lemma ElementLinesOf(data: seq<byte>, decode: Decode, range: DecodeRange, bytes: seq<byte>, charset: string)
    requires |data| <= M && range == RangeFor(Detect(data), |data|)
    requires 0 <= range.off <= range.off + range.len <= |data|
    requires bytes == data[range.off..range.off + range.len] && charset == range.charset
    ensures ElementLines(data, decode) == Lines(decode(bytes, charset))
  {
  }

  /**
   * processElement: the records of one entry are appended to the output,
   * with a warning for each record of type PRE or UNKNOWN.
   */
  method ProcessElement(key: string, data: array<byte>, decode: Decode, out: RecordWriter)
    requires data.Length <= M
    modifies out
    ensures out.written == old(out.written) + Render(ElementRows(key, data[..], decode))
    ensures out.warned == old(out.warned) + Unwanted(ElementRows(key, data[..], decode))
  {
    var lines := DecodeLines(data, decode);
    ProcessLines(key, lines, out);
  }

  /** The lines of an entry hold no line-end chars at all. */
  lemma ElementLinesAreLines(data: seq<byte>, decode: Decode)
    requires |data| <= M
    ensures forall k :: 0 <= k < |ElementLines(data, decode)| ==>
      '\n' !in ElementLines(data, decode)[k] && '\r' !in ElementLines(data, decode)[k]
  {
  }

  /** Each record of an entry is filed under the entry's key, with non-empty one-line text. */
  lemma ElementRowsAreGood(key: string, data: seq<byte>, decode: Decode)
    requires |data| <= M
    ensures forall r :: r in ElementRows(key, data, decode) ==> GoodRow(key, r)
  {
    RowsAreGood(key, ElementLines(data, decode));
  }

  /**
   * A byte order mark in front of ASCII text changes nothing: the marked
   * file is decoded as UTF-8 from the byte after the mark, the unmarked one
   * as UTF-8 from the start, so both give the same records.
   */
  lemma BomChangesNothing(key: string, text: seq<byte>, decode: Decode)
    requires 1 <= |text| <= M - 3 && AllAsciiText(text)
    ensures ElementRows(key, Utf8Bom + text, decode) == ElementRows(key, text, decode)
  {
    var marked := Utf8Bom + text;
    BomIsStripped(text);
    AsciiIsUtf8(text);
    var rm := RangeFor(Detect(marked), |marked|);
    var rt := RangeFor(Detect(text), |text|);
    PlainRange(text, Detect(text));
    ElementLinesOf(marked, decode, rm, text, DefaultEncoding);
    ElementLinesOf(text, decode, rt, text, DefaultEncoding);
  }
}
