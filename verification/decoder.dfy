/**
 * What processElement does between sniffing and reclassifying: drop the
 * UTF-8 byte-order mark from the range handed to the charset decoder,
 * then turn CR LF and lone CR into LF and split the text into lines the
 * way String.split("\n") does.
 */
module Decoder {
  import opened Sniffer

  /** The arguments of `new String(data, off, len, charset)`. */
  datatype DecodeRange = DecodeRange(off: int, len: int, charset: string)

  /**
   * A "UTF-8Y" label skips the three mark bytes and decodes as "UTF-8";
   * every other label decodes the whole buffer as itself.
   */
  function RangeFor(enc: string, n: int): (r: DecodeRange)
    ensures r.off + r.len == n
    ensures r.charset != Utf8WithBom
    ensures enc == Utf8WithBom ==> r.off == 3 && r.charset == DefaultEncoding
    ensures enc != Utf8WithBom ==> r.off == 0 && r.charset == enc
  {
    if enc == Utf8WithBom then DecodeRange(3, n - 3, DefaultEncoding)
    else DecodeRange(0, n, enc)
  }

  /**
   * For every buffer the sniffer labels, the decode range lies inside the
   * buffer, and a skipped prefix is exactly the UTF-8 byte-order mark.
   */
  lemma RangeInBounds(data: seq<byte>)
    requires |data| <= M
    ensures var r := RangeFor(Detect(data), |data|);
      0 <= r.off <= r.off + r.len == |data| && data[..r.off] in {[], Utf8Bom}
  {
    if Detect(data) == Utf8WithBom {
      Utf8YMeansBom(data);
    }
  }

  lemma BomRange(enc: string, n: int)
    requires enc == Utf8WithBom
    ensures RangeFor(enc, n) == DecodeRange(3, n - 3, DefaultEncoding)
  {
  }

  /**
   * The UTF-8 byte-order mark followed by ASCII text is decoded as UTF-8
   * from just after the mark, so the decoder sees exactly the text.
   */
  lemma BomIsStripped(text: seq<byte>)
    requires 1 <= |text| <= M - 3 && AllAsciiText(text)
    ensures var data := Utf8Bom + text;
      var r := RangeFor(Detect(data), |data|);
      r.charset == DefaultEncoding && data[r.off..r.off + r.len] == text
  {
    BomThenAsciiIsUtf8Y(text);
    MarkedRange(Utf8Bom + text, text, Detect(Utf8Bom + text));
  }

  lemma PlainRange(data: seq<byte>, enc: string)
    requires enc == DefaultEncoding
    ensures var r := RangeFor(enc, |data|);
      r.charset == DefaultEncoding && data[r.off..r.off + r.len] == data
  {
    assert data[0..|data|] == data;
  }

  lemma MarkedRange(data: seq<byte>, text: seq<byte>, enc: string)
    requires data == Utf8Bom + text && enc == Utf8WithBom
    ensures var r := RangeFor(enc, |data|);
      r.charset == DefaultEncoding && data[r.off..r.off + r.len] == text
  {
    BomRange(enc, |data|);
    assert data[3..3 + |text|] == text;
  }

  // ---------------------------------------------------------------------
  // Newline normalisation: replace("\r\n", "\n").replace('\r', '\n')

  /** replace("\r\n", "\n"): a left-to-right scan for non-overlapping CR LF pairs. */
  function ReplaceCrLf(s: string): (r: string)
    ensures |r| <= |s|
    ensures '\r' !in s ==> r == s
    decreases |s|
  {
    if |s| >= 2 && s[0] == '\r' && s[1] == '\n' then "\n" + ReplaceCrLf(s[2..])
    else if s == [] then []
    else [s[0]] + ReplaceCrLf(s[1..])
  }

  /** replace('\r', '\n'): every CR becomes LF, every other char stays. */
  function ReplaceCr(s: string): (r: string)
    ensures |r| == |s|
    ensures '\r' !in r
    ensures forall i :: 0 <= i < |s| ==> r[i] == if s[i] == '\r' then '\n' else s[i]
  {
    seq(|s|, i requires 0 <= i < |s| => if s[i] == '\r' then '\n' else s[i])
  }

  /** The normalised text of processElement. */
  function NormalizeNewlines(s: string): (r: string)
    ensures '\r' !in r
  {
    ReplaceCr(ReplaceCrLf(s))
  }

  /**
   * An independent, one-pass statement of the normalisation: CR LF gives
   * one LF, a lone CR gives LF, every other char is kept.
   */
  function OnePassNewlines(s: string): (r: string)
    decreases |s|
  {
    if s == [] then []
    else if s[0] == '\r' then
      "\n" + OnePassNewlines(if |s| >= 2 && s[1] == '\n' then s[2..] else s[1..])
    else [s[0]] + OnePassNewlines(s[1..])
  }

  lemma ReplaceCrAppend(a: string, b: string)
    ensures ReplaceCr(a + b) == ReplaceCr(a) + ReplaceCr(b)
  {
  }

  /** The two chained replace calls are the one-pass normalisation. */
  lemma {:induction false} NormalizeIsOnePass(s: string)
    ensures NormalizeNewlines(s) == OnePassNewlines(s)
    decreases |s|
  {
    if s == [] {
    } else if |s| >= 2 && s[0] == '\r' && s[1] == '\n' {
      NormalizeIsOnePass(s[2..]);
      ReplaceCrAppend("\n", ReplaceCrLf(s[2..]));
    } else {
      NormalizeIsOnePass(s[1..]);
      ReplaceCrAppend([s[0]], ReplaceCrLf(s[1..]));
      if s[0] == '\r' {
        assert |s| >= 2 ==> s[1] != '\n';
        assert s[1..] == [] || s[1..][0] != '\n';
        // a lone CR followed by more text
        assert OnePassNewlines(s) == "\n" + OnePassNewlines(s[1..]);
      }
    }
  }

  /** Normalising twice is normalising once. */
  lemma NormalizeIdempotent(s: string)
    ensures NormalizeNewlines(NormalizeNewlines(s)) == NormalizeNewlines(s)
  {
    var t := NormalizeNewlines(s);
    assert ReplaceCrLf(t) == t;
    assert ReplaceCr(t) == t;
  }

  // ---------------------------------------------------------------------
  // String.split("\n")

  /** Every piece between two LFs, including empty ones at either end. */
  function SplitAll(s: string): (r: seq<string>)
    ensures |r| >= 1
    ensures forall k :: 0 <= k < |r| ==> '\n' !in r[k]
    ensures |r| == 1 <==> '\n' !in s
    ensures '\n' !in s ==> r == [s]
  {
    if s == [] then [[]]
    else
      var rest := SplitAll(s[1..]);
      assert s == [s[0]] + s[1..];
      if s[0] == '\n' then [[]] + rest
      else [[s[0]] + rest[0]] + rest[1..]
  }

  /** The pieces joined with LF again. */
  function JoinLines(pieces: seq<string>): string
    requires |pieces| >= 1
  {
    if |pieces| == 1 then pieces[0] else pieces[0] + "\n" + JoinLines(pieces[1..])
  }

  /** Splitting on LF loses nothing: joining the pieces gives the text back. */
  lemma {:induction false} SplitAllJoins(s: string)
    ensures JoinLines(SplitAll(s)) == s
    decreases |s|
  {
    if s != [] {
      SplitAllJoins(s[1..]);
      var rest := SplitAll(s[1..]);
      if s[0] != '\n' && |rest| > 1 {
        assert ([[s[0]] + rest[0]] + rest[1..])[1..] == rest[1..];
        assert JoinLines(rest) == rest[0] + "\n" + JoinLines(rest[1..]);
      } else if s[0] == '\n' {
        assert ([[]] + rest)[1..] == rest;
      }
      assert s == [s[0]] + s[1..];
    }
  }

  /** Drops the empty strings at the end, as split with limit 0 does. */
  function DropTrailingEmpty(pieces: seq<string>): (r: seq<string>)
    ensures |r| <= |pieces| && r == pieces[..|r|]
    ensures r == [] || r[|r| - 1] != []
    ensures forall k :: |r| <= k < |pieces| ==> pieces[k] == []
  {
    if pieces == [] || pieces[|pieces| - 1] != [] then pieces
    else DropTrailingEmpty(pieces[..|pieces| - 1])
  }

  /**
   * String.split("\n"): a text without LF is its own single piece (even
   * when empty); otherwise the pieces between LFs, trailing empty ones
   * removed.
   */
  function SplitLines(s: string): (r: seq<string>)
    ensures forall k :: 0 <= k < |r| ==> '\n' !in r[k]
    ensures '\n' !in s ==> r == [s]
    ensures '\n' in s ==> r == [] || r[|r| - 1] != []
    ensures |r| <= |SplitAll(s)| && r == SplitAll(s)[..|r|]
    ensures forall k :: |r| <= k < |SplitAll(s)| ==> SplitAll(s)[k] == []
  {
    if '\n' !in s then [s] else DropTrailingEmpty(SplitAll(s))
  }

  /** The raw lines processElement hands to processLines. */
  function Lines(text: string): (r: seq<string>)
    ensures forall k :: 0 <= k < |r| ==> '\n' !in r[k] && '\r' !in r[k]
  {
    var t := NormalizeNewlines(text);
    var r := SplitLines(t);
    assert forall k :: 0 <= k < |r| ==> r[k] == SplitAll(t)[k];
    SplitAllJoinsNoCr(t);
    r
  }

  /** No piece of a CR-free text contains CR. */
  lemma {:induction false} SplitAllJoinsNoCr(s: string)
    requires '\r' !in s
    ensures forall k :: 0 <= k < |SplitAll(s)| ==> '\r' !in SplitAll(s)[k]
    decreases |s|
  {
    if s != [] {
      SplitAllJoinsNoCr(s[1..]);
    }
  }

  lemma OnePassCons(c: char, s: string)
    requires c != '\r'
    ensures OnePassNewlines([c] + s) == [c] + OnePassNewlines(s)
  {
    assert ([c] + s)[1..] == s;
  }

  lemma SplitAllCons(c: char, s: string)
    ensures c == '\n' ==> SplitAll([c] + s) == [[]] + SplitAll(s)
    ensures c != '\n' ==> SplitAll([c] + s) == [[c] + SplitAll(s)[0]] + SplitAll(s)[1..]
  {
    assert ([c] + s)[1..] == s;
  }

  // A worked example, "A\r\nB\rC\n". The verifier unfolds a string literal
  // char by char wherever it occurs, so the example is built up one char at
  // a time from the end, each suffix in a lemma of its own, and the literal
  // of the example itself comes in as a parameter (`requires s == ...`).
  // That keeps every proof obligation small.

  lemma OnePassC()
    ensures OnePassNewlines("C\n") == "C\n"
  {
    OnePassCons('\n', "");
    OnePassCons('C', "\n");
    assert ['\n'] + "" == "\n";
    assert ['C'] + "\n" == "C\n";
  }

  lemma OnePassCrC()
    ensures OnePassNewlines("\rC\n") == "\nC\n"
  {
    OnePassC();
    assert "\rC\n"[1..] == "C\n";
  }

  lemma OnePassBCrC()
    ensures OnePassNewlines("B\rC\n") == "B\nC\n"
  {
    OnePassCrC();
    OnePassCons('B', "\rC\n");
    assert ['B'] + "\rC\n" == "B\rC\n";
  }

  lemma OnePassCrLfBCrC()
    ensures OnePassNewlines("\r\nB\rC\n") == "\nB\nC\n"
  {
    OnePassBCrC();
    assert "\r\nB\rC\n"[2..] == "B\rC\n";
  }

  /** CR LF, lone CR and LF all end a line. */
  lemma MixedLineEndsNormalize(s: string)
    requires s == "A\r\nB\rC\n"
    ensures NormalizeNewlines(s) == "A\nB\nC\n"
  {
    NormalizeIsOnePass(s);
    OnePassCrLfBCrC();
    OnePassCons('A', "\r\nB\rC\n");
    assert ['A'] + "\r\nB\rC\n" == s;
  }

  // The split of the normalised example, suffix by suffix as above.

  lemma SplitLastTwo()
    ensures SplitAll("\nC\n") == ["", "C", ""]
  {
    SplitAllCons('\n', "");
    assert SplitAll("\n") == ["", ""] by { assert ['\n'] + "" == "\n"; }
    SplitAllCons('C', "\n");
    assert SplitAll("C\n") == ["C", ""] by { assert ['C'] + "\n" == "C\n"; assert ['C'] + "" == "C"; }
    SplitAllCons('\n', "C\n");
    assert ['\n'] + "C\n" == "\nC\n";
  }

  lemma SplitLastThree()
    ensures SplitAll("B\nC\n") == ["B", "C", ""]
  {
    SplitLastTwo();
    SplitAllCons('B', "\nC\n");
    assert ['B'] + "\nC\n" == "B\nC\n";
    assert ['B'] + "" == "B";
  }

  lemma SplitLastFour()
    ensures SplitAll("\nB\nC\n") == ["", "B", "C", ""]
  {
    SplitLastThree();
    SplitAllCons('\n', "B\nC\n");
    assert ['\n'] + "B\nC\n" == "\nB\nC\n";
  }

  lemma SplitAllThree()
    ensures SplitAll("A\nB\nC\n") == ["A", "B", "C", ""]
  {
    SplitLastFour();
    SplitAllCons('A', "\nB\nC\n");
    assert ['A'] + "\nB\nC\n" == "A\nB\nC\n";
    assert ['A'] + "" == "A";
  }

  lemma DropThree(p: seq<string>)
    requires p == ["A", "B", "C", ""]
    ensures DropTrailingEmpty(p) == ["A", "B", "C"]
  {
    var r := DropTrailingEmpty(p);
    assert p[2] != [];
    assert |r| == 3;
    assert p[..3] == ["A", "B", "C"];
  }

  lemma SplitThree(t: string)
    requires t == "A\nB\nC\n"
    ensures SplitLines(t) == ["A", "B", "C"]
  {
    SplitAllThree();
    assert t[1] == '\n';
    DropThree(SplitAll(t));
  }

  /** Windows, classic Mac OS and Unix line ends give the same lines; the empty piece after the final LF is dropped. */
  lemma MixedLineEnds(s: string)
    requires s == "A\r\nB\rC\n"
    ensures Lines(s) == ["A", "B", "C"]
  {
    MixedLineEndsNormalize(s);
    SplitThree(NormalizeNewlines(s));
  }
}
