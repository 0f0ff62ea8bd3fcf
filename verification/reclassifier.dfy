/**
 * processLines, flush and getType: the decoded lines of one submission
 * are folded into records. A line whose trimmed text starts with '>' is a
 * section marker that names the type of the records after it; an indented
 * line continues the current record; any other line starts a new record.
 */
module Reclassifier {
  import opened Wrappers
  import opened Text

  /** The record types getType can name, plus PRE for data before the first marker. */
  datatype RecordType = PRE | DOMAIN | PARTICIPANT | DATA | CASE | QUERY | NOTES | UNKNOWN

  /** One output record: the submission's id, its type and its text. */
  datatype Row = Row(id: string, kind: RecordType, text: string)

  // ---------------------------------------------------------------------
  // The line-number hack: replaceAll("^[0-9]+\t(.*)$", "$1")
  // ---------------------------------------------------------------------

  /** The chars java.util.regex treats as line terminators (no UNIX_LINES flag). */
  predicate IsLineTerminator(c: char) {
    c == '\n' || c == '\r' || c == '\U{85}' || c == '\U{2028}' || c == '\U{2029}'
  }

  predicate NoLineTerminator(s: string) {
    forall i :: 0 <= i < |s| ==> !IsLineTerminator(s[i])
  }

  /** The number of ASCII digits `s` starts with (what `^[0-9]+` can consume). */
  function LeadingDigits(s: string): (n: nat)
    ensures n <= |s|
    ensures forall i :: 0 <= i < n ==> IsAsciiDigit(s[i])
    ensures n < |s| ==> !IsAsciiDigit(s[n])
  {
    if s != [] && IsAsciiDigit(s[0]) then 1 + LeadingDigits(s[1..]) else 0
  }

  /**
   * `(.*)$` can consume all of `r`: `.` stops at every line terminator, and
   * `$` (without MULTILINE) holds at the end of the input or before a final
   * line terminator, where "\r\n" counts as one.
   */
  predicate RunsToEnd(r: string) {
    || r == []
    || NoLineTerminator(r[..|r| - 1])
    || (|r| >= 2 && r[|r| - 2..] == "\r\n" && NoLineTerminator(r[..|r| - 2]))
  }

  /** The regex matches: digits, a tab, and a rest that `(.*)$` consumes. */
  predicate Numbered(l: string) {
    var n := LeadingDigits(l);
    1 <= n < |l| && l[n] == '\t' && RunsToEnd(l[n + 1..])
  }

  /**
   * The line with its pasted line number removed. When the regex matches,
   * the match spans the digits, the tab and `.*`; only a final line
   * terminator stays outside it, so the result is everything after the tab.
   */
  function StripLineNumber(l: string): string {
    if Numbered(l) then l[LeadingDigits(l) + 1..] else l
  }

  /** The replacement only ever removes a prefix, and does so exactly when the regex matches. */
  lemma StripRemovesPrefix(l: string)
    ensures |StripLineNumber(l)| <= |l| && StripLineNumber(l) == l[|l| - |StripLineNumber(l)|..]
    ensures Numbered(l) <==> StripLineNumber(l) != l
  {
  }

  /** A line that does not start with a digit is left alone. */
  lemma UnnumberedLineKept(l: string)
    requires l == [] || !IsAsciiDigit(l[0])
    ensures StripLineNumber(l) == l
  {
  }

  /** Stripping undoes the pasting of a line number in front of a line. */
  lemma {:induction false} StripPastedNumber(number: string, text: string)
    requires number != [] && forall i :: 0 <= i < |number| ==> IsAsciiDigit(number[i])
    requires NoLineTerminator(text)
    ensures StripLineNumber(number + "\t" + text) == text
  {
    var l := number + "\t" + text;
    LeadingDigitsOfNumber(number, "\t" + text);
    assert l[|number|] == '\t';
    assert l[|number| + 1..] == text;
    if text != [] {
      assert text[..|text| - 1] == l[|number| + 1..][..|text| - 1];
    }
  }

  lemma {:induction false} LeadingDigitsOfNumber(number: string, rest: string)
    requires forall i :: 0 <= i < |number| ==> IsAsciiDigit(number[i])
    requires rest == [] || !IsAsciiDigit(rest[0])
    ensures LeadingDigits(number + rest) == |number|
    decreases |number|
  {
    if number != [] {
      assert (number + rest)[1..] == number[1..] + rest;
      LeadingDigitsOfNumber(number[1..], rest);
    } else {
      assert number + rest == rest;
    }
  }

  /** Only the first line number goes: "1\t2\tx" becomes "2\tx". */
  lemma OneNumberOnly()
    ensures StripLineNumber("1\t2\tx") == "2\tx"
  {
    StripPastedNumber("1", "2\tx");
    assert "1" + "\t" + "2\tx" == "1\t2\tx";
  }

  // ---------------------------------------------------------------------
  // getType
  // ---------------------------------------------------------------------

  /** `l` holds `kw` at position `i`, ignoring the case of ASCII letters. */
  ghost predicate MentionsAt(l: string, kw: string, i: int) {
    0 <= i && i + |kw| <= |l| && EqualIgnoringCase(l[i..i + |kw|], kw)
  }

  ghost predicate Mentions(l: string, kw: string) {
    exists i :: MentionsAt(l, kw, i)
  }

  predicate NoUpper(s: string) {
    forall i :: 0 <= i < |s| ==> !IsAsciiUpper(s[i])
  }

  /** Searching the lower-cased line for a lower-case word is a case-blind search. */
  lemma LowerSearchIsCaseBlind(l: string, kw: string)
    requires NoUpper(kw)
    ensures Contains(ToLower(l), kw) <==> Mentions(l, kw)
  {
    var n := ToLower(l);
    forall i ensures OccursAt(n, kw, i) <==> MentionsAt(l, kw, i) {
      if 0 <= i && i + |kw| <= |l| {
        var a, b := n[i..i + |kw|], l[i..i + |kw|];
        assert forall j :: 0 <= j < |kw| ==> a[j] == LowerChar(b[j]);
        assert forall j :: 0 <= j < |kw| ==> LowerChar(kw[j]) == kw[j];
      }
    }
  }

  /** getType: the first keyword test the lower-cased marker line passes. */
  function GetType(l: string): RecordType {
    var n := ToLower(l);
    if Contains(n, "dom") && Contains(n, "ne") then DOMAIN
    else if Contains(n, "beteiligt") then PARTICIPANT
    else if Contains(n, "teristi") && Contains(n, "daten") then DATA
    else if Contains(n, "gesch") && Contains(n, "lle") then CASE
    else if Contains(n, "abfrage") then QUERY
    else if Contains(n, "notizen") || Contains(n, "interessant") then NOTES
    else UNKNOWN
  }

  ghost predicate IsDomain(l: string) { Mentions(l, "dom") && Mentions(l, "ne") }
  ghost predicate IsParticipant(l: string) { Mentions(l, "beteiligt") }
  ghost predicate IsData(l: string) { Mentions(l, "teristi") && Mentions(l, "daten") }
  ghost predicate IsCase(l: string) { Mentions(l, "gesch") && Mentions(l, "lle") }
  ghost predicate IsQuery(l: string) { Mentions(l, "abfrage") }
  ghost predicate IsNotes(l: string) { Mentions(l, "notizen") || Mentions(l, "interessant") }

  /**
   * The type of a marker line, by case-blind keyword search, the earlier
   * test winning; never PRE, and UNKNOWN exactly when no test passes.
   */
  lemma GetTypeByKeywords(l: string)
    ensures GetType(l) != PRE
    ensures GetType(l) == DOMAIN <==> IsDomain(l)
    ensures GetType(l) == PARTICIPANT <==> !IsDomain(l) && IsParticipant(l)
    ensures GetType(l) == DATA <==> !IsDomain(l) && !IsParticipant(l) && IsData(l)
    ensures GetType(l) == CASE <==> !IsDomain(l) && !IsParticipant(l) && !IsData(l) && IsCase(l)
    ensures GetType(l) == QUERY <==>
      !IsDomain(l) && !IsParticipant(l) && !IsData(l) && !IsCase(l) && IsQuery(l)
    ensures GetType(l) == NOTES <==>
      !IsDomain(l) && !IsParticipant(l) && !IsData(l) && !IsCase(l) && !IsQuery(l) && IsNotes(l)
    ensures GetType(l) == UNKNOWN <==>
      !IsDomain(l) && !IsParticipant(l) && !IsData(l) && !IsCase(l) && !IsQuery(l) && !IsNotes(l)
  {
    LowerSearchIsCaseBlind(l, "dom");
    LowerSearchIsCaseBlind(l, "ne");
    LowerSearchIsCaseBlind(l, "beteiligt");
    LowerSearchIsCaseBlind(l, "teristi");
    LowerSearchIsCaseBlind(l, "daten");
    LowerSearchIsCaseBlind(l, "gesch");
    LowerSearchIsCaseBlind(l, "lle");
    LowerSearchIsCaseBlind(l, "abfrage");
    LowerSearchIsCaseBlind(l, "notizen");
    LowerSearchIsCaseBlind(l, "interessant");
  }

  /** Lines that differ only in the case of ASCII letters get the same type. */
  lemma GetTypeIgnoresCase(a: string, b: string)
    requires EqualIgnoringCase(a, b)
    ensures GetType(a) == GetType(b)
  {
    ToLowerIgnoresCase(a, b);
  }

  // ---------------------------------------------------------------------
  // processLines as a fold
  // ---------------------------------------------------------------------

  /** The state of processLines between two lines: the type and the record being built. */
  datatype Parse = Parse(kind: RecordType, buf: string, rows: seq<Row>)

  const Start := Parse(PRE, "", [])

  /** What flush writes for a pending record: nothing when it is empty. */
  function Flushed(id: string, kind: RecordType, buf: string): (rows: seq<Row>)
    ensures |rows| <= 1
    ensures rows == [] <==> buf == []
    ensures forall r :: r in rows ==> r == Row(id, kind, buf)
  {
    if buf == [] then [] else [Row(id, kind, buf)]
  }

  /** The line with its number stripped and then trimmed: what gets appended. */
  function Piece(line: string): string {
    Trim(StripLineNumber(line))
  }

  /** Blank, once the line number is gone and the line is trimmed. */
  predicate IsBlank(line: string) {
    Piece(line) == []
  }

  /** A section marker: the trimmed line starts with '>'. */
  predicate IsMarker(line: string) {
    Piece(line) != [] && Piece(line)[0] == '>'
  }

  /** A continuation: the line (number stripped) starts with a tab or a space. */
  predicate Indented(line: string) {
    var l := StripLineNumber(line);
    l != [] && (l[0] == '\t' || l[0] == ' ')
  }

  /** The body of processLines' loop, applied to one line. */
  function Step(id: string, st: Parse, line: string): Parse {
    if IsBlank(line) then st
    else if IsMarker(line) then Parse(GetType(StripLineNumber(line)), "", st.rows + Flushed(id, st.kind, st.buf))
    else if Indented(line) then Parse(st.kind, st.buf + " " + Piece(line), st.rows)
    else Parse(st.kind, Piece(line), st.rows + Flushed(id, st.kind, st.buf))
  }

  function Run(id: string, st: Parse, lines: seq<string>): Parse
    decreases |lines|
  {
    if lines == [] then st else Step(id, Run(id, st, lines[..|lines| - 1]), lines[|lines| - 1])
  }

  /** The records processLines writes for the submission `id`. */
  function Reclassify(id: string, lines: seq<string>): seq<Row> {
    var end := Run(id, Start, lines);
    end.rows + Flushed(id, end.kind, end.buf)
  }

  /** Running over two pieces is running over the first, then the second. */
  lemma {:induction false} RunAppend(id: string, st: Parse, xs: seq<string>, ys: seq<string>)
    ensures Run(id, st, xs + ys) == Run(id, Run(id, st, xs), ys)
    decreases |ys|
  {
    if ys != [] {
      var init := ys[..|ys| - 1];
      assert (xs + ys)[..|xs + ys| - 1] == xs + init;
      RunAppend(id, st, xs, init);
    } else {
      assert xs + ys == xs;
    }
  }

  lemma RunSnoc(id: string, st: Parse, xs: seq<string>, line: string)
    ensures Run(id, st, xs + [line]) == Step(id, Run(id, st, xs), line)
  {
    assert (xs + [line])[..|xs|] == xs;
  }

  /** A blank line changes nothing, wherever it stands. */
  lemma BlankLineIgnored(id: string, xs: seq<string>, blank: string, ys: seq<string>)
    requires IsBlank(blank)
    ensures Reclassify(id, xs + [blank] + ys) == Reclassify(id, xs + ys)
  {
    RunAppend(id, Start, xs + [blank], ys);
    RunSnoc(id, Start, xs, blank);
    RunAppend(id, Start, xs, ys);
  }

  // ---------------------------------------------------------------------
  // What every record looks like
  // ---------------------------------------------------------------------

  /** Text flush may write: non-empty, ending in a non-blank char, on one line. */
  predicate GoodText(s: string) {
    s != [] && !IsTrimmable(s[|s| - 1]) && '\n' !in s
  }

  predicate GoodRow(id: string, r: Row) {
    r.id == id && GoodText(r.text)
  }

  predicate GoodParse(id: string, st: Parse) {
    (st.buf == [] || GoodText(st.buf)) && forall r :: r in st.rows ==> GoodRow(id, r)
  }

  lemma NoCharInSlice(s: string, c: char, lo: int, hi: int)
    requires 0 <= lo <= hi <= |s| && c !in s
    ensures c !in s[lo..hi]
  {
  }

  lemma TrimmedPieceIsGood(line: string)
    requires '\n' !in line && !IsBlank(line)
    ensures GoodText(Piece(line))
  {
    var l := StripLineNumber(line);
    StripRemovesPrefix(line);
    NoCharInSlice(line, '\n', |line| - |l|, |line|);
    var t := Trim(l);
    NoCharInSlice(l, '\n', LeadingTrimmable(l), LeadingTrimmable(l) + |t|);
  }

  lemma {:induction false} StepKeepsGood(id: string, st: Parse, line: string)
    requires GoodParse(id, st) && '\n' !in line
    ensures GoodParse(id, Step(id, st, line))
  {
    if !IsBlank(line) {
      TrimmedPieceIsGood(line);
      JoinedIsGood(st.buf, Piece(line));
      FlushedIsGood(id, st);
    }
  }

  lemma JoinedIsGood(buf: string, t: string)
    requires '\n' !in buf && GoodText(t)
    ensures GoodText(buf + " " + t)
  {
    var joined := buf + " " + t;
    assert joined[|joined| - 1] == t[|t| - 1];
    assert forall c :: c in joined ==> c in buf || c == ' ' || c in t;
  }

  lemma FlushedIsGood(id: string, st: Parse)
    requires GoodParse(id, st)
    ensures forall r :: r in st.rows + Flushed(id, st.kind, st.buf) ==> GoodRow(id, r)
  {
  }

  lemma {:induction false} RunKeepsGood(id: string, st: Parse, lines: seq<string>)
    requires GoodParse(id, st) && forall k :: 0 <= k < |lines| ==> '\n' !in lines[k]
    ensures GoodParse(id, Run(id, st, lines))
    decreases |lines|
  {
    if lines != [] {
      var init := lines[..|lines| - 1];
      RunKeepsGood(id, st, init);
      StepKeepsGood(id, Run(id, st, init), lines[|lines| - 1]);
    }
  }

  /**
   * Every record carries the submission's id and a non-empty text that
   * ends in a non-blank char and (for lines without '\n') fits on one line.
   */
  lemma RowsAreGood(id: string, lines: seq<string>)
    requires forall k :: 0 <= k < |lines| ==> '\n' !in lines[k]
    ensures forall r :: r in Reclassify(id, lines) ==> GoodRow(id, r)
  {
    RunKeepsGood(id, Start, lines);
  }

  /** Records pending or written so far. */
  function Records(st: Parse): nat {
    |st.rows| + if st.buf == [] then 0 else 1
  }

  /** The lines that carry text: neither blank nor a section marker. */
  function TextLines(lines: seq<string>): nat {
    if lines == [] then 0
    else
      var line := lines[|lines| - 1];
      TextLines(lines[..|lines| - 1]) + if IsBlank(line) || IsMarker(line) then 0 else 1
  }

  /** A blank line or a marker adds no record; any other line adds at most one. */
  lemma StepCountsRecords(id: string, st: Parse, line: string)
    ensures Records(Step(id, st, line)) <= Records(st) + if IsBlank(line) || IsMarker(line) then 0 else 1
  {
  }

  lemma {:induction false} RunCountsRecords(id: string, st: Parse, lines: seq<string>)
    ensures Records(Run(id, st, lines)) <= Records(st) + TextLines(lines)
    decreases |lines|
  {
    if lines != [] {
      var init := lines[..|lines| - 1];
      RunCountsRecords(id, st, init);
      StepCountsRecords(id, Run(id, st, init), lines[|lines| - 1]);
    }
  }

  /** There are never more records than lines that carry text. */
  lemma RowCountBound(id: string, lines: seq<string>)
    ensures |Reclassify(id, lines)| <= TextLines(lines) <= |lines|
  {
    RunCountsRecords(id, Start, lines);
    TextLinesBound(lines);
  }

  lemma {:induction false} TextLinesBound(lines: seq<string>)
    ensures TextLines(lines) <= |lines|
    decreases |lines|
  {
    if lines != [] {
      TextLinesBound(lines[..|lines| - 1]);
    }
  }

  predicate NoPre(rows: seq<Row>) {
    forall r :: r in rows ==> r.kind != PRE
  }

  /** Past the first marker: the current type and every record so far are typed. */
  predicate Typed(st: Parse) {
    st.kind != PRE && NoPre(st.rows)
  }

  lemma StepKeepsTyped(id: string, st: Parse, line: string)
    requires Typed(st)
    ensures Typed(Step(id, st, line))
  {
    if IsMarker(line) {
      GetTypeByKeywords(StripLineNumber(line));
    }
  }

  lemma FirstMarkerTypes(id: string, line: string)
    requires IsMarker(line)
    ensures Typed(Step(id, Start, line))
    ensures Step(id, Start, line).rows == []
  {
    StepOnMarker(id, Start, line);
    GetTypeByKeywords(StripLineNumber(line));
  }

  lemma {:induction false} RunKeepsTyped(id: string, st: Parse, lines: seq<string>)
    requires Typed(st)
    ensures Typed(Run(id, st, lines))
    decreases |lines|
  {
    if lines != [] {
      var init := lines[..|lines| - 1];
      RunKeepsTyped(id, st, init);
      StepKeepsTyped(id, Run(id, st, init), lines[|lines| - 1]);
    }
  }

  /** Running over lines is taking the first step, then running over the rest. */
  lemma RunFirst(id: string, st: Parse, lines: seq<string>)
    requires lines != []
    ensures Run(id, st, lines) == Run(id, Step(id, st, lines[0]), lines[1..])
  {
    var first := [lines[0]];
    assert first[..0] == [];
    RunAppend(id, st, first, lines[1..]);
    assert first + lines[1..] == lines;
  }

  /** A submission that opens with a section marker has no PRE records. */
  lemma MarkerFirstMeansNoPre(id: string, lines: seq<string>)
    requires lines != [] && IsMarker(lines[0])
    ensures NoPre(Reclassify(id, lines))
  {
    FirstMarkerTypes(id, lines[0]);
    RunFirst(id, Start, lines);
    RunKeepsTyped(id, Step(id, Start, lines[0]), lines[1..]);
  }

  // ---------------------------------------------------------------------
  // Two submissions
  // ---------------------------------------------------------------------

  /** A search for a word whose first char is absent fails. */
  lemma AbsentFirstChar(s: string, w: string)
    requires w != [] && w[0] !in s
    ensures !Contains(s, w)
  {
    forall i ensures !OccursAt(s, w, i) {
      if 0 <= i && i + |w| <= |s| {
        assert s[i..i + |w|][0] == s[i];
      }
    }
  }

  /** The three kinds of non-blank line, as Step treats them. */
  lemma StepOnMarker(id: string, st: Parse, line: string)
    requires IsMarker(line)
    ensures Step(id, st, line) == Parse(GetType(StripLineNumber(line)), "", st.rows + Flushed(id, st.kind, st.buf))
  {
  }

  lemma StepOnContinuation(id: string, st: Parse, line: string)
    requires !IsBlank(line) && !IsMarker(line) && Indented(line)
    ensures Step(id, st, line) == Parse(st.kind, st.buf + " " + Piece(line), st.rows)
  {
  }

  lemma StepOnNewRecord(id: string, st: Parse, line: string)
    requires !IsBlank(line) && !IsMarker(line) && !Indented(line)
    ensures Step(id, st, line) == Parse(st.kind, Piece(line), st.rows + Flushed(id, st.kind, st.buf))
  {
  }

  // ---------------------------------------------------------------------
  // flush and the output file
  // ---------------------------------------------------------------------

  /** The name flush writes for a type. */
  function TypeName(k: RecordType): (name: string)
    ensures name != [] && '\t' !in name && '\n' !in name
  {
    match k
    case PRE => "PRE"
    case DOMAIN => "DOMAIN"
    case PARTICIPANT => "PARTICIPANT"
    case DATA => "DATA"
    case CASE => "CASE"
    case QUERY => "QUERY"
    case NOTES => "NOTES"
    case UNKNOWN => "UNKNOWN"
  }

  function TypeNamed(name: string): Option<RecordType> {
    if name == "PRE" then Some(PRE)
    else if name == "DOMAIN" then Some(DOMAIN)
    else if name == "PARTICIPANT" then Some(PARTICIPANT)
    else if name == "DATA" then Some(DATA)
    else if name == "CASE" then Some(CASE)
    else if name == "QUERY" then Some(QUERY)
    else if name == "NOTES" then Some(NOTES)
    else if name == "UNKNOWN" then Some(UNKNOWN)
    else None
  }

  /** Every type name reads back as its type, so no two types share a name. */
  lemma TypeNameRoundTrip(k: RecordType)
    ensures TypeNamed(TypeName(k)) == Some(k)
  {
  }

  /** One line of the output file: id, tab, type, tab, text, newline. */
  function FormatRow(r: Row): string {
    r.id + "\t" + TypeName(r.kind) + "\t" + r.text + "\n"
  }

  /** The text before and after the first tab of `s`, if it has one. */
  function SplitAtTab(s: string): Option<(string, string)> {
    var a := IndexOf(s, "\t");
    if a < 0 then None else Some((s[..a], s[a + 1..]))
  }

  /** Reading a line of the output file back: split at the first two tabs. */
  function ParseRecord(s: string): Option<Row> {
    match SplitAtTab(s)
    case None => None
    case Some((id, rest)) =>
      match SplitAtTab(rest)
      case None => None
      case Some((name, tail)) =>
        if tail == [] || tail[|tail| - 1] != '\n' then None
        else
          match TypeNamed(name)
          case None => None
          case Some(kind) => Some(Row(id, kind, tail[..|tail| - 1]))
  }

  lemma FirstTab(pre: string, post: string)
    requires '\t' !in pre
    ensures SplitAtTab(pre + "\t" + post) == Some((pre, post))
  {
    var s := pre + "\t" + post;
    assert OccursAt(s, "\t", |pre|) by {
      assert s[|pre|..|pre| + 1] == "\t";
    }
    var r := IndexOf(s, "\t");
    assert s[r..r + 1][0] == s[r];
    assert r == |pre|;
    assert s[..r] == pre;
    assert s[r + 1..] == post;
  }

  /**
   * A record whose id holds no tab reads back unchanged from the line flush
   * writes for it (the text may hold tabs of its own).
   */
  lemma FormatRowRoundTrip(r: Row)
    requires '\t' !in r.id
    ensures ParseRecord(FormatRow(r)) == Some(r)
  {
    var name := TypeName(r.kind);
    var tail := r.text + "\n";
    var post := name + "\t" + tail;
    assert FormatRow(r) == r.id + "\t" + post;
    FirstTab(r.id, post);
    FirstTab(name, tail);
    assert tail[..|tail| - 1] == r.text;
    TypeNameRoundTrip(r.kind);
  }

  /** The output file after writing `rows`, one line each. */
  function Render(rows: seq<Row>): string {
    if rows == [] then [] else Render(rows[..|rows| - 1]) + FormatRow(rows[|rows| - 1])
  }

  /** The types flush warns about on the error stream, one per warned record. */
  function Unwanted(rows: seq<Row>): seq<RecordType> {
    if rows == [] then []
    else
      var k := rows[|rows| - 1].kind;
      Unwanted(rows[..|rows| - 1]) + if k == PRE || k == UNKNOWN then [k] else []
  }

  lemma {:induction false} UnwantedAreUnwanted(rows: seq<Row>)
    ensures forall k :: k in Unwanted(rows) ==> k == PRE || k == UNKNOWN
    ensures |Unwanted(rows)| <= |rows|
  {
    if rows != [] {
      UnwantedAreUnwanted(rows[..|rows| - 1]);
    }
  }

  lemma AppendOne(rows: seq<Row>, more: seq<Row>)
    requires |more| <= 1
    ensures Render(rows + more) == Render(rows) + Render(more)
    ensures Unwanted(rows + more) == Unwanted(rows) + Unwanted(more)
  {
    if more == [] {
      assert rows + more == rows;
    } else {
      assert (rows + more)[..|rows|] == rows;
      assert more[..0] == [];
    }
  }

  lemma AppendFlushed(rows: seq<Row>, id: string, kind: RecordType, buf: string)
    ensures Render(rows + Flushed(id, kind, buf)) == Render(rows) + Render(Flushed(id, kind, buf))
    ensures Unwanted(rows + Flushed(id, kind, buf)) == Unwanted(rows) + Unwanted(Flushed(id, kind, buf))
  {
    if buf == [] {
      assert rows + [] == rows;
    } else {
      var one := [Row(id, kind, buf)];
      assert (rows + one)[..|rows|] == rows;
      assert one[..0] == [];
    }
  }

  /** java.lang.StringBuilder, as far as processLines uses it. */
  class StringBuilder {
    var text: string

    constructor ()
      ensures text == []
    {
      text := [];
    }

    method Append(s: string)
      modifies this
      ensures text == old(text) + s
    {
      text := text + s;
    }

    /** setLength(0) */
    method Clear()
      modifies this
      ensures text == []
    {
      text := [];
    }
  }

  /** The output file and the error stream, as what has been written to them. */
  class RecordWriter {
    var written: string
    var warned: seq<RecordType>

    constructor ()
      ensures written == [] && warned == []
    {
      written := [];
      warned := [];
    }

    method Write(s: string)
      modifies this
      ensures written == old(written) + s && warned == old(warned)
    {
      written := written + s;
    }

    method Warn(kind: RecordType)
      modifies this
      ensures warned == old(warned) + [kind] && written == old(written)
    {
      warned := warned + [kind];
    }
  }

  /**
   * flush: an empty record is never written; any other is written as one
   * line, with a warning first when its type is PRE or UNKNOWN, and the
   * builder is emptied.
   */
  method Flush(out: RecordWriter, id: string, kind: RecordType, result: StringBuilder)
    modifies out, result
    ensures result.text == []
    ensures out.written == old(out.written) + Render(Flushed(id, kind, old(result.text)))
    ensures out.warned == old(out.warned) + Unwanted(Flushed(id, kind, old(result.text)))
  {
    if result.text == [] {
      return;
    }
    if kind == PRE || kind == UNKNOWN {
      out.Warn(kind);
    }
    out.Write(id + "\t" + TypeName(kind) + "\t" + result.text + "\n");
    result.Clear();
  }

  lemma ReclassifyRenders(id: string, lines: seq<string>)
    ensures var end := Run(id, Start, lines);
      && Render(Reclassify(id, lines)) == Render(end.rows) + Render(Flushed(id, end.kind, end.buf))
      && Unwanted(Reclassify(id, lines)) == Unwanted(end.rows) + Unwanted(Flushed(id, end.kind, end.buf))
  {
    var end := Run(id, Start, lines);
    AppendFlushed(end.rows, id, end.kind, end.buf);
  }

  /** The records a line makes flush write: the pending one, unless the line is blank or continues it. */
  function Emitted(id: string, st: Parse, line: string): seq<Row> {
    if IsBlank(line) || (!IsMarker(line) && Indented(line)) then [] else Flushed(id, st.kind, st.buf)
  }

  lemma StepEmits(id: string, st: Parse, line: string)
    ensures Step(id, st, line).rows == st.rows + Emitted(id, st, line)
    ensures |Emitted(id, st, line)| <= 1
  {
    if IsBlank(line) || (!IsMarker(line) && Indented(line)) {
      assert st.rows + [] == st.rows;
    }
  }

  /** The fold advanced by one line. */
  lemma FoldStep(id: string, lines: seq<string>, i: int, st: Parse)
    requires 0 <= i < |lines| && st == Run(id, Start, lines[..i])
    ensures Run(id, Start, lines[..i + 1]) == Step(id, st, lines[i])
  {
    var longer := lines[..i + 1];
    assert longer[..i] == lines[..i];
  }

  /** What a line makes flush write is appended to the records so far. */
  lemma StepRenders(id: string, st: Parse, line: string)
    ensures Render(Step(id, st, line).rows) == Render(st.rows) + Render(Emitted(id, st, line))
    ensures Unwanted(Step(id, st, line).rows) == Unwanted(st.rows) + Unwanted(Emitted(id, st, line))
  {
    StepEmits(id, st, line);
    AppendOne(st.rows, Emitted(id, st, line));
  }

  /** One pass of processLines' loop body, over the line `line`, in the fold state `st`. */
  method ProcessLine(id: string, line: string, out: RecordWriter, current: StringBuilder, kind: RecordType,
                     ghost st: Parse) returns (next: RecordType)
    requires st.kind == kind && st.buf == current.text
    modifies out, current
    ensures next == Step(id, st, line).kind && current.text == Step(id, st, line).buf
    ensures out.written == old(out.written) + Render(Emitted(id, st, line))
    ensures out.warned == old(out.warned) + Unwanted(Emitted(id, st, line))
  {
    var l := StripLineNumber(line);
    var lT := Trim(l);
    assert lT == Piece(line);
    if lT == [] {
      assert Emitted(id, st, line) == [];
      return kind;
    }
    if lT[0] == '>' {
      StepOnMarker(id, st, line);
      Flush(out, id, kind, current);
      next := GetType(l);
    } else if l[0] == '\t' || l[0] == ' ' {
      StepOnContinuation(id, st, line);
      assert Emitted(id, st, line) == [];
      current.Append(" ");
      current.Append(lT);
      next := kind;
    } else {
      StepOnNewRecord(id, st, line);
      Flush(out, id, kind, current);
      current.Append(lT);
      next := kind;
    }
  }

  /**
   * processLines: writes the records of the submission `id`, and warns once
   * for each record of type PRE or UNKNOWN.
   */
  method ProcessLines(id: string, lines: seq<string>, out: RecordWriter)
    modifies out
    ensures out.written == old(out.written) + Render(Reclassify(id, lines))
    ensures out.warned == old(out.warned) + Unwanted(Reclassify(id, lines))
  {
    var kind := PRE;
    var current := new StringBuilder();
    var i := 0;
    ghost var st := Start;
    while i < |lines|
      invariant 0 <= i <= |lines|
      invariant st == Run(id, Start, lines[..i])
      invariant st.kind == kind && st.buf == current.text
      invariant out.written == old(out.written) + Render(st.rows)
      invariant out.warned == old(out.warned) + Unwanted(st.rows)
    {
      FoldStep(id, lines, i, st);
      StepRenders(id, st, lines[i]);
      ghost var emitted := Emitted(id, st, lines[i]);
      Associative(old(out.written), Render(st.rows), Render(emitted));
      Associative(old(out.warned), Unwanted(st.rows), Unwanted(emitted));
      kind := ProcessLine(id, lines[i], out, current, kind, st);
      st := Step(id, st, lines[i]);
      i := i + 1;
    }
    assert lines[..i] == lines;
    ReclassifyRenders(id, lines);
    Associative(old(out.written), Render(st.rows), Render(Flushed(id, st.kind, st.buf)));
    Associative(old(out.warned), Unwanted(st.rows), Unwanted(Flushed(id, st.kind, st.buf)));
    Flush(out, id, kind, current);
  }
}
