/**
 * Two small submissions worked through processLines, line by line. The
 * verifier unfolds a string literal char by char wherever it occurs, so
 * the lines come in as parameters equal to the literal text
 * (`requires a == "A"`), each fact about a literal is shown once, in a
 * lemma of its own, and the lemmas that chain the steps are stated for any
 * lines. That keeps every proof obligation small.
 */
module Submissions {
  import opened Text
  import opened Reclassifier

  // ---------------------------------------------------------------------
  // A record before any marker, continued by indented lines
  // ---------------------------------------------------------------------

  lemma PlainLine(a: string)
    requires a == "A"
    ensures !IsBlank(a) && !IsMarker(a) && !Indented(a) && Piece(a) == "A"
  {
    UnnumberedLineKept(a);
  }

  /** A tab followed by a word is a continuation line carrying that word. */
  lemma TabLine(w: string)
    requires w != [] && !IsTrimmable(w[0]) && !IsTrimmable(w[|w| - 1]) && w[0] != '>'
    ensures var t := "\t" + w; !IsBlank(t) && !IsMarker(t) && Indented(t) && Piece(t) == w
  {
    UnnumberedLineKept("\t" + w);
    TrimPadded("\t", w);
  }

  lemma PlainStep(id: string, a: string)
    requires a == "A"
    ensures Step(id, Start, a) == Parse(PRE, "A", [])
  {
    PlainLine(a);
    StepOnNewRecord(id, Start, a);
  }

  lemma TabStep(id: string, buf: string, t: string, w: string, joined: string)
    requires w != [] && !IsTrimmable(w[0]) && !IsTrimmable(w[|w| - 1]) && w[0] != '>'
    requires t == "\t" + w && joined == buf + " " + w
    ensures Step(id, Parse(PRE, buf, []), t) == Parse(PRE, joined, [])
  {
    TabLine(w);
    StepOnContinuation(id, Parse(PRE, buf, []), t);
  }

  /** Three lines, each taking the run to a known state, take it to the last. */
  lemma RunThree(id: string, st: Parse, a: string, b: string, c: string, s1: Parse, s2: Parse, s3: Parse)
    requires Step(id, st, a) == s1 && Step(id, s1, b) == s2 && Step(id, s2, c) == s3
    ensures Run(id, st, [a, b, c]) == s3
  {
    RunFirst(id, st, [a, b, c]);
    assert [a, b, c][1..] == [b, c];
    RunFirst(id, s1, [b, c]);
    assert [b, c][1..] == [c];
    RunFirst(id, s2, [c]);
    assert [c][1..] == [];
  }

  lemma JoinRun(id: string, a: string, b: string, c: string, wb: string, wc: string, ab: string, abc: string)
    requires a == "A" && wb == "B" && wc == "C" && b == "\t" + wb && c == "\t" + wc
    requires ab == a + " " + wb && abc == ab + " " + wc
    ensures Run(id, Start, [a, b, c]) == Parse(PRE, abc, [])
  {
    PlainStep(id, a);
    TabStep(id, a, b, wb, ab);
    TabStep(id, ab, c, wc, abc);
    RunThree(id, Start, a, b, c, Parse(PRE, a, []), Parse(PRE, ab, []), Parse(PRE, abc, []));
  }

  /** Data before any marker is PRE, and indented lines continue the record. */
  lemma ContinuationLinesJoin(id: string, a: string, b: string, c: string)
    requires a == "A" && b == "\tB" && c == "\tC"
    ensures Reclassify(id, [a, b, c]) == [Row(id, PRE, "A B C")]
  {
    JoinRun(id, a, b, c, "B", "C", "A B", "A B C");
  }

  // ---------------------------------------------------------------------
  // A submission pasted with its line numbers
  // ---------------------------------------------------------------------

  lemma MarkerText(m: string)
    requires m == "> Beteiligte Personen"
    ensures NoLineTerminator(m) && Trim(m) == m
  {
    MarkerHasNoTerminator(m);
    MarkerIsTrimmed(m);
  }

  lemma MarkerHasNoTerminator(m: string)
    requires m == "> Beteiligte Personen"
    ensures NoLineTerminator(m)
  {
  }

  lemma MarkerIsTrimmed(m: string)
    requires m == "> Beteiligte Personen"
    ensures Trim(m) == m
  {
    assert m[0] == '>' && m[|m| - 1] == 'n';
    Unpadded(m);
  }

  /** A line with no trimmable char at either end is its own trim. */
  lemma Unpadded(w: string)
    requires w != [] && !IsTrimmable(w[0]) && !IsTrimmable(w[|w| - 1])
    ensures Trim(w) == w
  {
    assert [] + w == w;
    TrimPadded([], w);
  }

  lemma LowerMarker(m: string)
    requires m == "> Beteiligte Personen"
    ensures ToLower(m) == "> beteiligte personen"
  {
  }

  lemma NoDomain(m: string)
    requires m == "> beteiligte personen"
    ensures !Contains(m, "dom")
  {
    AbsentFirstChar(m, "dom");
  }

  lemma HasParticipant(m: string)
    requires m == "> beteiligte personen"
    ensures Contains(m, "beteiligt")
  {
    assert OccursAt(m, "beteiligt", 2);
  }

  /** "> Beteiligte Personen" names the participants. */
  lemma ParticipantMarker(m: string)
    requires m == "> Beteiligte Personen"
    ensures GetType(m) == PARTICIPANT
  {
    LowerMarker(m);
    NoDomain(ToLower(m));
    HasParticipant(ToLower(m));
  }

  lemma NameText(n: string)
    requires n == "Max Mustermann"
    ensures NoLineTerminator(n) && Trim(n) == n && n[0] != '>' && n[0] != '\t' && n[0] != ' '
  {
  }

  lemma StripPasted(digit: string, text: string)
    requires digit == "1" || digit == "2"
    requires NoLineTerminator(text)
    ensures StripLineNumber(digit + "\t" + text) == text
  {
    StripPastedNumber(digit, text);
  }

  lemma MarkerStep(id: string, m: string)
    requires m == "> Beteiligte Personen"
    ensures Step(id, Start, "1" + "\t" + m) == Parse(PARTICIPANT, "", [])
  {
    MarkerText(m);
    StripPasted("1", m);
    ParticipantMarker(m);
    StepOnMarker(id, Start, "1" + "\t" + m);
  }

  lemma NameStep(id: string, n: string)
    requires n == "Max Mustermann"
    ensures Step(id, Parse(PARTICIPANT, "", []), "2" + "\t" + n) == Parse(PARTICIPANT, n, [])
  {
    NameText(n);
    StripPasted("2", n);
    StepOnNewRecord(id, Parse(PARTICIPANT, "", []), "2" + "\t" + n);
  }

  lemma RunTwo(id: string, st: Parse, a: string, b: string, s1: Parse, s2: Parse)
    requires Step(id, st, a) == s1 && Step(id, s1, b) == s2
    ensures Run(id, st, [a, b]) == s2
  {
    RunFirst(id, st, [a, b]);
    assert [a, b][1..] == [b];
    RunFirst(id, s1, [b]);
    assert [b][1..] == [];
  }

  lemma ParticipantRun(id: string, m: string, n: string)
    requires m == "> Beteiligte Personen" && n == "Max Mustermann"
    ensures Run(id, Start, ["1" + "\t" + m, "2" + "\t" + n]) == Parse(PARTICIPANT, n, [])
  {
    MarkerStep(id, m);
    NameStep(id, n);
    RunTwo(id, Start, "1" + "\t" + m, "2" + "\t" + n, Parse(PARTICIPANT, "", []), Parse(PARTICIPANT, n, []));
  }

  /** Pasted line numbers go, and the marker types the record after it. */
  lemma NumberedParticipant(id: string, m: string, n: string)
    requires m == "> Beteiligte Personen" && n == "Max Mustermann"
    ensures Reclassify(id, ["1" + "\t" + m, "2" + "\t" + n]) == [Row(id, PARTICIPANT, n)]
  {
    ParticipantRun(id, m, n);
  }
}
