# NormalizeEncodings in Dafny

NormalizeEncodings reads a ZIP archive of German-language text
submissions. Each submission comes in an unknown encoding, and the
program writes one normalised record file from them. For every file
entry it does five things:

- it guesses the encoding with a small table of byte patterns
  (`COMMON_ENCODING_PATTERNS`, `EncP.isMatching`, `determineEncoding`);
- it skips a UTF-8 byte-order mark and decodes the bytes;
- it turns CR LF and lone CR into LF and splits the text into lines;
- it reclassifies the lines into records: `> ...` section markers choose the
  record type through keyword tests (`getType`), indented lines continue a
  record, and other lines start one;
- it writes each record as `id TAB TYPE TAB text LF`, with a warning for
  records of type PRE or UNKNOWN.

Entries are filed under a key derived from the entry name, and a later
entry with the same key replaces an earlier one.

This project models that core and proves properties of it. It has one
module per part of the program:

| file | module | models |
|---|---|---|
| `wrappers.dfy` | `Wrappers` | `Option` |
| `text.dfy` | `Text` | the `java.lang.String` operations used: `trim`, `toLowerCase` (ASCII letters), `indexOf`, `lastIndexOf` |
| `sniffer.dfy` | `Sniffer` | the rule table, `EncP` and its constructor, `isMatching`, `determineEncoding` |
| `decoder.dfy` | `Decoder` | the byte-order-mark range, `replace("\r\n","\n").replace('\r','\n')`, `split("\n")` |
| `entries.dfy` | `Entries` | the entry key and the map that `getSortedEntries` builds |
| `reclassifier.dfy` | `Reclassifier` | the line-number regex, `getType`, `processLines` and `flush`, on `StringBuilder` and writer classes |
| `submissions.dfy` | `Submissions` | two worked submissions |
| `pipeline.dfy` | `Pipeline` | `getData` and `processElement` |

The loops of the program are methods with loop invariants:

- `isMatching`;
- the table scan of `determineEncoding`;
- the `EncP` constructor;
- the copy into the array in `getData`: a single `in.read(data, 0, data.length)` call in Java, written here as a loop over the delivered bytes;
- the entry loop of `getSortedEntries`;
- `processLines`.

The methods with loops over the input are proved against specification
functions:

- `isMatching` against `Matches`;
- the table scan against `FirstMatch` and `Detect`;
- the entry loop against `EntryMap`;
- `processLines` against a fold, `Reclassify`.

The lemmas state the promised properties about those functions. The
`processLines` method updates a `StringBuilder` object and appends to a
`RecordWriter` object. The writer's fields stand for the output file
(`written`) and the warnings on the error stream (`warned`). The other
methods state their result or new state directly in their `ensures`:

- the `EncP` constructor;
- `getData`;
- `flush`;
- the `StringBuilder` and `RecordWriter` methods.

Bytes are an unsigned `byte` newtype. The sniffer only compares bytes for
equality, so Java's signed bytes behave the same. Integers are unbounded.
`TableStepNeverOverflows` shows that the Java loop counter `i += div`
never passes `Integer.MAX_VALUE` for any rule of the table, so the
unbounded offsets are the ones the Java loop visits.

The scan bound `i < data.length - pattern.length` is kept as written. A
pattern that ends exactly at the last byte is never seen.
`BomAloneIsUtf8` and `UmlautPosition` show the consequences: a file made
of only the byte-order mark is labelled "UTF-8", and so is a file whose
only umlaut is its last byte and which is otherwise ASCII text.

## Model

| member | source | states |
|---|---|---|
| Sniffer.Table | NormalizeEncodings.java:41-82 | the 30 rules in source order, each with its label, stride and pattern as written; a constant with no ensures, whose properties TableAnchored, OnlyBomRuleIsUtf8Y and WideRulesNeedNulOrFf state |
| Sniffer.LowByte | NormalizeEncodings.java:105 | the stored byte agrees with the int modulo 256, i.e. it keeps the low eight bits |
| Sniffer.NewEncP | NormalizeEncodings.java:100-107 | the rule keeps the label and stride; its pattern has one byte per int, each the low eight bits of that int |
| Sniffer.TableBuiltByNewEncP | NormalizeEncodings.java:100-107 | a rule the constructor builds from the label, stride and bytes (as ints, as lines 41-82 write them) of a table rule is exactly that rule |
| Sniffer.MatchesAt | NormalizeEncodings.java:110-118 | offset i is tried (a multiple of the stride, 0 <= i < \|data\| - \|pattern\|) and the pattern's bytes follow it; a predicate with no ensures, which IsMatching and the blocking lemmas characterise |
| Sniffer.Matches | NormalizeEncodings.java:109-123 | isMatching's result: some offset matches; a predicate with no ensures, the specification IsMatching is proved against |
| Sniffer.IsMatching | NormalizeEncodings.java:109-123 | true exactly when, at some multiple of the stride strictly below \|data\| - \|pattern\|, the next \|pattern\| bytes equal the pattern |
| Sniffer.SentinelMatchesOnlyAtStart | NormalizeEncodings.java:90-99 | with stride Integer.MAX_VALUE (and a buffer no longer than that), a rule fires iff the buffer is longer than the pattern and starts with it |
| Sniffer.TableStepNeverOverflows | NormalizeEncodings.java:110-111 | for every table rule and every offset the scan body runs on, the next offset is at most Integer.MAX_VALUE |
| Sniffer.ScanNeverReachesLastByte | NormalizeEncodings.java:110-118 | every window the scan compares lies inside the buffer without its last byte |
| Sniffer.LongPatternBlocks | NormalizeEncodings.java:110 | a buffer no longer than the pattern never matches |
| Sniffer.FirstByteBlocks | NormalizeEncodings.java:110-118 | a buffer at most one byte longer than the pattern is tried at offset 0 only, so a different first byte blocks the rule |
| Sniffer.AbsentByteBlocks | NormalizeEncodings.java:113-118 | a rule cannot fire if one of its pattern bytes occurs nowhere in the buffer |
| Sniffer.FirstMatch | NormalizeEncodings.java:243-248 | the index of a rule that fires with no earlier rule firing, or -1 when no rule fires |
| Sniffer.FirstMatchIs | NormalizeEncodings.java:243-248 | a rule that fires, with no earlier rule firing, is the one FirstMatch finds |
| Sniffer.FirstRule | NormalizeEncodings.java:243-248 | the loop over the rules stops at the first rule that fires, or runs out (-1) |
| Sniffer.Detect | NormalizeEncodings.java:238-250 | the label of the first firing rule, else "UTF-8"; a function with no ensures, whose contract FirstFiresDetects, AsciiIsUtf8 and Utf8YMeansBom carry |
| Sniffer.DetermineEncoding | NormalizeEncodings.java:238-250 | returns the label of the first table rule that fires on the buffer, else "UTF-8" |
| Sniffer.FirstFiresDetects | NormalizeEncodings.java:243-248 | when rule k fires and no earlier rule does, its label is the one detected |
| Sniffer.TableAnchored | NormalizeEncodings.java:41-82 | every rule's first or second byte is NUL or above 0x7f |
| Sniffer.AnchoredMissesAscii | NormalizeEncodings.java:109-123 | such a rule never fires on a buffer whose bytes before the last are all in 0x01-0x7f |
| Sniffer.AsciiBeforeLastIsUtf8 | NormalizeEncodings.java:238-250 | the empty buffer, one-byte buffers, and buffers that are ASCII text except possibly the last byte are labelled "UTF-8" |
| Sniffer.AsciiIsUtf8 | NormalizeEncodings.java:239-242 | a buffer of bytes 0x01-0x7f is labelled "UTF-8" |
| Sniffer.OnlyBomRuleIsUtf8Y | NormalizeEncodings.java:58 | only the byte-order-mark rule carries the label "UTF-8Y" |
| Sniffer.Utf8YMeansBom | NormalizeEncodings.java:58 | a buffer labelled "UTF-8Y" has at least four bytes and starts with EF BB BF |
| Sniffer.WideRulesNeedNulOrFf | NormalizeEncodings.java:42-55 | none of the eight UTF-32 and UTF-16 rules fires on a buffer without 0x00, 0xfe and 0xff bytes |
| Sniffer.BomThenAsciiIsUtf8Y | NormalizeEncodings.java:58 | EF BB BF followed by at least one ASCII text byte is labelled "UTF-8Y" |
| Sniffer.BomAloneIsUtf8 | NormalizeEncodings.java:110 | the three mark bytes alone are labelled "UTF-8": the strict bound never tries offset 0 |
| Sniffer.UmlautPosition | NormalizeEncodings.java:64 | windows-1252 0xe4 before an ASCII byte gives "windows-1252"; as the last byte it is not seen and gives "UTF-8" |
| Sniffer.NulTextHasNoMark | NormalizeEncodings.java:43-52 | "ab " and two NULs carry none of the UTF-32 or UTF-16 byte-order marks |
| Sniffer.NulTextIsNotUtf32 | NormalizeEncodings.java:47-48 | "ab " and two NULs fire neither UTF-32 rule: five bytes are tried at offset 0 only, and the first byte differs |
| Sniffer.TrailingNulsFirst | NormalizeEncodings.java:43-54 | for "ab " and two NULs the UTF-16LE rule is the first rule of the table that fires |
| Sniffer.TrailingNulsLookUtf16 | NormalizeEncodings.java:54 | "ab " followed by two NUL bytes is labelled "UTF-16LE": the space and a NUL at an even offset fire that rule |
| Decoder.RangeFor | NormalizeEncodings.java:194-200 | "UTF-8Y" decodes from offset 3 as "UTF-8"; any other label decodes from offset 0 as itself; offset plus length is the buffer length |
| Decoder.RangeInBounds | NormalizeEncodings.java:194-200 | for the detected label the range lies inside the buffer, and the skipped prefix is empty or exactly the byte-order mark |
| Decoder.BomIsStripped | NormalizeEncodings.java:194-200 | for the mark followed by ASCII text the decoder is handed exactly the text, as "UTF-8" |
| Decoder.ReplaceCrLf | NormalizeEncodings.java:207 | replace("\r\n","\n") never lengthens the text and leaves CR-free text unchanged |
| Decoder.ReplaceCr | NormalizeEncodings.java:207 | replace('\r','\n') keeps the length, turns each CR into LF and keeps every other char |
| Decoder.NormalizeNewlines | NormalizeEncodings.java:207 | the normalised text holds no CR |
| Decoder.NormalizeIsOnePass | NormalizeEncodings.java:207 | the two chained replacements equal one left-to-right pass: CR LF gives LF, a lone CR gives LF, other chars stay |
| Decoder.NormalizeIdempotent | NormalizeEncodings.java:207 | normalising twice is normalising once |
| Decoder.SplitAll | NormalizeEncodings.java:208 | the pieces between LFs: at least one, none holding LF, a single piece exactly when there is no LF |
| Decoder.SplitAllJoins | NormalizeEncodings.java:208 | joining the pieces with LF gives the text back |
| Decoder.DropTrailingEmpty | NormalizeEncodings.java:208 | a prefix of the pieces, ending in a non-empty piece, dropping only empty ones |
| Decoder.SplitLines | NormalizeEncodings.java:208 | split("\n"): text without LF is one piece (even if empty); otherwise the pieces with trailing empty ones removed |
| Decoder.Lines | NormalizeEncodings.java:205-208 | no line handed to processLines holds LF or CR |
| Decoder.MixedLineEndsNormalize | NormalizeEncodings.java:207 | "A\r\nB\rC\n" normalises to "A\nB\nC\n" |
| Decoder.MixedLineEnds | NormalizeEncodings.java:205-208 | "A\r\nB\rC\n" gives the lines A, B, C |
| Entries.KeyEnd | NormalizeEncodings.java:177-179 | the end of the key, pos2: the last '.', or the length when there is none; within the name |
| Entries.KeyStart | NormalizeEncodings.java:176 | the start of the key, pos1: just after the last '/', or 0; within the name |
| Entries.KeyOf | NormalizeEncodings.java:176-180 | substring(pos1, pos2) of a lower-cased name, None where substring throws; no ensures of its own, see EntryKeyShape |
| Entries.EntryKey | NormalizeEncodings.java:175-180 | the key of an entry name: lower-case, then KeyOf; no ensures of its own, EntryKeyShape and KeyOfPath state its contract |
| Entries.KeyBoundsFail | NormalizeEncodings.java:176-180 | substring's end lies before its start exactly when the name has a '.' and a '/' after every '.' |
| Entries.LowerKeepsSeparators | NormalizeEncodings.java:175 | lower-casing keeps every '/' and '.' where it was: at each position the lower-cased name has a '/' (a '.') exactly when the name does; so whether substring fails is unchanged |
| Entries.EntryKeyShape | NormalizeEncodings.java:175-180 | no key exactly when the last '.' precedes the last '/'; a key holds no '/' and no upper-case letter and is no longer than the name |
| Entries.KeyOfPath | NormalizeEncodings.java:175-180 | the key of directory + base + extension is the lower-cased base name |
| Entries.AntwortKey | NormalizeEncodings.java:175-180 | "Team1/Antwort.txt" is filed under "antwort" |
| Entries.DottedDirectoryFails | NormalizeEncodings.java:176-180 | "v1.0/notes" has no key: substring throws |
| Entries.EntryStep | NormalizeEncodings.java:172-180 | one pass of the loop: a directory is skipped, a file is put under its key, a missing key aborts; no ensures of its own, see EntryStepFails |
| Entries.EntryStepFails | NormalizeEncodings.java:172-180 | a step fails exactly when the map has already failed or the entry is a file without a key |
| Entries.EntryMap | NormalizeEncodings.java:168-183 | the map getSortedEntries returns, as a fold of EntryStep over the entries; no ensures of its own, EntryMapFailsIff, EntryMapKeys and EntryMapLastWins state its contract |
| Entries.EntryMapFailsIff | NormalizeEncodings.java:171-181 | building the map fails exactly when some file entry has no key |
| Entries.EntryMapKeys | NormalizeEncodings.java:171-181 | a built map holds the key of every file entry and no other key |
| Entries.EntryMapLastWins | NormalizeEncodings.java:180 | under each key the map holds the last file entry with that key |
| Entries.EntryMapStaysNone | NormalizeEncodings.java:180 | once substring has thrown, later entries cannot produce a map |
| Entries.GetSortedEntries | NormalizeEncodings.java:168-183 | the loop skipping directories and putting each file under its key builds EntryMap, failing when EntryMap fails |
| Reclassifier.RunsToEnd | NormalizeEncodings.java:271 | `(.*)$` can consume the rest: no line terminator except possibly a final one (CR LF counting as one); a predicate, see StripPastedNumber |
| Reclassifier.Numbered | NormalizeEncodings.java:271 | the regex matches: at least one digit, a TAB, then a rest RunsToEnd accepts; a predicate, see StripRemovesPrefix |
| Reclassifier.StripLineNumber | NormalizeEncodings.java:271 | replaceAll("^[0-9]+\t(.*)$", "$1"): everything after the TAB when the regex matches, else the line; no ensures of its own, StripRemovesPrefix, UnnumberedLineKept, StripPastedNumber and OneNumberOnly state its contract |
| Reclassifier.LeadingDigits | NormalizeEncodings.java:271 | the length of the run of ASCII digits the line starts with |
| Reclassifier.StripRemovesPrefix | NormalizeEncodings.java:271 | replaceAll only ever removes a prefix, and changes the line exactly when the regex matches |
| Reclassifier.UnnumberedLineKept | NormalizeEncodings.java:271 | a line that does not start with a digit is left alone |
| Reclassifier.StripPastedNumber | NormalizeEncodings.java:271 | digits + TAB + text without line terminators becomes text |
| Reclassifier.OneNumberOnly | NormalizeEncodings.java:271 | "1\t2\tx" becomes "2\tx": only the first number goes |
| Reclassifier.LowerSearchIsCaseBlind | NormalizeEncodings.java:305-320 | indexOf on the lower-cased line finds a lower-case keyword exactly when the line contains it up to case |
| Reclassifier.GetType | NormalizeEncodings.java:302-323 | getType; no ensures of its own, GetTypeByKeywords and GetTypeIgnoresCase state its contract |
| Reclassifier.GetTypeByKeywords | NormalizeEncodings.java:302-323 | never PRE; each type is returned exactly when its keyword test holds and no earlier test does; UNKNOWN exactly when no test holds |
| Reclassifier.GetTypeIgnoresCase | NormalizeEncodings.java:305 | lines equal up to letter case get the same type |
| Reclassifier.Flushed | NormalizeEncodings.java:292-299 | an empty buffer gives no record, any other exactly one record holding the id, type and buffer |
| Reclassifier.Piece | NormalizeEncodings.java:271-273 | lT: the line with its number stripped, trimmed; no ensures, see TrimmedPieceIsGood |
| Reclassifier.IsBlank | NormalizeEncodings.java:274 | lT is empty; a predicate, see BlankLineIgnored |
| Reclassifier.IsMarker | NormalizeEncodings.java:276 | lT starts with '>'; a predicate, see StepOnMarker |
| Reclassifier.Indented | NormalizeEncodings.java:279 | the stripped line starts with TAB or space; a predicate, see StepOnContinuation |
| Reclassifier.Step | NormalizeEncodings.java:271-285 | the loop body on (type, buffer, records written); no ensures of its own, StepOnMarker, StepOnContinuation, StepOnNewRecord and StepEmits state its contract |
| Reclassifier.Run | NormalizeEncodings.java:267-286 | the loop: Step over the lines in order; no ensures of its own, see RunAppend and RunFirst |
| Reclassifier.Reclassify | NormalizeEncodings.java:263-288 | the records processLines writes, the final flush included; no ensures of its own, ProcessLines is proved against it and RowsAreGood, RowCountBound, BlankLineIgnored and MarkerFirstMeansNoPre state its properties |
| Reclassifier.RunAppend | NormalizeEncodings.java:267-286 | processing two runs of lines is processing the first, then the second from where it left off |
| Reclassifier.BlankLineIgnored | NormalizeEncodings.java:273-275 | inserting a line that is blank after stripping and trimming changes no record |
| Reclassifier.StepOnMarker | NormalizeEncodings.java:276-278 | a '>' line flushes the pending record, sets the type to getType of the stripped line and appends nothing |
| Reclassifier.StepOnContinuation | NormalizeEncodings.java:279-281 | a line starting with TAB or space appends a space and its trimmed text, keeping the type and flushing nothing |
| Reclassifier.StepOnNewRecord | NormalizeEncodings.java:282-285 | any other line flushes the pending record and starts the buffer with its trimmed text |
| Reclassifier.TrimmedPieceIsGood | NormalizeEncodings.java:273 | the trimmed text of a non-blank line is non-empty and ends in a non-blank char |
| Reclassifier.StepKeepsGood | NormalizeEncodings.java:267-286 | one line keeps every record and the buffer well formed |
| Reclassifier.RunKeepsGood | NormalizeEncodings.java:267-286 | so do many lines |
| Reclassifier.RowsAreGood | NormalizeEncodings.java:263-300 | every record carries the submission id and a non-empty text ending in a non-blank char, with no LF when no line has one |
| Reclassifier.StepCountsRecords | NormalizeEncodings.java:273-285 | a blank or marker line adds no record; any other line adds at most one |
| Reclassifier.RunCountsRecords | NormalizeEncodings.java:267-286 | records pending or written grow by at most the number of text lines |
| Reclassifier.RowCountBound | NormalizeEncodings.java:263-300 | a submission gives at most as many records as it has lines that are neither blank nor markers |
| Reclassifier.StepKeepsTyped | NormalizeEncodings.java:276-285 | once the type is not PRE, no line makes it PRE or writes a PRE record |
| Reclassifier.FirstMarkerTypes | NormalizeEncodings.java:265-278 | a marker as the first line leaves a non-PRE type and writes no record |
| Reclassifier.RunKeepsTyped | NormalizeEncodings.java:267-286 | the same over many lines |
| Reclassifier.RunFirst | NormalizeEncodings.java:267 | processing lines is processing the first line, then the rest |
| Reclassifier.MarkerFirstMeansNoPre | NormalizeEncodings.java:265-287 | a submission that opens with a marker line produces no PRE record |
| Reclassifier.FormatRow | NormalizeEncodings.java:297-298 | the output line id TAB type TAB text LF; no ensures, FormatRowRoundTrip is its inverse |
| Reclassifier.Render | NormalizeEncodings.java:297-298 | the output of a run of records, their lines in order; no ensures, see ProcessLines |
| Reclassifier.Unwanted | NormalizeEncodings.java:294-296 | the warnings for a run of records, one per PRE or UNKNOWN record; no ensures, see UnwantedAreUnwanted |
| Reclassifier.TypeName | NormalizeEncodings.java:297 | a type name is non-empty and holds no TAB or LF |
| Reclassifier.TypeNameRoundTrip | NormalizeEncodings.java:297 | each type name reads back as its type |
| Reclassifier.FirstTab | NormalizeEncodings.java:297 | splitting at the first TAB recovers a TAB-free prefix and everything after it |
| Reclassifier.FormatRowRoundTrip | NormalizeEncodings.java:297-298 | a record whose id holds no TAB is read back unchanged from its output line |
| Reclassifier.UnwantedAreUnwanted | NormalizeEncodings.java:294-296 | every warning names PRE or UNKNOWN, and there are no more warnings than records |
| Reclassifier.StringBuilder.constructor | NormalizeEncodings.java:266 | a new builder is empty |
| Reclassifier.StringBuilder.Append | NormalizeEncodings.java:280-284 | append adds the text at the end |
| Reclassifier.StringBuilder.Clear | NormalizeEncodings.java:299 | setLength(0) empties the builder |
| Reclassifier.RecordWriter.constructor | NormalizeEncodings.java:152-153 | a new writer has written nothing and warned nothing |
| Reclassifier.RecordWriter.Write | NormalizeEncodings.java:297-298 | the output grows by the text; the warnings stay |
| Reclassifier.RecordWriter.Warn | NormalizeEncodings.java:295-296 | one warning for the type is added; the output stays |
| Reclassifier.Flush | NormalizeEncodings.java:290-300 | writes the line of the pending record (none when empty), warns for PRE or UNKNOWN, and leaves the builder empty |
| Reclassifier.StepEmits | NormalizeEncodings.java:276-285 | a line writes the records it emits after those already written, at most one |
| Reclassifier.ProcessLine | NormalizeEncodings.java:271-285 | one pass of the loop body: the type and builder become the fold's next state, and the output grows by that line's records and warnings |
| Reclassifier.ProcessLines | NormalizeEncodings.java:263-288 | the output grows by exactly the lines of Reclassify's records, and the warnings by their unwanted types |
| Submissions.ParticipantMarker | NormalizeEncodings.java:308-309 | "> Beteiligte Personen" is typed PARTICIPANT |
| Submissions.TabLine | NormalizeEncodings.java:271-281 | TAB followed by a word that neither starts nor ends blank (and does not start with '>') is a continuation line whose trimmed text is the word |
| Submissions.ContinuationLinesJoin | NormalizeEncodings.java:279-287 | "A", "\tB", "\tC" give the single PRE record "A B C" |
| Submissions.NumberedParticipant | NormalizeEncodings.java:271-287 | "1\t> Beteiligte Personen", "2\tMax Mustermann" give the single PARTICIPANT record "Max Mustermann" |
| Pipeline.GetData | NormalizeEncodings.java:212-236 | a size above Integer.MAX_VALUE (or a negative one) is refused; otherwise a fresh array of that size holds the bytes one read delivered, followed by zeros |
| Pipeline.Zeros | NormalizeEncodings.java:225 | new byte[n]: n zero bytes |
| Pipeline.ShortReadLooksUtf16 | NormalizeEncodings.java:225-230 | when one read delivers only "ab " of a five-byte entry, the array GetData returns is labelled "UTF-16LE" |
| Pipeline.ElementLines | NormalizeEncodings.java:187-208 | the lines processElement hands on; no ensures of its own, DecodeLines is proved against it and ElementLinesAreLines states its contract |
| Pipeline.ElementRows | NormalizeEncodings.java:187-209 | the records of an entry; no ensures of its own, see ProcessElement and ElementRowsAreGood |
| Pipeline.DecodeLines | NormalizeEncodings.java:187-208 | sniffing, skipping the mark, decoding and splitting give the entry's lines |
| Pipeline.ProcessElement | NormalizeEncodings.java:185-210 | the output grows by the records of the entry's lines and the warnings by their unwanted types |
| Pipeline.ElementLinesAreLines | NormalizeEncodings.java:205-208 | no line of an entry holds LF or CR |
| Pipeline.ElementRowsAreGood | NormalizeEncodings.java:205-209 | every record of an entry carries the entry key and non-empty one-line text |
| Pipeline.BomChangesNothing | NormalizeEncodings.java:194-208 | ASCII text with a byte-order mark in front gives the same records as without it |
| Text.Trim | NormalizeEncodings.java:273 | trim: the slice from the first to the last char above U+0020, empty exactly when there is none |
| Text.TrimPadded | NormalizeEncodings.java:273 | trim drops blank padding in front of a word that starts and ends non-blank |
| Text.ToLower | NormalizeEncodings.java:175 | toLowerCase equals the input up to case and holds no upper-case ASCII letter |
| Text.IndexOf | NormalizeEncodings.java:306-320 | indexOf: the first position where the word occurs, or -1 when it occurs nowhere |
| Text.Contains | NormalizeEncodings.java:306-320 | indexOf != -1 exactly when the word occurs somewhere |
| Text.LastIndexOf | NormalizeEncodings.java:176-177 | lastIndexOf: the last position of the char, or -1 exactly when it is absent |

## Left out

- `main`, `usage` and `process` are not modelled. They handle the command line, open the ZIP file and the output writer, and iterate over the sorted map. `ProcessElement` models the work done for one map entry.
- The order of the `TreeMap` is not modelled. The map is a Dafny `map` from key to the entry's position in the archive, rather than to the `ZipEntry` object. Entries are modelled as a sequence of (name, is-directory) pairs, in archive order.
- The ZIP stream is not modelled. What the single `read` call at line 229 delivers is a parameter of `GetData`: any number of bytes up to the entry size.
- A short read is not caught by the source. The `assert` at line 230 only runs when the JVM has assertions enabled. The bytes after a short read stay zero, and the sniffer sees them: `ShortReadLooksUtf16` shows a short read of ASCII text labelled "UTF-16LE".
- Both the `IOException` for sizes above Integer.MAX_VALUE and the failure of `new byte[-1]` for an unknown size are modelled as `None` from `GetData`, not as exceptions.
- Charset decoding (`new String(data, off, len, charset)`) and `makeCharset` with its fallback to UTF-8 are library calls. They are a function parameter `decode`, and the fallback warning is not modelled.
- The `DEBUG` print is not modelled. A warning on the error stream is modelled as its record type appended to `RecordWriter.warned`, without its message text.
- Text.ToLower: only the ASCII letters A-Z are lowered. The Unicode and locale-dependent case mappings of `String.toLowerCase` are not modelled.
- Strings are sequences of Dafny chars, not of UTF-16 code units, so a supplementary character counts as one char here, not as two. Only positions and lengths inside a string differ from Java. The text that trim, indexOf, substring and the line-number regex produce is the same.
- Pipeline.ProcessElement requires `data.Length <= Integer.MAX_VALUE`, which every Java array meets.
- Sniffer.NewEncP: the stride is a positive int (`Stride`). Java's `EncP` accepts any int `div`. With `div == 0`, `isMatching` would loop forever once offset 0 fails. A negative `div` would index before the start of the array. Every rule of the table uses 1, 2, 4 or Integer.MAX_VALUE, so the program never meets either case.
