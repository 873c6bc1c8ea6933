# libpipecolors marker translation in Dafny

libpipecolors lets a program write colour markers into its output text. A
marker is a bar and two decimal digits, such as `|04` for red. Before
printing, the library replaces each marker with an ANSI "Select Graphic
Rendition" escape sequence (ECMA-48 section 8.3.117). It also reports how long
the text is once the markers are gone. This project models that core and proves
properties of the model:

- `code_table.dfy`, module `CodeTable`: the fixed code table `ansi`. It maps
  the two digits of a marker to an escape sequence or to the sentinel
  `"nocode"`.
- `translator.dfy`, module `Translator`: `replace_colors`.
  - It scans the text left to right for markers.
  - Each marker is replaced, erased or left alone.
  - It builds the display string and a "plain" copy that has lost the same
    markers, and returns the display string with the plain copy's length.
  - Two switches decide the outcome:
    - `hasColors`: the answer of the terminal check.
    - `removeInvalid`: the build flag `PC_REMOVE_INVALID`, false unless the
      build defines it.
- `placement.dfy`, module `Placement`: how the code places its edits (at the
  first occurrence of the marker text), and an input on which that differs
  from editing at the match position.
- `samples.dfy`, module `Samples`: worked translations of small inputs.

The specification of the translation is the function `Translator.Translate`.
It scans with `Scan` one position at a time:
- a marker is handled by `Decide`;
- every other character is copied to both strings.

`Translator.ReplaceColors` is the loop of the source. It is proved to compute
exactly `Translate`. The lemmas then state what `Translate` promises:
- text without markers is untouched;
- every marker is considered once;
- the plain length is the input length less three per removed marker;
- the plain copy does not depend on the colour switch;
- with colours off, display and plain are equal.

Behaviour that follows the code (libpipecolors.cc) and can surprise a reader:
- With the default flag, a marker with an unassigned code such as `|99` is
  skipped before the plain copy is edited. It stays in the display string
  *and* counts toward the plain length: `|99` gives plain length 3, not 0
  (`Samples.UnassignedMarkerKept`).
- The plain length subtracts three only for the markers the plain copy loses.
  Markers that are matched but skipped still count.
- The longest escape sequence has 7 characters. A marker's replacement
  therefore adds at most 4 characters (`Translator.DisplayLength`).

## Model

| member | source | states |
|---|---|---|
| CodeTable.DigitValue | libpipecolors.cc:39-40 | a digit character's value is below 10 |
| CodeTable.CodeOf | libpipecolors.cc:39-40 | the two digits of a marker read as a number below 100 whose tens and units are those digits |
| CodeTable.Ansi | libpipecolors.cc:36-79 | the result is "nocode" exactly when the code is unassigned; otherwise it is an escape sequence: ESC `[` … `m`, 4 to 7 characters, no bar |
| CodeTable.LookupShape | libpipecolors.cc:47-78 | the switch answers "nocode" exactly for the codes outside 0-23, 30, 31 and 39; every other answer has the SGR shape |
| CodeTable.NormalForegroundCodes | libpipecolors.cc:48-55 | codes 0-7 are "ESC[0;3xm", with x the ANSI number of PC colour k (bits for blue and red swapped) |
| CodeTable.BrightForegroundCodes | libpipecolors.cc:56-63 | codes 8-15 are "ESC[0;9xm" for the same colours |
| CodeTable.BackgroundCodes | libpipecolors.cc:65-72 | codes 16-23 are "ESC[1;4xm" for the same colours |
| CodeTable.TableContents | libpipecolors.cc:47-78 | the whole table over 0-99: the three colour ranges, bold on (30), bold off (31), default foreground (39), "nocode" for every other code |
| Translator.InsertedSequenceHoldsNoMarker | libpipecolors.cc:48-76 | an escape sequence of the table's shape, put anywhere into text, neither contains a marker nor completes one that starts up to two places before it |
| Translator.MarkerCode | libpipecolors.cc:39-40 | a marker's code is below 100 |
| Translator.Decide | libpipecolors.cc:101-109 | a marker is kept exactly when its code is unassigned and the flag is off; it is replaced exactly when its code is assigned and colours are on, by the table's sequence; otherwise it is erased |
| Translator.StepAt | libpipecolors.cc:98-113 | each step of the scan consumes at least one character and stays within the input |
| Translator.MarkerStep | libpipecolors.cc:101-109 | at a marker the scan moves three places; the plain copy keeps the marker only when it is skipped, and the display string gets the marker, the code's sequence (colours on, code assigned) or nothing |
| Translator.TextStep | libpipecolors.cc:98-113 | any other character is copied to both strings and the scan moves one place |
| Translator.MarkerPositions | libpipecolors.cc:89-113 | the matches, in order: each is a marker at or after the start, each at least three places after the one before |
| Translator.RemovedCount | libpipecolors.cc:101-103 | the number of markers the plain copy loses is at most the number matched |
| Translator.MarkersDoNotOverlap | libpipecolors.cc:89 | two markers never overlap |
| Translator.FoundFrom | libpipecolors.cc:98-113 | a scan from any position finds every marker at or after it |
| Translator.MatchedExactly | libpipecolors.cc:98-113 | a position is matched exactly when a marker starts there: every marker is considered once, nothing else is |
| Translator.CopiesText | libpipecolors.cc:98-113 | text without markers is copied unchanged and in order to both strings |
| Translator.NoMarkersUnchanged | libpipecolors.cc:98-116 | without markers both strings equal the input, so the plain length is the input length |
| Translator.InvalidMarkersKept | libpipecolors.cc:101 | under the default flag, text whose markers all have unassigned codes comes back unchanged in both strings |
| Translator.PlainLength | libpipecolors.cc:103-116 | the plain length is the input length less three for each marker the plain copy loses |
| Translator.PlainIgnoresColors | libpipecolors.cc:101-103 | the plain copy is the same with colours on and off |
| Translator.ColorsOffDisplayIsPlain | libpipecolors.cc:103-109 | with colours off the display string equals the plain copy |
| Translator.DisplayLength | libpipecolors.cc:103-109 | the plain copy is never longer than the display string, which is at most the input length plus 4 per match |
| Translator.Advance | libpipecolors.cc:98-113 | the scan from a position copies the text up to the next marker, edits that marker and goes on after it |
| Translator.FindMarker | libpipecolors.cc:89-98 | the search from a position reports the leftmost marker at or after it, or that there is none |
| Translator.EditFor | libpipecolors.cc:101-109 | the source's branches (skip, erase from the plain copy, replace or erase in the display string) produce exactly the step the scan takes at the marker |
| Translator.CopyAndEdit | libpipecolors.cc:98-113 | one round of the loop keeps the invariant that the strings built so far, followed by the scan from the resume position, make the full translation |
| Translator.CopyRest | libpipecolors.cc:98-116 | once no marker is left, appending the rest of the input completes the translation |
| Translator.ReplaceColors | libpipecolors.cc:85-118 | the loop returns the display string of the translation and the length of its plain copy |
| Placement.FirstOccurrence | libpipecolors.cc:103-108 | `find` returns the first position at or after the start where the text occurs, or none when it occurs nowhere after it |
| Placement.ReplaceFirst | libpipecolors.cc:103-108 | replacing at the first occurrence fails exactly when the text does not occur; otherwise the text before that occurrence is unchanged, the replacement sits at it, and the text after the replaced part follows unchanged |
| Placement.EditsAsWritten | libpipecolors.cc:98-113 | with edits placed by first occurrence, the plain copy still loses three characters per removed marker |
| Placement.PlainLengthAsWritten | libpipecolors.cc:103-116 | when the code as written gets through, its plain length equals the one of the match-position model |
| Placement.JoinedMatches | libpipecolors.cc:89-98 | "\|\|9912abc\|12" has its matches at 1 and 9 |
| Placement.JoinedAsWritten | libpipecolors.cc:101-109 | with edits by first occurrence, "\|\|9912abc\|12" with the flag and colours on gives the sequence of code 12 followed by "abc\|12", plain "abc\|12" |
| Placement.JoinedAtMatch | libpipecolors.cc:101-109 | edited at the match position the same input gives "\|12abc" followed by the sequence, plain "\|12abc" |
| Placement.FirstOccurrenceMisplacesEdit | libpipecolors.cc:103-108 | the two display strings differ and the two plain copies differ, while the plain lengths agree |
| Samples.UnassignedMarkerKept | libpipecolors.cc:101 | "\|99" under the default flag stays "\|99" in both strings; its plain length is 3 |
| Samples.AssignedMarkerAlone | libpipecolors.cc:103-109 | "\|04" gives the red sequence with colours on and nothing with them off; the plain copy is empty |
| Samples.MixedLine | libpipecolors.cc:98-113 | "a\|04b\|39c" with colours on gives "a", red, "b", default foreground, "c"; the plain copy is "abc" |

## Left out

- `has_colors` (libpipecolors.cc:81-83) asks the operating system whether
  standard output is a terminal. It is the parameter `hasColors`. The source
  asks again for every marker; the model assumes the answer does not change
  during one call.
- `pcprintf` and `pcsprintf` (libpipecolors.cc:120-168) do variadic
  formatting, printing, `exit`, and a copy into the caller's buffer. These
  are I/O and foreign calls and are not modelled.
- Inside `ansi`, the `asprintf`/`atoi` conversion and the `"failure"` answer
  on allocation failure are not modelled. The code is read as ten times the
  first digit plus the second, which is what `atoi` gives for two digit
  characters. `ansi` is only modelled for arguments whose characters 1 and 2
  are digits, as every call from `replace_colors` passes.
- The Boost regular expression `\|\d\d` is modelled as a character test with
  ASCII digits `'0'..'9'`.
- Comparing the result of `ansi` with `"nocode"` (libpipecolors.cc:101, 105)
  compares pointers in C++, against literals other than the one `ansi`
  returns (line 77). C++ leaves unspecified whether identical string
  literals share storage. The model assumes the compiler pools them and
  compares the strings. Without pooling, line 101 would never skip, and with
  colours on an unassigned marker would be replaced by the text "nocode".
- The source keeps searching with iterators into the string it is editing,
  which is undefined behaviour in C++. The model searches the unedited input
  and resumes right after each match, as the code intends. Placement's model
  of the source's edits takes its matches from the same scan of the
  unedited input.
- Translator.ReplaceColors: the source edits two copies of the input in
  place. The model builds the display string and the plain copy front to
  back, and every edit lands at the match position. Placement models the
  source's first-occurrence placement; the Findings section gives the input
  where the two differ.
- Translator.ReplaceColors: `std::string` holds bytes and `len.length()`
  (libpipecolors.cc:116) counts bytes. The model's strings are sequences of
  characters, read as one character per byte. Text in a multi-byte encoding
  such as UTF-8 therefore has the byte length in the source and the
  character count in the model.
- Translator.ReplaceColors: the plain length is returned as an `int`
  (libpipecolors.cc:85, 116), which narrows the `size_t` length. The model
  returns an unbounded natural number. Lengths above INT_MAX are not modelled.
- Translator.CopyAndEdit: its contract states the new strings through the
  loop invariant (they and the rest of the scan make the full translation),
  not by a direct formula.
- `delete` on memory from `malloc` (libpipecolors.cc:41) is a memory-safety
  issue with no counterpart in the model.

## Findings

| source | as written | input that shows it | evidently intended | confidence | as-written member | corrected member |
|---|---|---|---|---|---|---|
| libpipecolors.cc:103-108 | each edit is made at the first occurrence of the marker text in the edited string | "\|\|9912abc\|12" with PC_REMOVE_INVALID and colours on. Erasing "\|99" joins the first bar and "12" into a new "\|12". The search resumes at offset 4 of the edited "\|12abc\|12" (line 112) and finds the real marker, but both edits for it land at position 0: the display is the sequence followed by "abc\|12", and the plain copy is "abc\|12" | edit each marker where it was matched: display "\|12abc" followed by the sequence, plain "\|12abc" | medium, not executed | Placement.FirstOccurrenceMisplacesEdit | Translator.ReplaceColors |
