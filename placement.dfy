/**
 Where `replace_colors` makes its edits as the code is written: each edit is
 placed at the FIRST occurrence of the matched marker text in the string
 being edited (`std::string::find`), not at the position where the match
 was found. This module models that placement and exhibits an input on
 which the two differ.

 The matches themselves are taken from the scan over the unedited input.
 The source resumes each search inside the string it has just edited (at
 the old end of the match); on the input used below that resume point
 still lies before the second marker, so both searches find the same two
 markers.
 */
module Placement {
  import opened CodeTable
  import opened Translator

  /** `p` occurs in `t` starting at position `j`. */
  predicate OccursAt(t: string, p: string, j: int) {
    0 <= j && j + |p| <= |t| && t[j..j + |p|] == p
  }

  /**
   `t.find(p, k)`: the first position at or after `k` where `p` occurs, or
   None (the `npos` of the source) when it occurs nowhere from `k` on.
   */
  function FirstOccurrence(t: string, p: string, k: nat): (r: Option<nat>)
    ensures r.Some? ==> k <= r.value && OccursAt(t, p, r.value)
    ensures r.Some? ==> forall j :: k <= j < r.value ==> !OccursAt(t, p, j)
    ensures r.None? ==> forall j :: k <= j ==> !OccursAt(t, p, j)
    decreases |t| - k
  {
    if k + |p| > |t| then None
    else if t[k..k + |p|] == p then Some(k)
    else FirstOccurrence(t, p, k + 1)
  }

  /**
   `t.replace(t.find(p), |p|, q)` (an erasure when `q` is empty). The
   source's `find` returning `npos` makes the call throw; that is None.
   */
  function ReplaceFirst(t: string, p: string, q: string): (r: Option<string>)
    ensures r.None? <==> forall j :: 0 <= j ==> !OccursAt(t, p, j)
    ensures r.Some? ==> |r.value| == |t| - |p| + |q|
    ensures r.Some? ==> var at := FirstOccurrence(t, p, 0).value;
              r.value[..at] == t[..at] && r.value[at..at + |q|] == q && r.value[at + |q|..] == t[at + |p|..]
  {
    match FirstOccurrence(t, p, 0)
    case None => None
    case Some(at) => Some(t[..at] + q + t[at + |p|..])
  }

  /**
   The edits of `replace_colors` as written, for the matches at `ps` taken
   in order on the strings `t`: a marker whose code is kept is skipped;
   otherwise the plain copy loses the first occurrence of its text and the
   display string has the first occurrence replaced or erased.
   */
  function EditsAsWritten(s: string, ps: seq<nat>, t: Translation, hasColors: bool, removeInvalid: bool)
    : (r: Option<Translation>)
    requires forall k :: 0 <= k < |ps| ==> IsMarkerAt(s, ps[k])
    ensures ps == [] ==> r == Some(t)
    ensures r.Some? ==> |r.value.plain| == |t.plain| - 3 * RemovedCount(s, ps, removeInvalid)
    decreases |ps|
  {
    if ps == [] then Some(t)
    else
      assert IsMarkerAt(s, ps[0]);
      var marker := s[ps[0]..ps[0] + 3];
      assert marker[1] == s[ps[0] + 1] && marker[2] == s[ps[0] + 2];
      var e := Decide(marker, hasColors, removeInvalid);
      if e.Keep? then EditsAsWritten(s, ps[1..], t, hasColors, removeInvalid)
      else
        var display := ReplaceFirst(t.display, marker, if e.Replace? then e.sequence else []);
        var plain := ReplaceFirst(t.plain, marker, []);
        if display.None? || plain.None? then None
        else EditsAsWritten(s, ps[1..], Translation(display.value, plain.value), hasColors, removeInvalid)
  }

  /**
   `replace_colors` as written: the matches are those of the scan over the
   input, and both copies start out as the input.
   */
  function TranslateAsWritten(s: string, hasColors: bool, removeInvalid: bool): Option<Translation> {
    EditsAsWritten(s, MarkerPositions(s, 0), Translation(s, s), hasColors, removeInvalid)
  }

  /**
   Wherever the edits land, each one the plain copy gets removes three
   characters: when the code as written gets through without an exception,
   its plain length is the intended one.
   */
  lemma PlainLengthAsWritten(s: string, hasColors: bool, removeInvalid: bool)
    ensures var r := TranslateAsWritten(s, hasColors, removeInvalid);
            r.Some? ==> |r.value.plain| == |Translate(s, hasColors, removeInvalid).plain|
  {
    PlainLength(s, 0, hasColors, removeInvalid);
  }

  /** The example input of FirstOccurrenceMisplacesEdit. */
  const Joined: string := "||9912abc|12"

  /** The escape sequence of code 12 (light red). */
  const LightRed: string := "\U{1B}[0;91m"

  lemma JoinedMatches()
    ensures MarkerPositions(Joined, 0) == [1, 9]
    ensures Joined[1..4] == "|99" && Joined[9..12] == "|12"
  {
    var s := Joined;
    assert !IsMarkerAt(s, 0) && !IsMarkerAt(s, 4) && !IsMarkerAt(s, 5) && !IsMarkerAt(s, 6);
    assert !IsMarkerAt(s, 7) && !IsMarkerAt(s, 8) && !IsMarkerAt(s, 10) && !IsMarkerAt(s, 11);
    assert MarkerPositions(s, 10) == [];
    assert MarkerPositions(s, 9) == [9];
    assert MarkerPositions(s, 7) == [9];
    assert MarkerPositions(s, 4) == [9];
    assert MarkerPositions(s, 1) == [1, 9];
  }

  lemma CodesOfJoined()
    ensures Lookup(99) == NoCode
    ensures Lookup(12) == LightRed
  {
    TableContents(99);
    TableContents(12);
    assert Foreground(true, 4) == LightRed;
  }

  lemma EraseInvalidFromJoined()
    ensures ReplaceFirst(Joined, "|99", []) == Some("|12abc|12")
  {
    var t := Joined;
    assert !OccursAt(t, "|99", 0) by { assert t[0..3][1] == '|'; }
    assert t[1..4] == "|99";
    assert FirstOccurrence(t, "|99", 0) == Some(1);
    assert t[..1] + [] + t[4..] == "|12abc|12";
  }

  lemma ReplaceJoinedMarker(q: string)
    ensures ReplaceFirst("|12abc|12", "|12", q) == Some(q + "abc|12")
  {
    var t := "|12abc|12";
    assert t[0..3] == "|12";
    assert FirstOccurrence(t, "|12", 0) == Some(0);
    assert t[..0] + q + t[3..] == q + "abc|12";
  }

  lemma JoinedSecondEdit()
    ensures EditsAsWritten(Joined, [9], Translation("|12abc|12", "|12abc|12"), true, true)
            == Some(Translation(LightRed + "abc|12", "abc|12"))
  {
    var s := Joined;
    JoinedMatches();
    CodesOfJoined();
    var m := s[9..12];
    assert m[1] == '1' && m[2] == '2';
    assert Decide(m, true, true) == Replace(LightRed);
    assert m == "|12";
    ReplaceJoinedMarker(LightRed);
    ReplaceJoinedMarker([]);
    assert [] + "abc|12" == "abc|12";
    assert [9][1..] == [];
  }

  /**
   As written: erasing "|99" leaves "|12abc|12", and the second match's
   escape sequence replaces the first "|12" in both copies' edits.
   */
  lemma JoinedAsWritten()
    ensures TranslateAsWritten(Joined, true, true) == Some(Translation(LightRed + "abc|12", "abc|12"))
  {
    var s := Joined;
    JoinedMatches();
    CodesOfJoined();
    var m := s[1..4];
    assert m[1] == '9' && m[2] == '9';
    assert Decide(m, true, true) == Erase;
    EraseInvalidFromJoined();
    JoinedSecondEdit();
    assert [1, 9][1..] == [9];
  }

  /** One step of the scan, unfolded. */
  lemma ScanStep(s: string, i: nat, hasColors: bool, removeInvalid: bool)
    requires i < |s|
    ensures var st := StepAt(s, i, hasColors, removeInvalid);
            Scan(s, i, hasColors, removeInvalid)
              == Translation(st.display + Scan(s, st.next, hasColors, removeInvalid).display,
                             st.plain + Scan(s, st.next, hasColors, removeInvalid).plain)
  {
  }

  lemma JoinedLastMarker()
    ensures Scan(Joined, 9, true, true) == Translation(LightRed, [])
  {
    var s := Joined;
    CodesOfJoined();
    MarkerStep(s, 9, true, true);
    assert MarkerCode(s, 9) == 12;
    ScanStep(s, 9, true, true);
    assert Scan(s, 12, true, true) == Translation([], []);
  }

  lemma JoinedTail()
    ensures Scan(Joined, 4, true, true) == Translation("12abc" + LightRed, "12abc")
  {
    var s := Joined;
    JoinedLastMarker();
    assert !IsMarkerAt(s, 4) && !IsMarkerAt(s, 5) && !IsMarkerAt(s, 6) && !IsMarkerAt(s, 7) && !IsMarkerAt(s, 8);
    CopiesText(s, 4, 9, true, true);
    assert s[4..9] == "12abc";
    assert "12abc" + [] == "12abc";
  }

  lemma JoinedFirstStep()
    ensures StepAt(Joined, 1, true, true) == Step([], [], 4)
  {
    CodesOfJoined();
    MarkerStep(Joined, 1, true, true);
    assert MarkerCode(Joined, 1) == 99;
  }

  lemma JoinedAfterBar()
    ensures Scan(Joined, 1, true, true) == Translation("12abc" + LightRed, "12abc")
  {
    JoinedFirstStep();
    JoinedTail();
    ScanStep(Joined, 1, true, true);
  }

  lemma JoinedBar()
    ensures StepAt(Joined, 0, true, true) == Step("|", "|", 1)
  {
    assert !IsMarkerAt(Joined, 0);
    TextStep(Joined, 0, true, true);
  }

  /** At the match position the escape sequence follows the plain "|12abc". */
  lemma JoinedAtMatch()
    ensures Translate(Joined, true, true) == Translation("|12abc" + LightRed, "|12abc")
  {
    JoinedBar();
    JoinedAfterBar();
    ScanStep(Joined, 0, true, true);
    Associative("|", "12abc", LightRed);
    assert "|" + "12abc" == "|12abc";
  }

  /**
   With PC_REMOVE_INVALID and colours on, erasing the invalid marker "|99"
   from "||9912abc|12" joins the leading bar and the digits "12" into a new
   "|12" in front of the real one. The edits for the match at position 9
   then land at position 0: the display string starts with the escape
   sequence, and the plain copy loses the "|12" that is plain text in the
   input instead of the marker. Edited at the match position, the sequence
   comes last and the plain copy is "|12abc". The plain lengths agree.
   */
  lemma FirstOccurrenceMisplacesEdit()
    ensures TranslateAsWritten(Joined, true, true).Some?
    ensures TranslateAsWritten(Joined, true, true).value.display != Translate(Joined, true, true).display
    ensures TranslateAsWritten(Joined, true, true).value.plain != Translate(Joined, true, true).plain
    ensures |TranslateAsWritten(Joined, true, true).value.plain| == |Translate(Joined, true, true).plain|
  {
    JoinedAsWritten();
    JoinedAtMatch();
    assert (LightRed + "abc|12")[0] != ("|12abc" + LightRed)[0];
    assert "abc|12"[0] != "|12abc"[0];
  }
}
