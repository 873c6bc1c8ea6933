/**
 The marker translator of libpipecolors (`replace_colors`): scans a string
 for markers `|dd` left to right, replaces each one by its escape sequence,
 erases it or leaves it alone, and reports the length of the "plain" copy of
 the input from which the same markers were erased.

 Two switches decide what happens to a marker: `hasColors`, the answer of the
 terminal check (fixed for one call), and `removeInvalid`, the compile-time
 flag PC_REMOVE_INVALID (false unless the library is built otherwise).
 */
module Translator {
  import opened CodeTable

  datatype Option<T> = None | Some(value: T)

  /** The value PC_REMOVE_INVALID has unless the build defines it. */
  const DefaultRemoveInvalid: bool := false

  /** A match of the pattern `\|\d\d` starts at position `i` of `s`. */
  predicate IsMarkerAt(s: string, i: int) {
    0 <= i && i + 3 <= |s| && s[i] == '|' && IsDigit(s[i + 1]) && IsDigit(s[i + 2])
  }

  predicate NoMarkerIn(s: string, lo: int, hi: int) {
    forall j :: lo <= j < hi ==> !IsMarkerAt(s, j)
  }

  /** The number the two digits of a marker spell. */
  function MarkerCode(s: string, i: int): (n: nat)
    requires IsMarkerAt(s, i)
    ensures n < 100
  {
    CodeOf(s[i + 1], s[i + 2])
  }

  /** What happens to one marker in the display string. */
  datatype Edit = Keep | Replace(sequence: string) | Erase

  /**
   The per-marker decision: an unassigned code under the default flag is
   kept as it is; an assigned code is replaced by its escape sequence when
   colours are on; everything else is erased.
   */
  function Decide(marker: string, hasColors: bool, removeInvalid: bool): (e: Edit)
    requires |marker| == 3 && IsDigit(marker[1]) && IsDigit(marker[2])
    ensures e.Keep? <==> !IsAssigned(CodeOf(marker[1], marker[2])) && !removeInvalid
    ensures e.Replace? <==> IsAssigned(CodeOf(marker[1], marker[2])) && hasColors
    ensures e.Replace? ==> IsSgrSequence(e.sequence) && e.sequence == Lookup(CodeOf(marker[1], marker[2]))
  {
    var code := Ansi(marker);
    if code == NoCode && !removeInvalid then Keep
    else if hasColors && code != NoCode then Replace(code)
    else Erase
  }

  /** The two strings `replace_colors` builds: the display string and the plain copy. */
  datatype Translation = Translation(display: string, plain: string)

  /** What one step of the scan at `i` adds to each string, and where it resumes. */
  datatype Step = Step(display: string, plain: string, next: nat)

  /** The step that applies edit `e` to `marker`. */
  function EditStep(e: Edit, marker: string, next: nat): Step {
    match e
    case Keep => Step(marker, marker, next)
    case Replace(q) => Step(q, [], next)
    case Erase => Step([], [], next)
  }

  /**
   One step of the intended scan: a marker at `i` is edited as Decide says
   and the scan resumes right after it; any other character is copied to
   both strings and the scan moves on by one.
   */
  function StepAt(s: string, i: nat, hasColors: bool, removeInvalid: bool): (st: Step)
    requires i < |s|
    ensures i < st.next <= |s|
  {
    if IsMarkerAt(s, i) then
      EditStep(Decide(s[i..i + 3], hasColors, removeInvalid), s[i..i + 3], i + 3)
    else
      Step([s[i]], [s[i]], i + 1)
  }

  /** The two strings the scan from position `i` to the end produces. */
  function Scan(s: string, i: nat, hasColors: bool, removeInvalid: bool): Translation
    requires i <= |s|
    decreases |s| - i
  {
    if i == |s| then Translation([], [])
    else if IsMarkerAt(s, i) then
      var st := StepAt(s, i, hasColors, removeInvalid);
      var rest := Scan(s, i + 3, hasColors, removeInvalid);
      Translation(st.display + rest.display, st.plain + rest.plain)
    else
      var rest := Scan(s, i + 1, hasColors, removeInvalid);
      Translation([s[i]] + rest.display, [s[i]] + rest.plain)
  }

  function Translate(s: string, hasColors: bool, removeInvalid: bool): Translation {
    Scan(s, 0, hasColors, removeInvalid)
  }

  /**
   The positions at which the scan from `i` finds a marker, in order; each
   lies at or after `i` and at least three places after the one before.
   */
  function MarkerPositions(s: string, i: nat): (ps: seq<nat>)
    requires i <= |s|
    ensures forall k :: 0 <= k < |ps| ==> i <= ps[k] && IsMarkerAt(s, ps[k])
    ensures forall k :: 0 < k < |ps| ==> ps[k - 1] + 3 <= ps[k]
    decreases |s| - i
  {
    if i == |s| then []
    else if IsMarkerAt(s, i) then [i] + MarkerPositions(s, i + 3)
    else MarkerPositions(s, i + 1)
  }

  /** How many of the markers at `ps` the plain copy loses. */
  function RemovedCount(s: string, ps: seq<nat>, removeInvalid: bool): (n: nat)
    requires forall k :: 0 <= k < |ps| ==> IsMarkerAt(s, ps[k])
    ensures n <= |ps|
  {
    if ps == [] then 0
    else
      (if removeInvalid || IsAssigned(MarkerCode(s, ps[0])) then 1 else 0)
      + RemovedCount(s, ps[1..], removeInvalid)
  }

  // ---------------------------------------------------------------------
  // One step

  /**
   What the scan does with a marker. Under the default flag a marker with an
   unassigned code stays in both strings; otherwise the plain copy loses it,
   and the display string gets the code's escape sequence when colours are
   on and nothing when they are off.
   */
  lemma MarkerStep(s: string, i: nat, hasColors: bool, removeInvalid: bool)
    requires IsMarkerAt(s, i)
    ensures StepAt(s, i, hasColors, removeInvalid).next == i + 3
    ensures StepAt(s, i, hasColors, removeInvalid).plain
            == if !removeInvalid && !IsAssigned(MarkerCode(s, i)) then s[i..i + 3] else []
    ensures StepAt(s, i, hasColors, removeInvalid).display
            == if !removeInvalid && !IsAssigned(MarkerCode(s, i)) then s[i..i + 3]
               else if hasColors && IsAssigned(MarkerCode(s, i)) then Lookup(MarkerCode(s, i))
               else []
  {
    var marker := s[i..i + 3];
    assert marker[1] == s[i + 1] && marker[2] == s[i + 2];
  }

  /** Any other character is copied to both strings. */
  lemma TextStep(s: string, i: nat, hasColors: bool, removeInvalid: bool)
    requires i < |s| && !IsMarkerAt(s, i)
    ensures StepAt(s, i, hasColors, removeInvalid) == Step([s[i]], [s[i]], i + 1)
  {
  }

  // ---------------------------------------------------------------------
  // Matching

  /** Two markers never overlap: a marker's digits cannot start another. */
  lemma MarkersDoNotOverlap(s: string, i: int, j: int)
    requires IsMarkerAt(s, i) && IsMarkerAt(s, j) && i < j
    ensures i + 3 <= j
  {
  }

  lemma {:induction false} FoundFrom(s: string, i: nat, p: int)
    requires i <= p && i <= |s| && IsMarkerAt(s, p)
    ensures p in MarkerPositions(s, i)
    decreases |s| - i
  {
    if IsMarkerAt(s, i) {
      if p != i {
        MarkersDoNotOverlap(s, i, p);
        FoundFrom(s, i + 3, p);
      }
    } else {
      FoundFrom(s, i + 1, p);
    }
  }

  /**
   The scan considers every marker of the input, and nothing else: a
   position is matched exactly when a marker starts there.
   */
  lemma MatchedExactly(s: string, p: int)
    ensures p in MarkerPositions(s, 0) <==> IsMarkerAt(s, p)
  {
    if IsMarkerAt(s, p) {
      FoundFrom(s, 0, p);
    }
  }

  /**
   An escape sequence put into text never takes part in a marker: no marker
   starts inside it, and none starts in the two places before it and reaches
   into it, since its first character is the escape character, not a digit.
   */
  lemma InsertedSequenceHoldsNoMarker(a: string, r: string, b: string)
    requires IsSgrSequence(r)
    ensures forall j :: |a| - 2 <= j < |a| + |r| ==> !IsMarkerAt(a + r + b, j)
  {
    var t := a + r + b;
    forall j | |a| - 2 <= j < |a| + |r|
      ensures !IsMarkerAt(t, j)
    {
      if |a| <= j {
        assert t[j] == r[j - |a|];
      } else if 0 <= j {
        assert t[|a|] == r[0];
      }
    }
  }

  // ---------------------------------------------------------------------
  // Text between markers

  lemma Associative(a: string, b: string, c: string)
    ensures a + (b + c) == (a + b) + c
  {
  }

  lemma Regroup(a: string, b: string, c: string, d: string)
    ensures a + (b + (c + d)) == ((a + b) + c) + d
  {
  }

  /**
   The scan from `start` copies the text up to the next marker at `m`, takes
   one step at `m` and goes on from `m + 3`.
   */
  lemma Advance(s: string, start: nat, m: nat, hasColors: bool, removeInvalid: bool, doneDisplay: string, donePlain: string)
    requires start <= m && IsMarkerAt(s, m) && NoMarkerIn(s, start, m)
    ensures var st := StepAt(s, m, hasColors, removeInvalid);
            var rest := Scan(s, m + 3, hasColors, removeInvalid);
            doneDisplay + Scan(s, start, hasColors, removeInvalid).display
              == (doneDisplay + s[start..m] + st.display) + rest.display
            && donePlain + Scan(s, start, hasColors, removeInvalid).plain
              == (donePlain + s[start..m] + st.plain) + rest.plain
  {
    var st := StepAt(s, m, hasColors, removeInvalid);
    var rest := Scan(s, m + 3, hasColors, removeInvalid);
    MarkerStep(s, m, hasColors, removeInvalid);
    assert Scan(s, m, hasColors, removeInvalid) == Translation(st.display + rest.display, st.plain + rest.plain);
    CopiesText(s, start, m, hasColors, removeInvalid);
    Regroup(doneDisplay, s[start..m], st.display, rest.display);
    Regroup(donePlain, s[start..m], st.plain, rest.plain);
  }

  /** Text without markers is copied unchanged to both strings. */
  lemma {:induction false} CopiesText(s: string, i: nat, j: nat, hasColors: bool, removeInvalid: bool)
    requires i <= j <= |s| && NoMarkerIn(s, i, j)
    ensures Scan(s, i, hasColors, removeInvalid).display == s[i..j] + Scan(s, j, hasColors, removeInvalid).display
    ensures Scan(s, i, hasColors, removeInvalid).plain == s[i..j] + Scan(s, j, hasColors, removeInvalid).plain
    decreases j - i
  {
    if i < j {
      assert !IsMarkerAt(s, i);
      var rest := Scan(s, i + 1, hasColors, removeInvalid);
      var tail := Scan(s, j, hasColors, removeInvalid);
      assert Scan(s, i, hasColors, removeInvalid) == Translation([s[i]] + rest.display, [s[i]] + rest.plain);
      CopiesText(s, i + 1, j, hasColors, removeInvalid);
      assert s[i..j] == [s[i]] + s[i + 1..j];
      Associative([s[i]], s[i + 1..j], tail.display);
      Associative([s[i]], s[i + 1..j], tail.plain);
    }
  }

  /** A string without markers comes back unchanged, with its own length as plain length. */
  lemma NoMarkersUnchanged(s: string, hasColors: bool, removeInvalid: bool)
    requires NoMarkerIn(s, 0, |s|)
    ensures Translate(s, hasColors, removeInvalid) == Translation(s, s)
  {
    CopiesText(s, 0, |s|, hasColors, removeInvalid);
    assert s[0..|s|] == s;
  }

  /**
   Under the default flag a string whose markers all have unassigned codes
   comes back unchanged too: such markers stay in both strings.
   */
  lemma {:induction false} InvalidMarkersKept(s: string, i: nat, hasColors: bool)
    requires i <= |s|
    requires forall p :: i <= p && IsMarkerAt(s, p) ==> !IsAssigned(MarkerCode(s, p))
    ensures Scan(s, i, hasColors, false) == Translation(s[i..], s[i..])
    decreases |s| - i
  {
    if i < |s| {
      if IsMarkerAt(s, i) {
        InvalidMarkersKept(s, i + 3, hasColors);
        assert s[i..] == s[i..i + 3] + s[i + 3..];
      } else {
        InvalidMarkersKept(s, i + 1, hasColors);
        assert s[i..] == [s[i]] + s[i + 1..];
      }
    }
  }

  // ---------------------------------------------------------------------
  // The plain copy and the lengths

  /**
   The plain length is the input length less three for every marker the
   plain copy loses: every marker with an assigned code, and with
   PC_REMOVE_INVALID every marker at all.
   */
  lemma {:induction false} PlainLength(s: string, i: nat, hasColors: bool, removeInvalid: bool)
    requires i <= |s|
    ensures |Scan(s, i, hasColors, removeInvalid).plain|
            == |s| - i - 3 * RemovedCount(s, MarkerPositions(s, i), removeInvalid)
    decreases |s| - i
  {
    if i < |s| {
      if IsMarkerAt(s, i) {
        MarkerStep(s, i, hasColors, removeInvalid);
        PlainLength(s, i + 3, hasColors, removeInvalid);
        var ps := MarkerPositions(s, i);
        assert ps[1..] == MarkerPositions(s, i + 3);
      } else {
        TextStep(s, i, hasColors, removeInvalid);
        PlainLength(s, i + 1, hasColors, removeInvalid);
      }
    }
  }

  /** The plain copy does not depend on the colour setting. */
  lemma {:induction false} PlainIgnoresColors(s: string, i: nat, removeInvalid: bool)
    requires i <= |s|
    ensures Scan(s, i, true, removeInvalid).plain == Scan(s, i, false, removeInvalid).plain
    decreases |s| - i
  {
    if i < |s| {
      if IsMarkerAt(s, i) {
        PlainIgnoresColors(s, i + 3, removeInvalid);
      } else {
        PlainIgnoresColors(s, i + 1, removeInvalid);
      }
    }
  }

  /** With colours off the display string is the plain copy. */
  lemma {:induction false} ColorsOffDisplayIsPlain(s: string, i: nat, removeInvalid: bool)
    requires i <= |s|
    ensures Scan(s, i, false, removeInvalid).display == Scan(s, i, false, removeInvalid).plain
    decreases |s| - i
  {
    if i < |s| {
      if IsMarkerAt(s, i) {
        ColorsOffDisplayIsPlain(s, i + 3, removeInvalid);
      } else {
        ColorsOffDisplayIsPlain(s, i + 1, removeInvalid);
      }
    }
  }

  /**
   The display string is never shorter than the plain copy, and each marker
   adds at most four characters to it (the longest escape sequence has
   seven characters, the marker three).
   */
  lemma {:induction false} DisplayLength(s: string, i: nat, hasColors: bool, removeInvalid: bool)
    requires i <= |s|
    ensures |Scan(s, i, hasColors, removeInvalid).plain| <= |Scan(s, i, hasColors, removeInvalid).display|
    ensures |Scan(s, i, hasColors, removeInvalid).display| <= |s| - i + 4 * |MarkerPositions(s, i)|
    decreases |s| - i
  {
    if i < |s| {
      if IsMarkerAt(s, i) {
        DisplayLength(s, i + 3, hasColors, removeInvalid);
      } else {
        DisplayLength(s, i + 1, hasColors, removeInvalid);
      }
    }
  }

  // ---------------------------------------------------------------------
  // The imperative scan

  /**
   `found` is the leftmost marker at or after `start`, or None when there is
   none: what one `regex_search` from `start` reports.
   */
  predicate IsLeftmostMarker(s: string, start: nat, found: Option<nat>) {
    match found
    case Some(m) => start <= m && IsMarkerAt(s, m) && NoMarkerIn(s, start, m)
    case None => NoMarkerIn(s, start, |s|)
  }

  /** The strings built so far followed by what the scan still adds. */
  function Resume(display: string, len: string, rest: Translation): Translation {
    Translation(display + rest.display, len + rest.plain)
  }

  /**
   `regex_search` with the pattern `\|\d\d` from `start`: the leftmost
   marker at or after `start`, if there is one.
   */
  method FindMarker(s: string, start: nat) returns (found: Option<nat>)
    requires start <= |s|
    ensures IsLeftmostMarker(s, start, found)
  {
    var i := start;
    while i + 3 <= |s|
      invariant start <= i
      invariant NoMarkerIn(s, start, i)
    {
      if s[i] == '|' && IsDigit(s[i + 1]) && IsDigit(s[i + 2]) {
        return Some(i);
      }
      i := i + 1;
    }
    return None;
  }

  /**
   The body of the loop of `replace_colors` for the marker at `m`: what
   takes its place in the display string and in the plain copy. An
   unassigned code under the default flag is skipped, so the marker stays
   in both; otherwise it leaves the plain copy, and the display string gets
   its escape sequence when colours are on and the code is assigned.
   */
  method EditFor(s: string, m: nat, hasColors: bool, removeInvalid: bool) returns (shown: string, kept: string)
    requires IsMarkerAt(s, m)
    ensures shown == StepAt(s, m, hasColors, removeInvalid).display
    ensures kept == StepAt(s, m, hasColors, removeInvalid).plain
  {
    var marker := s[m..m + 3];
    MarkerStep(s, m, hasColors, removeInvalid);
    assert marker[1] == s[m + 1] && marker[2] == s[m + 2];
    var code := Ansi(marker);
    if code == NoCode && !removeInvalid {
      shown, kept := marker, marker;
    } else {
      kept := [];
      if hasColors && code != NoCode {
        shown := code;
      } else {
        shown := [];
      }
    }
  }

  /**
   One round of the loop of `replace_colors`, given what the search from
   `start` found: the text up to the marker is copied to both strings, the
   marker is edited, and the search is to resume right after the marker.
   */
  method CopyAndEdit(s: string, start: nat, found: Option<nat>, hasColors: bool, removeInvalid: bool,
                     display: string, len: string, ghost target: Translation)
    returns (display': string, len': string, next: nat)
    requires found.Some? && IsLeftmostMarker(s, start, found)
    requires target == Resume(display, len, Scan(s, start, hasColors, removeInvalid))
    ensures next == found.value + 3 && next <= |s|
    ensures target == Resume(display', len', Scan(s, next, hasColors, removeInvalid))
  {
    var m := found.value;
    Advance(s, start, m, hasColors, removeInvalid, display, len);
    var shown, kept := EditFor(s, m, hasColors, removeInvalid);
    display' := display + s[start..m] + shown;
    len' := len + s[start..m] + kept;
    next := m + 3;
  }

  /** Once no marker is left, the rest of the input is copied to both strings. */
  method CopyRest(s: string, start: nat, found: Option<nat>, hasColors: bool, removeInvalid: bool,
                  display: string, len: string, ghost target: Translation)
    returns (display': string, len': string)
    requires start <= |s| && found.None? && IsLeftmostMarker(s, start, found)
    requires target == Resume(display, len, Scan(s, start, hasColors, removeInvalid))
    ensures display' == display + s[start..] && len' == len + s[start..]
    ensures display' == target.display && len' == target.plain
  {
    CopiesText(s, start, |s|, hasColors, removeInvalid);
    assert s[start..|s|] == s[start..];
    assert Scan(s, |s|, hasColors, removeInvalid) == Translation([], []);
    assert s[start..] + [] == s[start..];
    display' := display + s[start..];
    len' := len + s[start..];
  }

  /**
   `replace_colors`. The search runs over the input and resumes right after
   each match; the display string and the plain copy are built front to
   back: the text before the match, then the marker itself, its escape
   sequence or nothing.

   The source instead edits two copies of the input in place and locates
   each edit by searching the edited copy for the first occurrence of the
   marker text. That position is the match position except when an earlier
   erasure has joined a `|` and two digits into a new copy of that text
   before the match (for example "||9912abc|12" with PC_REMOVE_INVALID and
   colours on); the model makes every edit at the match position.
   */
  method ReplaceColors(s: string, hasColors: bool, removeInvalid: bool) returns (display: string, plainLength: nat)
    ensures display == Translate(s, hasColors, removeInvalid).display
    ensures plainLength == |Translate(s, hasColors, removeInvalid).plain|
  {
    ghost var target := Translate(s, hasColors, removeInvalid);
    display := [];
    var len := [];
    var start := 0;
    var found := FindMarker(s, start);
    while found.Some?
      invariant start <= |s|
      invariant IsLeftmostMarker(s, start, found)
      invariant target == Resume(display, len, Scan(s, start, hasColors, removeInvalid))
      decreases |s| - start
    {
      display, len, start := CopyAndEdit(s, start, found, hasColors, removeInvalid, display, len, target);
      found := FindMarker(s, start);
    }
    display, len := CopyRest(s, start, found, hasColors, removeInvalid, display, len, target);
    plainLength := |len|;
  }


}
