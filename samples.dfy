/**
 Concrete translations of small inputs, worked out from the model of
 `replace_colors`.
 */
module Samples {
  import opened CodeTable
  import opened Translator

  const Red: string := "\U{1B}[0;31m"
  const DefaultForeground: string := "\U{1B}[0;39m"

  lemma RedAndDefault()
    ensures Lookup(4) == Red && Lookup(39) == DefaultForeground
  {
    TableContents(4);
    TableContents(39);
    assert Foreground(false, 4) == Red;
  }

  /**
   An unassigned code under the default flag: the marker stays in the display
   string and in the plain copy, so the plain length is 3, with colours on
   or off.
   */
  lemma UnassignedMarkerKept(hasColors: bool)
    ensures Translate("|99", hasColors, DefaultRemoveInvalid) == Translation("|99", "|99")
    ensures |Translate("|99", hasColors, DefaultRemoveInvalid).plain| == 3
  {
    var s := "|99";
    forall p | 0 <= p && IsMarkerAt(s, p)
      ensures !IsAssigned(MarkerCode(s, p))
    {
      assert p == 0;
      assert MarkerCode(s, p) == 99;
    }
    InvalidMarkersKept(s, 0, hasColors);
    assert s[0..] == s;
  }

  /** A lone assigned marker: its escape sequence with colours on, nothing with them off. */
  lemma AssignedMarkerAlone(hasColors: bool)
    ensures Translate("|04", hasColors, DefaultRemoveInvalid)
            == Translation(if hasColors then Red else [], [])
  {
    var s := "|04";
    RedAndDefault();
    MarkerStep(s, 0, hasColors, DefaultRemoveInvalid);
    assert MarkerCode(s, 0) == 4;
    assert Scan(s, 3, hasColors, DefaultRemoveInvalid) == Translation([], []);
    assert StepAt(s, 0, hasColors, DefaultRemoveInvalid).display + [] == if hasColors then Red else [];
  }

  const Mixed: string := "a|04b|39c"

  lemma MixedFromB()
    ensures Scan(Mixed, 4, true, DefaultRemoveInvalid) == Translation("b" + DefaultForeground + "c", "bc")
  {
    var s := Mixed;
    RedAndDefault();
    assert !IsMarkerAt(s, 4) && !IsMarkerAt(s, 8);
    TextStep(s, 8, true, false);
    assert Scan(s, 9, true, false) == Translation([], []);
    assert Scan(s, 8, true, false) == Translation("c", "c");
    MarkerStep(s, 5, true, false);
    assert MarkerCode(s, 5) == 39;
    assert Scan(s, 5, true, false) == Translation(DefaultForeground + "c", "c");
    TextStep(s, 4, true, false);
    assert Scan(s, 4, true, false) == Translation("b" + (DefaultForeground + "c"), "b" + "c");
    Associative("b", DefaultForeground, "c");
  }

  /**
   Text around markers is copied in order and each marker is replaced where
   it stands; the plain copy keeps the three letters.
   */
  lemma MixedLine()
    ensures Translate(Mixed, true, DefaultRemoveInvalid)
            == Translation("a" + Red + "b" + DefaultForeground + "c", "abc")
  {
    var s := Mixed;
    RedAndDefault();
    MixedFromB();
    var rest := Scan(s, 4, true, false);
    MarkerStep(s, 1, true, false);
    assert MarkerCode(s, 1) == 4;
    assert Scan(s, 1, true, false) == Translation(Red + rest.display, rest.plain);
    assert !IsMarkerAt(s, 0);
    TextStep(s, 0, true, false);
    assert Scan(s, 0, true, false) == Translation("a" + (Red + rest.display), "a" + rest.plain);
    assert "a" + (Red + ("b" + DefaultForeground + "c")) == "a" + Red + "b" + DefaultForeground + "c";
    assert "a" + "bc" == "abc";
  }
}
