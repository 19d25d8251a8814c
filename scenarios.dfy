/**
 * Worked examples of the normalizer, the formatter and the selection, each
 * derived from the general lemmas of the other modules. Each example names its
 * text through a parameter fixed by its precondition, and each lemma proves
 * one step, so that no single proof has to evaluate the whole pipeline.
 */
module Scenarios {
  import opened PlateText
  import opened PlateFormats
  import opened PlateFormatting
  import opened Recognizer

  /** A text without separators whose characters fit a layout is a plate of that format. */
  lemma SolidPlate(f: PlateFormat, s: seq<char>)
    requires NoSeparators(s) && Fits(Layout(f), s)
    ensures StripSeparators(s) == s && FullMatch(Regex(f), s) && IsValidPlate(s)
  {
    StripSeparatorsFixes(s);
    PatternFacts(f);
    MatchesIffShape(Regex(f), s, 0);
    assert f in AllFormats;
  }

  /** A text of plate characters without blanks is clean. */
  lemma NoBlanksIsClean(t: seq<char>)
    requires forall i | 0 <= i < |t| :: IsPlateChar(t[i]) && t[i] != ' '
    ensures IsClean(t)
  {
  }

  // ---------------------------------------------------------------------------
  // An official plate
  // ---------------------------------------------------------------------------

  /** `"go12345"` cleans to `"GO12345"`. */
  lemma OficialClean(text: seq<char>, c: seq<char>)
    requires text == "go12345" && c == "GO12345"
    ensures CleanPlateText(text) == c
  {
    assert Upper(text) == c by {
      assert forall i | 0 <= i < 7 :: Upper(text)[i] == c[i];
    }
    NoBlanksIsClean(c);
    UpperFixesPlateChars(c);
    CleanFixesClean(c);
  }

  /** `"GO12345"` is an official plate and formats as `"GO 12345"`. */
  lemma OficialFormat(c: seq<char>)
    requires c == "GO12345"
    ensures IsValidPlate(c)
    ensures FormatPlate(c) == "GO 12345"
  {
    assert Fits(Layout(Oficial), c);
    SolidPlate(Oficial, c);
    FormatOfFormat(Oficial, c);
    OficialCanonical(c);
  }

  lemma OficialCanonical(c: seq<char>)
    requires c == "GO12345"
    ensures Canonical(Groups(Oficial), c) == "GO 12345"
  {
    CanonicalPrefixed(Oficial, c);
    var r := c[..2] + " " + c[2..];
    assert |r| == 8;
    assert forall i | 0 <= i < 8 :: r[i] == "GO 12345"[i];
  }

  // ---------------------------------------------------------------------------
  // A hyphenated plate of the new format
  // ---------------------------------------------------------------------------

  /** `"ABC-12-34"` is already clean: cleaning keeps the hyphens. */
  lemma HyphenatedClean(s: seq<char>)
    requires s == "ABC-12-34"
    ensures CleanPlateText(s) == s
  {
    assert forall i | 0 <= i < |s| :: IsPlateChar(s[i]) && s[i] != ' ';
    NoBlanksIsClean(s);
    CleanFixesClean(s);
  }

  /** Removing two hyphens between three runs without separators joins the runs. */
  lemma StripTwoHyphens(a: seq<char>, b: seq<char>, d: seq<char>)
    requires NoSeparators(a) && NoSeparators(b) && NoSeparators(d)
    ensures StripSeparators(a + "-" + b) == a + b
    ensures StripSeparators(a + "-" + b + "-" + d) == a + b + d
  {
    var h: seq<char> := "-";
    assert StripSeparators(h) == [];
    var ah := a + h;
    assert StripSeparators(ah) == a by {
      StripSeparatorsFixes(a);
      StripSeparatorsAppend(a, h);
    }
    var ahb := ah + b;
    assert StripSeparators(ahb) == a + b by {
      StripSeparatorsFixes(b);
      StripSeparatorsAppend(ah, b);
    }
    var ahbh := ahb + h;
    assert StripSeparators(ahbh) == a + b by {
      StripSeparatorsAppend(ahb, h);
    }
    assert StripSeparators(ahbh + d) == a + b + d by {
      StripSeparatorsFixes(d);
      StripSeparatorsAppend(ahbh, d);
    }
  }

  /** Removing the hyphens of `"ABC-12-34"` leaves `"ABC1234"`, five
      characters of it before the second hyphen. */
  lemma HyphenatedContent(s: seq<char>, c: seq<char>)
    requires s == "ABC-12-34" && c == "ABC1234"
    ensures StripSeparators(s) == c
    ensures |StripSeparators(s[..3])| == 3 && |StripSeparators(s[..6])| == 5
  {
    var a, b, d := s[..3], s[4..6], s[7..];
    assert s[..6] == a + "-" + b && s == a + "-" + b + "-" + d;
    StripTwoHyphens(a, b, d);
    StripSeparatorsFixes(a);
    assert c == a + b + d;
  }

  /** `"ABC-12-34"` is a plate of the new format: its hyphens stand at group boundaries. */
  lemma HyphenatedValid(s: seq<char>)
    requires s == "ABC-12-34"
    ensures FullMatch(Regex(Nuevo), s) && IsValidPlate(s)
  {
    var c := "ABC1234";
    HyphenatedContent(s, c);
    assert Fits(Layout(Nuevo), c);
    assert NoAdjacentSeparators(s) by {
      forall i | 0 <= i < |s| && IsSeparator(s[i])
        ensures i == 3 || i == 6
      {
      }
    }
    forall i | 0 <= i < |s| && IsSeparator(s[i])
      ensures |StripSeparators(s[..i])| in Boundaries(Nuevo)
    {
      assert i == 3 || i == 6;
    }
    PatternFacts(Nuevo);
    MatchesIffShape(Regex(Nuevo), s, 0);
    assert Nuevo in AllFormats;
  }

  /** `"ABC-12-34"` formats as `"ABC 12 34"`. */
  lemma HyphenatedFormat(s: seq<char>)
    requires s == "ABC-12-34"
    ensures FormatPlate(s) == "ABC 12 34"
  {
    var c := "ABC1234";
    HyphenatedContent(s, c);
    HyphenatedValid(s);
    FormatOfFormat(Nuevo, s);
    NuevoCanonical(c);
  }

  lemma NuevoCanonical(c: seq<char>)
    requires c == "ABC1234"
    ensures Canonical(Groups(Nuevo), c) == "ABC 12 34"
  {
    CanonicalGeneric(c);
    var r := c[..3] + " " + c[3..5] + " " + c[5..];
    assert |r| == 9;
    assert forall i | 0 <= i < 9 :: r[i] == "ABC 12 34"[i];
  }

  // ---------------------------------------------------------------------------
  // A motorcycle plate
  // ---------------------------------------------------------------------------

  /** `"A12BC34"` is a motorcycle plate and formats as `"A 12 BC 34"`. */
  lemma MotorcycleFormat(c: seq<char>)
    requires c == "A12BC34"
    ensures IsValidPlate(c)
    ensures FormatPlate(c) == "A 12 BC 34"
  {
    assert Fits(Layout(Motocicleta), c);
    SolidPlate(Motocicleta, c);
    FormatOfFormat(Motocicleta, c);
    MotorcycleCanonical(c);
  }

  lemma MotorcycleCanonical(c: seq<char>)
    requires c == "A12BC34"
    ensures Canonical(Groups(Motocicleta), c) == "A 12 BC 34"
  {
    CanonicalMotorcycle(c);
    var r := c[..1] + " " + c[1..3] + " " + c[3..5] + " " + c[5..];
    assert |r| == 10;
    assert forall i | 0 <= i < 10 :: r[i] == "A 12 BC 34"[i];
  }

  // ---------------------------------------------------------------------------
  // Selection
  // ---------------------------------------------------------------------------

  /** `"ABC1234"` is a plate of the new format and formats as `"ABC 12 34"`. */
  lemma NuevoFormat(c: seq<char>)
    requires c == "ABC1234"
    ensures IsValidPlate(c)
    ensures FormatPlate(c) == "ABC 12 34"
  {
    assert Fits(Layout(Nuevo), c);
    SolidPlate(Nuevo, c);
    FormatOfFormat(Nuevo, c);
    NuevoCanonical(c);
  }

  /** A confident reading of `"ABC1234"` yields the candidate `"ABC 12 34"`. */
  lemma NuevoAdmitted(r: Reading)
    requires r == Reading("ABC1234", 0.9)
    ensures Admit(r, 0.4) == Some(OcrResult("ABC 12 34", 0.9))
  {
    NoBlanksIsClean(r.text);
    CleanFixesClean(r.text);
    NuevoFormat(r.text);
  }

  /** A single admitted candidate is the answer. */
  lemma ChooseExample(os: seq<Option<OcrResult>>)
    requires os == [Some(OcrResult("ABC 12 34", 0.9))]
    ensures Choose(true, os) == "ABC 12 34"
  {
    assert os[..0] == [];
    assert Survivors(os) == [os[0].value];
  }

  /** A reading below the threshold is discarded even though it comes first. */
  lemma SelectionExample(low: Reading, high: Reading)
    requires low == Reading("xyz999", 0.3) && high == Reading("ABC1234", 0.9)
    ensures SelectPlate(true, [low, high], 0.4) == "ABC 12 34"
  {
    assert AboveThreshold([low, high], 0.4) == AboveThreshold([high], 0.4) by {
      assert [low, high][..1] == [low] && [low][..0] == [] && [high][..0] == [];
    }
    SameAboveSameAnswer(true, [low, high], [high], 0.4);
    NuevoAdmitted(high);
    var os := Admitted([high], 0.4);
    assert os == [Some(OcrResult("ABC 12 34", 0.9))];
    ChooseExample(os);
  }
}
