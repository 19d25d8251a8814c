/**
 * The selection part of `get_plate` (backend/app/recognizer.py:36-57): keep the
 * OCR readings whose confidence reaches the threshold and whose cleaned text is
 * a valid plate, format them, sort them by confidence (descending, stably) and
 * answer the first one, or the sentinel when there is none.
 *
 * The OCR engine and the image loader are not modelled: the readings of
 * `reader.readtext` are a parameter, and so is whether `load_image` produced
 * an image.
 */
module Recognizer {
  import opened PlateText
  import opened PlateFormats
  import opened PlateFormatting

  datatype Option<T> = None | Some(value: T)

  /** One `(bbox, text, confidence)` triple of `readtext`; the box is never used. */
  datatype Reading = Reading(text: string, confidence: real)

  /** `OCRResult` (backend/app/recognizer.py:23-26). */
  datatype OcrResult = OcrResult(text: string, confidence: real)

  /** The answer when no plate is found. */
  const NotDetected: string := "Placa no detectada"

  /** A reading that survives the filter: confident enough and a valid plate once cleaned. */
  predicate Qualifies(r: Reading, threshold: real) {
    r.confidence >= threshold && IsValidPlate(CleanPlateText(r.text))
  }

  /** The candidate a qualifying reading becomes. */
  function Candidate(r: Reading): OcrResult {
    OcrResult(FormatPlate(CleanPlateText(r.text)), r.confidence)
  }

  /** What one pass of the loop body (backend/app/recognizer.py:48-53) appends,
      if anything. */
  function Admit(r: Reading, threshold: real): Option<OcrResult> {
    if Qualifies(r, threshold) then Some(Candidate(r)) else None
  }

  /** The outcome of the loop body for every reading, in order. */
  function Admitted(rs: seq<Reading>, threshold: real): (os: seq<Option<OcrResult>>)
    ensures |os| == |rs| && forall i | 0 <= i < |rs| :: os[i] == Admit(rs[i], threshold)
  {
    if rs == [] then [] else Admitted(rs[..|rs| - 1], threshold) + [Admit(rs[|rs| - 1], threshold)]
  }

  /** `valid_plates` once the loop has produced the outcomes `os`. */
  function Survivors(os: seq<Option<OcrResult>>): seq<OcrResult> {
    if os == [] then []
    else Survivors(os[..|os| - 1]) + (if os[|os| - 1].Some? then [os[|os| - 1].value] else [])
  }

  // ---------------------------------------------------------------------------
  // `list.sort(key=lambda x: x.confidence, reverse=True)`: a stable sort on
  // descending confidence. Each element goes after every element already placed
  // whose confidence is at least its own, so equal confidences keep their order.

  function Insert(x: OcrResult, s: seq<OcrResult>): (r: seq<OcrResult>)
    ensures |r| == |s| + 1
  {
    if s == [] then [x]
    else if s[0].confidence >= x.confidence then [s[0]] + Insert(x, s[1..])
    else [x] + s
  }

  function SortDesc(cs: seq<OcrResult>): (r: seq<OcrResult>)
    ensures |r| == |cs|
  {
    if cs == [] then [] else Insert(cs[|cs| - 1], SortDesc(cs[..|cs| - 1]))
  }

  predicate Descending(s: seq<OcrResult>) {
    forall i, j | 0 <= i < j < |s| :: s[i].confidence >= s[j].confidence
  }

  lemma {:induction false} InsertPermutes(x: OcrResult, s: seq<OcrResult>)
    ensures multiset(Insert(x, s)) == multiset(s) + multiset{x}
  {
    if s != [] && s[0].confidence >= x.confidence {
      InsertPermutes(x, s[1..]);
      assert s == [s[0]] + s[1..];
    }
  }

  /** Every element of `Insert(x, s)` is `x` or an element of `s`. */
  lemma {:induction false} InsertElements(x: OcrResult, s: seq<OcrResult>)
    ensures forall k | 0 <= k < |Insert(x, s)| :: Insert(x, s)[k] == x || Insert(x, s)[k] in s
  {
    if s != [] && s[0].confidence >= x.confidence {
      InsertElements(x, s[1..]);
      var t := Insert(x, s[1..]);
      forall k | 0 <= k < |t| + 1
        ensures ([s[0]] + t)[k] == x || ([s[0]] + t)[k] in s
      {
        if k > 0 {
          assert ([s[0]] + t)[k] == t[k - 1];
          if t[k - 1] != x {
            var m :| 0 <= m < |s| - 1 && s[1..][m] == t[k - 1];
            assert s[m + 1] == t[k - 1];
          }
        }
      }
    }
  }

  lemma {:induction false} InsertDescending(x: OcrResult, s: seq<OcrResult>)
    requires Descending(s)
    ensures Descending(Insert(x, s))
  {
    if s != [] && s[0].confidence >= x.confidence {
      assert Descending(s[1..]) by {
        assert forall i | 0 <= i < |s| - 1 :: s[1..][i] == s[i + 1];
      }
      InsertDescending(x, s[1..]);
      InsertElements(x, s[1..]);
      var t := Insert(x, s[1..]);
      var r := [s[0]] + t;
      forall i, j | 0 <= i < j < |r|
        ensures r[i].confidence >= r[j].confidence
      {
        assert r[j] == t[j - 1];
        if i > 0 {
          assert r[i] == t[i - 1];
        } else if t[j - 1] != x {
          var m :| 0 <= m < |s| - 1 && s[1..][m] == t[j - 1];
          assert s[m + 1] == t[j - 1];
        }
      }
    }
  }

  /** The sort yields a descending permutation of its input. */
  lemma {:induction false} SortDescSorted(cs: seq<OcrResult>)
    ensures Descending(SortDesc(cs))
    ensures multiset(SortDesc(cs)) == multiset(cs)
  {
    if cs != [] {
      var init, x := cs[..|cs| - 1], cs[|cs| - 1];
      assert SortDesc(cs) == Insert(x, SortDesc(init));
      SortDescSorted(init);
      InsertDescending(x, SortDesc(init));
      InsertPermutes(x, SortDesc(init));
      assert multiset(cs) == multiset(init) + multiset{x} by {
        assert cs == init + [x];
      }
    }
  }

  /** The answer of `get_plate` once the loop has produced the outcomes `os`. */
  function Choose(imagePresent: bool, os: seq<Option<OcrResult>>): string {
    if !imagePresent then NotDetected
    else
      var plates := Survivors(os);
      if plates == [] then NotDetected else SortDesc(plates)[0].text
  }

  /** What `get_plate` answers for the readings `rs` (backend/app/recognizer.py:36-57). */
  function SelectPlate(imagePresent: bool, rs: seq<Reading>, threshold: real): string {
    Choose(imagePresent, Admitted(rs, threshold))
  }

  // ---------------------------------------------------------------------------
  // A reference description of the choice: the first candidate whose
  // confidence no other candidate exceeds.

  function FirstBest(os: seq<Option<OcrResult>>): (b: Option<nat>)
    ensures b.None? <==> forall i | 0 <= i < |os| :: os[i].None?
    ensures b.Some? ==> b.value < |os| && os[b.value].Some?
    ensures b.Some? ==> forall j | 0 <= j < |os| && os[j].Some? ::
      os[j].value.confidence <= os[b.value].value.confidence
    ensures b.Some? ==> forall j | 0 <= j < b.value && os[j].Some? ::
      os[j].value.confidence < os[b.value].value.confidence
  {
    if os == [] then None
    else
      var n := |os| - 1;
      var b := FirstBest(os[..n]);
      assert forall j | 0 <= j < n :: os[..n][j] == os[j];
      if os[n].None? then b
      else if b.Some? && os[b.value].value.confidence >= os[n].value.confidence then b
      else Some(n)
  }

  /** The head of the sorted candidates is the first best one: the stable sort
      breaks ties in favour of the earliest reading. */
  lemma {:induction false} SortHeadIsFirstBest(os: seq<Option<OcrResult>>)
    ensures Survivors(os) == [] <==> FirstBest(os).None?
    ensures FirstBest(os).Some? ==> SortDesc(Survivors(os))[0] == os[FirstBest(os).value].value
  {
    if os != [] {
      var n := |os| - 1;
      var init := os[..n];
      SortHeadIsFirstBest(init);
      var v := Survivors(init);
      if os[n].Some? {
        var c := os[n].value;
        assert SortDesc(Survivors(os)) == Insert(c, SortDesc(v)) by {
          assert Survivors(os) == v + [c];
          assert (v + [c])[..|v|] == v;
        }
        assert FirstBest(init).Some? ==> init[FirstBest(init).value] == os[FirstBest(init).value];
      } else {
        assert Survivors(os) == v by {
          assert v + [] == v;
        }
        assert FirstBest(os) == FirstBest(init);
        assert FirstBest(init).Some? ==> init[FirstBest(init).value] == os[FirstBest(init).value];
      }
    }
  }

  // ---------------------------------------------------------------------------
  // What `get_plate` answers.

  lemma NotDetectedIsNotClean()
    ensures !IsClean(NotDetected)
  {
    assert NotDetected[1] == 'l';
  }

  /** The candidate of a qualifying reading is a clean, valid plate that
      formatting leaves as it is; in particular it is not the sentinel. */
  lemma CandidateIsPlate(r: Reading, threshold: real)
    requires Qualifies(r, threshold)
    ensures var plate := Candidate(r).text;
      IsClean(plate) && IsValidPlate(plate) && FormatPlate(plate) == plate && plate != NotDetected
  {
    FormatValidPlate(CleanPlateText(r.text));
    NotDetectedIsNotClean();
  }

  /** The sentinel comes back exactly when there is no image or no reading
      qualifies. */
  lemma SentinelIffNothingQualifies(imagePresent: bool, rs: seq<Reading>, threshold: real)
    ensures SelectPlate(imagePresent, rs, threshold) == NotDetected <==>
      !imagePresent || forall i | 0 <= i < |rs| :: !Qualifies(rs[i], threshold)
  {
    var os := Admitted(rs, threshold);
    SortHeadIsFirstBest(os);
    var b := FirstBest(os);
    if imagePresent && b.Some? {
      CandidateIsPlate(rs[b.value], threshold);
    }
    if imagePresent && b.None? {
      assert forall i | 0 <= i < |rs| :: os[i].None?;
    }
  }

  /** The first best candidate comes from the chosen reading. */
  lemma FirstBestIsChosen(rs: seq<Reading>, threshold: real)
    requires FirstBest(Admitted(rs, threshold)).Some?
    ensures ChosenReading(rs, threshold, FirstBest(Admitted(rs, threshold)).value)
  {
    var os := Admitted(rs, threshold);
    var i := FirstBest(os).value;
    assert os[i] == Admit(rs[i], threshold);
    assert os[i].value.confidence == rs[i].confidence;
    forall j | 0 <= j < |rs| && Qualifies(rs[j], threshold)
      ensures rs[j].confidence <= rs[i].confidence
      ensures j < i ==> rs[j].confidence < rs[i].confidence
    {
      assert os[j] == Admit(rs[j], threshold);
      assert os[j].Some? && os[j].value.confidence == rs[j].confidence;
    }
  }

  /** Any other answer is the formatted text of a qualifying reading whose
      confidence is the highest among qualifying readings, the earliest such
      reading when several tie; it is a clean, valid plate that formatting
      leaves as it is. */
  lemma SelectPlateChoosesBest(imagePresent: bool, rs: seq<Reading>, threshold: real)
    requires SelectPlate(imagePresent, rs, threshold) != NotDetected
    ensures exists i | 0 <= i < |rs| ::
      (ChosenReading(rs, threshold, i) && SelectPlate(imagePresent, rs, threshold) == Candidate(rs[i]).text)
    ensures var plate := SelectPlate(imagePresent, rs, threshold);
      IsClean(plate) && IsValidPlate(plate) && FormatPlate(plate) == plate
  {
    var os := Admitted(rs, threshold);
    SortHeadIsFirstBest(os);
    var i := FirstBest(os).value;
    assert SelectPlate(imagePresent, rs, threshold) == Candidate(rs[i]).text;
    FirstBestIsChosen(rs, threshold);
    CandidateIsPlate(rs[i], threshold);
  }

  /** Reading `i` qualifies, no qualifying reading is more confident, and every
      earlier qualifying reading is less confident. */
  predicate ChosenReading(rs: seq<Reading>, threshold: real, i: nat) {
    i < |rs| && Qualifies(rs[i], threshold)
    && (forall j | 0 <= j < |rs| && Qualifies(rs[j], threshold) :: rs[j].confidence <= rs[i].confidence)
    && (forall j | 0 <= j < i && Qualifies(rs[j], threshold) :: rs[j].confidence < rs[i].confidence)
  }

  /** The readings that reach the threshold, in their order. */
  function AboveThreshold(rs: seq<Reading>, threshold: real): (r: seq<Reading>)
    ensures forall x :: x in r <==> x in rs && x.confidence >= threshold
  {
    if rs == [] then []
    else
      var last := rs[|rs| - 1];
      AboveThreshold(rs[..|rs| - 1], threshold) + (if last.confidence >= threshold then [last] else [])
  }

  lemma {:induction false} SurvivorsAboveThreshold(rs: seq<Reading>, threshold: real)
    ensures Survivors(Admitted(AboveThreshold(rs, threshold), threshold)) == Survivors(Admitted(rs, threshold))
  {
    if rs != [] {
      var n := |rs| - 1;
      var a := AboveThreshold(rs[..n], threshold);
      SurvivorsAboveThreshold(rs[..n], threshold);
      var os := Admitted(rs, threshold);
      assert os[..n] == Admitted(rs[..n], threshold);
      if rs[n].confidence >= threshold {
        var a' := a + [rs[n]];
        assert a'[..|a|] == a;
        var os' := Admitted(a', threshold);
        assert os'[..|a|] == Admitted(a, threshold);
      } else {
        assert a + [] == a;
        assert Admit(rs[n], threshold).None?;
      }
    }
  }

  /** The filter keeps the order: it works piece by piece. */
  lemma {:induction false} AboveThresholdAppend(a: seq<Reading>, b: seq<Reading>, threshold: real)
    ensures AboveThreshold(a + b, threshold) == AboveThreshold(a, threshold) + AboveThreshold(b, threshold)
    decreases |b|
  {
    if b == [] {
      assert a + b == a;
    } else {
      var n := |b| - 1;
      assert (a + b)[..|a + b| - 1] == a + b[..n];
      assert (a + b)[|a + b| - 1] == b[n];
      AboveThresholdAppend(a, b[..n], threshold);
    }
  }

  /** Two reading lists that agree on the readings reaching the threshold get the same answer. */
  lemma SameAboveSameAnswer(imagePresent: bool, rs: seq<Reading>, qs: seq<Reading>, threshold: real)
    requires AboveThreshold(rs, threshold) == AboveThreshold(qs, threshold)
    ensures SelectPlate(imagePresent, rs, threshold) == SelectPlate(imagePresent, qs, threshold)
  {
    SurvivorsAboveThreshold(rs, threshold);
    SurvivorsAboveThreshold(qs, threshold);
  }

  /** Readings below the threshold never affect the answer. */
  lemma BelowThresholdIrrelevant(imagePresent: bool, rs: seq<Reading>, threshold: real)
    ensures SelectPlate(imagePresent, AboveThreshold(rs, threshold), threshold) ==
      SelectPlate(imagePresent, rs, threshold)
  {
    SurvivorsAboveThreshold(rs, threshold);
  }

  // ---------------------------------------------------------------------------
  // The loop of `get_plate`.

  /** One pass of the loop body (backend/app/recognizer.py:48-53). */
  method ProcessReading(r: Reading, threshold: real) returns (admitted: Option<OcrResult>)
    ensures admitted.Some? <==> Qualifies(r, threshold)
    ensures admitted.Some? ==> admitted.value == Candidate(r)
  {
    if r.confidence >= threshold {
      var cleanedText := CleanPlateText(r.text);
      if IsValidPlate(cleanedText) {
        var formattedText := FormatPlate(cleanedText);
        return Some(OcrResult(formattedText, r.confidence));
      }
    }
    return None;
  }

  /** One more reading appends its candidate, if any, to the survivors so far. */
  lemma SurvivorsStep(rs: seq<Reading>, i: nat, threshold: real)
    requires i < |rs|
    ensures var o := Admit(rs[i], threshold);
      Survivors(Admitted(rs[..i + 1], threshold))
      == Survivors(Admitted(rs[..i], threshold)) + (if o.Some? then [o.value] else [])
  {
    var os := Admitted(rs[..i + 1], threshold);
    assert rs[..i + 1][..i] == rs[..i];
    assert os[..i] == Admitted(rs[..i], threshold);
  }

  /** `get_plate` (backend/app/recognizer.py:36-57) from the readings on. */
  method GetPlate(imagePresent: bool, results: seq<Reading>, threshold: real) returns (plate: string)
    ensures plate == SelectPlate(imagePresent, results, threshold)
  {
    if !imagePresent {
      return NotDetected;
    }
    var validPlates: seq<OcrResult> := [];
    for i := 0 to |results|
      invariant validPlates == Survivors(Admitted(results[..i], threshold))
    {
      var admitted := ProcessReading(results[i], threshold);
      assert admitted == Admit(results[i], threshold);
      SurvivorsStep(results, i, threshold);
      if admitted.Some? {
        validPlates := validPlates + [admitted.value];
      }
    }
    assert results[..|results|] == results;
    if validPlates != [] {
      validPlates := SortDesc(validPlates);
      return validPlates[0].text;
    }
    return NotDetected;
  }
}
