/**
 * The text normalizer `clean_plate_text` of backend/app/recognizer.py:66-70:
 * upper-case the OCR text, delete every character outside `A-Z 0-9 - space`,
 * replace each run of whitespace by one space and trim both ends.
 */
module PlateText {

  /** Python's `\s` in a `str` pattern and `str.strip()`'s notion of whitespace
      (the characters for which `str.isspace()` holds). */
  predicate IsWhitespace(c: char) {
    ('\t' <= c <= '\r') || ('\U{1C}' <= c <= '\U{1F}') || c == ' '
    || c == '\U{85}' || c == '\U{A0}' || c == '\U{1680}'
    || ('\U{2000}' <= c <= '\U{200A}')
    || c == '\U{2028}' || c == '\U{2029}' || c == '\U{202F}' || c == '\U{205F}' || c == '\U{3000}'
  }

  predicate IsUpperLetter(c: char) { 'A' <= c <= 'Z' }

  predicate IsDigit(c: char) { '0' <= c <= '9' }

  /** The characters kept by `[^A-Z0-9\- ]`. */
  predicate IsPlateChar(c: char) { IsUpperLetter(c) || IsDigit(c) || c == '-' || c == ' ' }

  /** Plate characters that are not blanks: the content of a plate. */
  predicate IsPlateSymbol(c: char) { IsUpperLetter(c) || IsDigit(c) || c == '-' }

  /** `str.upper()` on the ASCII range; every other character is left as it is. */
  function ToUpper(c: char): (u: char)
    ensures IsUpperLetter(u) <==> IsUpperLetter(c) || 'a' <= c <= 'z'
    ensures !('a' <= c <= 'z') ==> u == c
    ensures 'a' <= c <= 'z' ==> u == "ABCDEFGHIJKLMNOPQRSTUVWXYZ"[c as int - 'a' as int]
  {
    if 'a' <= c <= 'z' then (c as int - 32) as char else c
  }

  /** `str.upper()` on a text: each character upper-cased in its place. */
  function Upper(s: seq<char>): (r: seq<char>)
    ensures |r| == |s| && forall i | 0 <= i < |s| :: r[i] == ToUpper(s[i])
  {
    if s == [] then [] else [ToUpper(s[0])] + Upper(s[1..])
  }

  /** `sub(r"[^A-Z0-9\- ]", "", text)` */
  function KeepPlateChars(s: seq<char>): (r: seq<char>)
    ensures forall i | 0 <= i < |r| :: IsPlateChar(r[i])
  {
    if s == [] then []
    else (if IsPlateChar(s[0]) then [s[0]] else []) + KeepPlateChars(s[1..])
  }

  /** `str.lstrip()`: drops the leading whitespace and keeps the rest. */
  function TrimStart(s: seq<char>): (r: seq<char>)
    ensures |r| <= |s| && r == s[|s| - |r|..]
    ensures r == [] || !IsWhitespace(r[0])
    ensures s != [] && IsWhitespace(s[0]) ==> |r| < |s|
  {
    if s == [] || !IsWhitespace(s[0]) then s else TrimStart(s[1..])
  }

  /** Left stripping drops whitespace only. */
  lemma {:induction false} TrimStartDropsWhitespace(s: seq<char>)
    ensures forall i | 0 <= i < |s| - |TrimStart(s)| :: IsWhitespace(s[i])
  {
    if s != [] && IsWhitespace(s[0]) {
      TrimStartDropsWhitespace(s[1..]);
      assert forall i | 1 <= i < |s| - |TrimStart(s)| :: s[i] == s[1..][i - 1];
    }
  }

  /** `str.rstrip()`: drops the trailing whitespace and keeps the rest. */
  function TrimEnd(s: seq<char>): (r: seq<char>)
    ensures |r| <= |s| && r == s[..|r|]
    ensures r == [] || !IsWhitespace(r[|r| - 1])
  {
    if s == [] || !IsWhitespace(s[|s| - 1]) then s else TrimEnd(s[..|s| - 1])
  }

  /** Right stripping drops whitespace only. */
  lemma {:induction false} TrimEndDropsWhitespace(s: seq<char>)
    ensures forall i | |TrimEnd(s)| <= i < |s| :: IsWhitespace(s[i])
  {
    if s != [] && IsWhitespace(s[|s| - 1]) {
      TrimEndDropsWhitespace(s[..|s| - 1]);
    }
  }

  /** `str.strip()` */
  function Strip(s: seq<char>): seq<char> {
    TrimEnd(TrimStart(s))
  }

  /** `sub(r"\s+", " ", text)`: every maximal run of whitespace becomes one space. */
  function CollapseWhitespace(s: seq<char>): (r: seq<char>)
    ensures s != [] ==> r != [] && (IsWhitespace(r[0]) <==> IsWhitespace(s[0]))
    decreases |s|
  {
    if s == [] then []
    else if IsWhitespace(s[0]) then [' '] + CollapseWhitespace(TrimStart(s))
    else [s[0]] + CollapseWhitespace(s[1..])
  }

  /** `clean_plate_text` (backend/app/recognizer.py:66-70). */
  function CleanPlateText(text: seq<char>): seq<char> {
    Strip(CollapseWhitespace(KeepPlateChars(Upper(text))))
  }

  /** What a cleaned text looks like: plate characters only, no blank at either
      end and never two blanks in a row. */
  predicate IsClean(t: seq<char>) {
    (forall i | 0 <= i < |t| :: IsPlateChar(t[i]))
    && (t != [] ==> t[0] != ' ' && t[|t| - 1] != ' ')
    && (forall i, j | 0 <= i < |t| && 0 <= j < |t| && j == i + 1 :: !(t[i] == ' ' && t[j] == ' '))
  }

  /** The non-blank content of a text: its letters, digits and hyphens in order. */
  function Symbols(s: seq<char>): (r: seq<char>)
    ensures |r| <= |s|
  {
    if s == [] then []
    else (if IsPlateSymbol(s[0]) then [s[0]] else []) + Symbols(s[1..])
  }

  // ---------------------------------------------------------------------------
  // The cleaned text is clean.

  lemma PlateCharWhitespaceIsBlank(c: char)
    requires IsPlateChar(c)
    ensures IsWhitespace(c) <==> c == ' '
  {
  }

  /** A text whose only whitespace is single spaces. */
  predicate SingleSpaced(t: seq<char>) {
    (forall i | 0 <= i < |t| && IsWhitespace(t[i]) :: t[i] == ' ')
    && (forall i, j | 0 <= i < |t| && 0 <= j < |t| && j == i + 1 :: !(IsWhitespace(t[i]) && IsWhitespace(t[j])))
  }

  /** Putting a character in front of a single-spaced text keeps it single-spaced,
      unless two whitespace characters meet. */
  lemma ConsSingleSpaced(h: char, t: seq<char>)
    requires SingleSpaced(t)
    requires IsWhitespace(h) ==> h == ' ' && (t == [] || !IsWhitespace(t[0]))
    ensures SingleSpaced([h] + t)
  {
    var r := [h] + t;
    forall i | 0 <= i < |r| && IsWhitespace(r[i])
      ensures r[i] == ' '
    {
      if i > 0 {
        assert r[i] == t[i - 1];
      }
    }
    forall i, j | 0 <= i < |r| && 0 <= j < |r| && j == i + 1
      ensures !(IsWhitespace(r[i]) && IsWhitespace(r[j]))
    {
      assert r[j] == t[j - 1];
      if i > 0 {
        assert r[i] == t[i - 1];
      }
    }
  }

  /** After collapsing, whitespace only occurs as single spaces. */
  lemma {:induction false} CollapseIsSingleSpaced(s: seq<char>)
    ensures SingleSpaced(CollapseWhitespace(s))
    decreases |s|
  {
    if s != [] {
      var rest := if IsWhitespace(s[0]) then TrimStart(s) else s[1..];
      CollapseIsSingleSpaced(rest);
      var h := if IsWhitespace(s[0]) then ' ' else s[0];
      var tail := CollapseWhitespace(rest);
      assert CollapseWhitespace(s) == [h] + tail;
      ConsSingleSpaced(h, tail);
    }
  }

  /** Collapsing introduces no character outside the plate alphabet. */
  lemma {:induction false} CollapseKeepsPlateChars(s: seq<char>)
    requires forall i | 0 <= i < |s| :: IsPlateChar(s[i])
    ensures forall i | 0 <= i < |CollapseWhitespace(s)| :: IsPlateChar(CollapseWhitespace(s)[i])
    decreases |s|
  {
    if s != [] {
      var rest := if IsWhitespace(s[0]) then TrimStart(s) else s[1..];
      assert forall i | 0 <= i < |rest| :: rest[i] == s[|s| - |rest| + i];
      CollapseKeepsPlateChars(rest);
      var r := CollapseWhitespace(s);
      var tail := CollapseWhitespace(rest);
      assert r == [if IsWhitespace(s[0]) then ' ' else s[0]] + tail;
      assert forall i | 1 <= i < |r| :: r[i] == tail[i - 1];
    }
  }

  /** A slice of a single-spaced text of plate characters has plate characters
      only and never two blanks in a row. */
  lemma SliceSingleSpaced(c: seq<char>, lo: nat, hi: nat, r: seq<char>)
    requires lo <= hi <= |c| && r == c[lo..hi]
    requires forall i | 0 <= i < |c| :: IsPlateChar(c[i])
    requires SingleSpaced(c)
    ensures forall i | 0 <= i < |r| :: IsPlateChar(r[i])
    ensures forall i, j | 0 <= i < |r| && 0 <= j < |r| && j == i + 1 :: !(r[i] == ' ' && r[j] == ' ')
  {
    forall i | 0 <= i < |r|
      ensures IsPlateChar(r[i])
    {
      assert r[i] == c[lo + i];
    }
    forall i, j | 0 <= i < |r| && 0 <= j < |r| && j == i + 1
      ensures !(r[i] == ' ' && r[j] == ' ')
    {
      assert r[i] == c[lo + i] && r[j] == c[lo + j];
      assert !(IsWhitespace(c[lo + i]) && IsWhitespace(c[lo + j]));
    }
  }

  /** Stripping cuts a slice out of the text with no whitespace at either end. */
  lemma StripSlice(c: seq<char>) returns (off: nat)
    ensures var r := Strip(c); off + |r| <= |c| && r == c[off..off + |r|]
    ensures var r := Strip(c); r != [] ==> !IsWhitespace(r[0]) && !IsWhitespace(r[|r| - 1])
  {
    var t := TrimStart(c);
    var r := TrimEnd(t);
    off := |c| - |t|;
    if r != [] {
      assert r[0] == t[0];
    }
  }

  /** Trimming a single-spaced text of plate characters leaves a clean text. */
  lemma StripSingleSpacedIsClean(c: seq<char>)
    requires forall i | 0 <= i < |c| :: IsPlateChar(c[i])
    requires SingleSpaced(c)
    ensures IsClean(Strip(c))
  {
    var r := Strip(c);
    var off := StripSlice(c);
    SliceSingleSpaced(c, off, off + |r|, r);
  }

  /** Cleaning yields only `A-Z`, `0-9`, `-` and single inner spaces. */
  lemma CleanIsClean(text: seq<char>)
    ensures IsClean(CleanPlateText(text))
  {
    var k := KeepPlateChars(Upper(text));
    CollapseKeepsPlateChars(k);
    CollapseIsSingleSpaced(k);
    StripSingleSpacedIsClean(CollapseWhitespace(k));
  }

  // ---------------------------------------------------------------------------
  // Cleaning a clean text changes nothing, so cleaning is idempotent.

  lemma {:induction false} UpperFixesPlateChars(t: seq<char>)
    requires forall i | 0 <= i < |t| :: IsPlateChar(t[i])
    ensures Upper(t) == t
  {
    if t != [] {
      UpperFixesPlateChars(t[1..]);
    }
  }

  lemma {:induction false} KeepFixesPlateChars(t: seq<char>)
    requires forall i | 0 <= i < |t| :: IsPlateChar(t[i])
    ensures KeepPlateChars(t) == t
  {
    if t != [] {
      KeepFixesPlateChars(t[1..]);
    }
  }

  lemma {:induction false} CollapseFixesSingleSpaced(t: seq<char>)
    requires SingleSpaced(t)
    ensures CollapseWhitespace(t) == t
  {
    if t != [] {
      assert SingleSpaced(t[1..]) by {
        assert forall i | 0 <= i < |t| - 1 :: t[1..][i] == t[i + 1];
      }
      CollapseFixesSingleSpaced(t[1..]);
      if IsWhitespace(t[0]) {
        assert t[0] == ' ' && (|t| > 1 ==> !IsWhitespace(t[1]));
        assert TrimStart(t[1..]) == t[1..];
        assert t == [' '] + t[1..];
      }
    }
  }

  /** A clean text is left unchanged by every step of the cleaning. */
  lemma CleanFixesClean(t: seq<char>)
    requires IsClean(t)
    ensures CleanPlateText(t) == t
  {
    UpperFixesPlateChars(t);
    KeepFixesPlateChars(t);
    forall i | 0 <= i < |t|
      ensures IsWhitespace(t[i]) <==> t[i] == ' '
    {
      PlateCharWhitespaceIsBlank(t[i]);
    }
    CollapseFixesSingleSpaced(t);
  }

  /** `clean_plate_text(clean_plate_text(x)) == clean_plate_text(x)`. */
  lemma CleanIdempotent(text: seq<char>)
    ensures CleanPlateText(CleanPlateText(text)) == CleanPlateText(text)
  {
    CleanIsClean(text);
    CleanFixesClean(CleanPlateText(text));
  }

  // ---------------------------------------------------------------------------
  // Each step does only its own work: the filter drops exactly the characters
  // outside the plate alphabet, and a run of blanks between two words stays as
  // one space.

  lemma {:induction false} KeepAppend(a: seq<char>, b: seq<char>)
    ensures KeepPlateChars(a + b) == KeepPlateChars(a) + KeepPlateChars(b)
  {
    if a == [] {
      assert a + b == b;
    } else {
      assert (a + b)[0] == a[0] && (a + b)[1..] == a[1..] + b;
      KeepAppend(a[1..], b);
    }
  }

  lemma {:induction false} KeepDropsOthers(t: seq<char>)
    requires forall i | 0 <= i < |t| :: !IsPlateChar(t[i])
    ensures KeepPlateChars(t) == []
  {
    if t != [] {
      assert forall i | 0 <= i < |t| - 1 :: t[1..][i] == t[i + 1];
      KeepDropsOthers(t[1..]);
    }
  }

  lemma {:induction false} TrimStartRun(w: seq<char>, b: seq<char>)
    requires forall i | 0 <= i < |w| :: IsWhitespace(w[i])
    requires b == [] || !IsWhitespace(b[0])
    ensures TrimStart(w + b) == b
  {
    if w == [] {
      assert w + b == b;
    } else {
      assert (w + b)[0] == w[0] && (w + b)[1..] == w[1..] + b;
      TrimStartRun(w[1..], b);
    }
  }

  /** A whole run of whitespace becomes a single space. */
  lemma CollapseRun(w: seq<char>, b: seq<char>)
    requires w != [] && forall i | 0 <= i < |w| :: IsWhitespace(w[i])
    requires b == [] || !IsWhitespace(b[0])
    ensures CollapseWhitespace(w + b) == [' '] + CollapseWhitespace(b)
  {
    assert (w + b)[0] == w[0];
    TrimStartRun(w, b);
  }

  lemma {:induction false} TrimStartAppend(a: seq<char>, x: seq<char>)
    requires a != [] && !IsWhitespace(a[|a| - 1])
    ensures TrimStart(a + x) == TrimStart(a) + x
  {
    assert (a + x)[0] == a[0];
    if IsWhitespace(a[0]) {
      assert (a + x)[1..] == a[1..] + x;
      TrimStartAppend(a[1..], x);
    }
  }

  /** A character other than whitespace passes through collapsing unchanged. */
  lemma CollapseCons(c: char, s: seq<char>)
    requires !IsWhitespace(c)
    ensures CollapseWhitespace([c] + s) == [c] + CollapseWhitespace(s)
  {
    assert ([c] + s)[0] == c && ([c] + s)[1..] == s;
  }

  /** Concatenation is associative; stated over plain names so that the solver
      does not unfold the collapsed texts it is applied to. */
  lemma Reassociate(h: seq<char>, p: seq<char>, q: seq<char>, y: seq<char>, z: seq<char>)
    requires y == h + (p + q) && z == h + p
    ensures y == z + q
  {
  }

  /** A leading run of whitespace that ends inside `a` is collapsed before `x` is reached. */
  lemma SkipRunAppend(a: seq<char>, x: seq<char>)
    requires a != [] && IsWhitespace(a[0]) && !IsWhitespace(a[|a| - 1])
    ensures var r := TrimStart(a); r != [] && |r| < |a| && !IsWhitespace(r[|r| - 1])
    ensures CollapseWhitespace(a + x) == [' '] + CollapseWhitespace(TrimStart(a) + x)
  {
    var r := TrimStart(a);
    assert r != [] && r[|r| - 1] == a[|a| - 1] by {
      assert r == a[|a| - |r|..];
      TrimStartDropsWhitespace(a);
      assert !(|a| - 1 < |a| - |r|);
    }
    assert (a + x)[0] == a[0];
    TrimStartAppend(a, x);
  }

  /** Collapsing works piece by piece when the first piece does not end in a run. */
  lemma {:induction false} CollapseAppend(a: seq<char>, x: seq<char>)
    requires a == [] || !IsWhitespace(a[|a| - 1])
    ensures CollapseWhitespace(a + x) == CollapseWhitespace(a) + CollapseWhitespace(x)
    decreases |a|
  {
    if a == [] {
      assert a + x == x;
    } else if IsWhitespace(a[0]) {
      var r := TrimStart(a);
      SkipRunAppend(a, x);
      CollapseAppend(r, x);
      Reassociate([' '], CollapseWhitespace(r), CollapseWhitespace(x),
        CollapseWhitespace(a + x), CollapseWhitespace(a));
    } else {
      var t := a[1..];
      assert a == [a[0]] + t && a + x == [a[0]] + (t + x);
      CollapseCons(a[0], t);
      CollapseCons(a[0], t + x);
      CollapseAppend(t, x);
      Reassociate([a[0]], CollapseWhitespace(t), CollapseWhitespace(x),
        CollapseWhitespace(a + x), CollapseWhitespace(a));
    }
  }

  lemma CollapseJoin(a: seq<char>, w: seq<char>, b: seq<char>)
    requires SingleSpaced(a) && SingleSpaced(b) && a != [] && b != []
    requires !IsWhitespace(a[|a| - 1]) && !IsWhitespace(b[0])
    requires w != [] && forall i | 0 <= i < |w| :: IsWhitespace(w[i])
    ensures CollapseWhitespace(a + w + b) == a + " " + b
  {
    var y := CollapseWhitespace(a + w + b);
    assert y == a + ([' '] + b) by {
      assert a + w + b == a + (w + b);
      CollapseAppend(a, w + b);
      CollapseRun(w, b);
      CollapseFixesSingleSpaced(a);
      CollapseFixesSingleSpaced(b);
    }
    Reassociate(a, [' '], b, y, a + [' ']);
  }

  /** Two clean words with blanks between them clean to the words joined by one space. */
  lemma CleanJoinsWithOneSpace(a: seq<char>, w: seq<char>, b: seq<char>)
    requires IsClean(a) && IsClean(b) && a != [] && b != []
    requires w != [] && forall i | 0 <= i < |w| :: w[i] == ' '
    ensures CleanPlateText(a + w + b) == a + " " + b
  {
    var t := a + w + b;
    assert KeepPlateChars(Upper(t)) == t by {
      forall i | 0 <= i < |t|
        ensures IsPlateChar(t[i])
      {
        if i < |a| {
          assert t[i] == a[i];
        } else if i < |a| + |w| {
          assert t[i] == w[i - |a|];
        } else {
          assert t[i] == b[i - |a| - |w|];
        }
      }
      UpperFixesPlateChars(t);
      KeepFixesPlateChars(t);
    }
    assert SingleSpaced(a) by {
      forall i | 0 <= i < |a|
        ensures IsWhitespace(a[i]) <==> a[i] == ' '
      {
        PlateCharWhitespaceIsBlank(a[i]);
      }
    }
    assert SingleSpaced(b) by {
      forall i | 0 <= i < |b|
        ensures IsWhitespace(b[i]) <==> b[i] == ' '
      {
        PlateCharWhitespaceIsBlank(b[i]);
      }
    }
    PlateCharWhitespaceIsBlank(a[0]);
    PlateCharWhitespaceIsBlank(a[|a| - 1]);
    PlateCharWhitespaceIsBlank(b[0]);
    PlateCharWhitespaceIsBlank(b[|b| - 1]);
    CollapseJoin(a, w, b);
    var u := a + " " + b;
    assert u[0] == a[0] && u[|u| - 1] == b[|b| - 1];
    assert TrimStart(u) == u;
  }

  // ---------------------------------------------------------------------------
  // Cleaning keeps every letter, digit and hyphen, in order.

  lemma {:induction false} SymbolsAppend(a: seq<char>, b: seq<char>)
    ensures Symbols(a + b) == Symbols(a) + Symbols(b)
  {
    if a == [] {
      assert a + b == b;
    } else {
      var h := if IsPlateSymbol(a[0]) then [a[0]] else [];
      assert (a + b)[0] == a[0] && (a + b)[1..] == a[1..] + b;
      SymbolsAppend(a[1..], b);
      calc {
        Symbols(a + b);
        h + Symbols(a[1..] + b);
        h + (Symbols(a[1..]) + Symbols(b));
        (h + Symbols(a[1..])) + Symbols(b);
      }
    }
  }

  lemma {:induction false} SymbolsOfKeep(s: seq<char>)
    ensures Symbols(KeepPlateChars(s)) == Symbols(s)
  {
    if s != [] {
      SymbolsOfKeep(s[1..]);
      SymbolsAppend(if IsPlateChar(s[0]) then [s[0]] else [], KeepPlateChars(s[1..]));
    }
  }

  lemma WhitespaceIsNoSymbol(c: char)
    requires IsWhitespace(c)
    ensures !IsPlateSymbol(c)
  {
  }

  lemma {:induction false} SymbolsOfTrimStart(s: seq<char>)
    ensures Symbols(TrimStart(s)) == Symbols(s)
  {
    if s != [] && IsWhitespace(s[0]) {
      assert Symbols(s) == Symbols(s[1..]) by {
        WhitespaceIsNoSymbol(s[0]);
      }
      SymbolsOfTrimStart(s[1..]);
    }
  }

  lemma {:induction false} SymbolsOfTrimEnd(s: seq<char>)
    ensures Symbols(TrimEnd(s)) == Symbols(s)
  {
    if s != [] && IsWhitespace(s[|s| - 1]) {
      SymbolsOfTrimEnd(s[..|s| - 1]);
      assert s == s[..|s| - 1] + [s[|s| - 1]];
      SymbolsAppend(s[..|s| - 1], [s[|s| - 1]]);
    }
  }

  lemma {:induction false} SymbolsOfCollapse(s: seq<char>)
    ensures Symbols(CollapseWhitespace(s)) == Symbols(s)
    decreases |s|
  {
    if s != [] {
      var rest := if IsWhitespace(s[0]) then TrimStart(s) else s[1..];
      var h := if IsWhitespace(s[0]) then ' ' else s[0];
      SymbolsOfCollapse(rest);
      assert CollapseWhitespace(s) == [h] + CollapseWhitespace(rest);
      SymbolsAppend([h], CollapseWhitespace(rest));
      assert Symbols(s) == Symbols([h]) + Symbols(rest) by {
        if IsWhitespace(s[0]) {
          SymbolsOfTrimStart(s);
          assert Symbols([' ']) == [];
        } else {
          assert s == [s[0]] + s[1..];
          SymbolsAppend([s[0]], s[1..]);
        }
      }
    }
  }

  /** Apart from blanks, the cleaned text holds exactly the letters, digits and
      hyphens of the upper-cased input, in their order. */
  lemma CleanKeepsSymbols(text: seq<char>)
    ensures Symbols(CleanPlateText(text)) == Symbols(Upper(text))
  {
    var k := KeepPlateChars(Upper(text));
    SymbolsOfKeep(Upper(text));
    SymbolsOfCollapse(k);
    SymbolsOfTrimStart(CollapseWhitespace(k));
    SymbolsOfTrimEnd(TrimStart(CollapseWhitespace(k)));
  }

  /** Text with no plate character at all, once upper-cased, cleans to the empty string. */
  lemma {:induction false} CleanOfNoPlateChars(text: seq<char>)
    requires forall i | 0 <= i < |text| :: !IsPlateChar(ToUpper(text[i]))
    ensures CleanPlateText(text) == []
  {
    NoPlateCharsKeepsNothing(text);
  }

  lemma {:induction false} NoPlateCharsKeepsNothing(text: seq<char>)
    requires forall i | 0 <= i < |text| :: !IsPlateChar(ToUpper(text[i]))
    ensures KeepPlateChars(Upper(text)) == []
  {
    if text != [] {
      assert forall i | 0 <= i < |text| - 1 :: text[1..][i] == text[i + 1];
      NoPlateCharsKeepsNothing(text[1..]);
    }
  }
}
