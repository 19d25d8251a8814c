/**
 * `format_plate` (backend/app/recognizer.py:77-92): remove the separators, then
 * put single spaces back at the group boundaries of the format that matched.
 */
module PlateFormatting {
  import opened PlateText
  import opened PlateFormats

  /** Python's `s[n:]`, which is empty when `n` is past the end. */
  function SliceFrom(s: seq<char>, n: nat): seq<char> {
    if n <= |s| then s[n..] else []
  }

  /** `format_plate` (backend/app/recognizer.py:77-92). */
  function FormatPlate(text: seq<char>): seq<char> {
    var clean := StripSeparators(text);
    if FullMatch(Regex(Oficial), text) then "GO " + SliceFrom(clean, 2)
    else if FullMatch(Regex(Federal), text) then "TF " + SliceFrom(clean, 2)
    else if FullMatch(Regex(Diplomatico), text) then "CD " + SliceFrom(clean, 2)
    else if FullMatch(Regex(Motocicleta), text) && |clean| == 7 then
      clean[..1] + " " + clean[1..3] + " " + clean[3..5] + " " + clean[5..]
    else if |clean| == 7 then
      clean[..3] + " " + clean[3..5] + " " + clean[5..]
    else clean
  }

  // ---------------------------------------------------------------------------
  // The canonical spaced form of a format: its groups joined by single spaces.

  function Width(gs: seq<Group>): nat {
    if gs == [] then 0 else |gs[0]| + Width(gs[1..])
  }

  /** The classes of all groups, in order. */
  function Cells(gs: seq<Group>): (r: seq<CharClass>)
    ensures |r| == Width(gs)
  {
    if gs == [] then [] else gs[0] + Cells(gs[1..])
  }

  /** `c` cut into the groups of `gs`, the pieces joined by one space each. */
  function Canonical(gs: seq<Group>, c: seq<char>): seq<char>
    requires |gs| > 0 && |c| == Width(gs)
  {
    if |gs| == 1 then c else c[..|gs[0]|] + " " + Canonical(gs[1..], c[|gs[0]|..])
  }

  /** The three shapes `format_plate` produces for a valid plate. */
  predicate PrefixedForm(r: seq<char>) {
    |r| == 8 && r[..2] in ["GO", "TF", "CD"] && r[2] == ' '
    && forall i | 3 <= i < 8 :: IsDigit(r[i])
  }

  predicate MotorcycleForm(r: seq<char>) {
    |r| == 10 && IsUpperLetter(r[0]) && r[1] == ' ' && IsDigit(r[2]) && IsDigit(r[3])
    && r[4] == ' ' && IsUpperLetter(r[5]) && IsUpperLetter(r[6]) && r[7] == ' '
    && IsDigit(r[8]) && IsDigit(r[9])
  }

  predicate GenericForm(r: seq<char>) {
    |r| == 9 && IsUpperLetter(r[0]) && IsUpperLetter(r[1]) && IsUpperLetter(r[2]) && r[3] == ' '
    && IsDigit(r[4]) && IsDigit(r[5]) && r[6] == ' ' && IsDigit(r[7]) && IsDigit(r[8])
  }

  predicate IsPrefixed(f: PlateFormat) {
    f == Oficial || f == Federal || f == Diplomatico
  }

  // ---------------------------------------------------------------------------
  // Facts about separators.

  predicate NoSeparators(t: seq<char>) {
    forall i | 0 <= i < |t| :: !IsSeparator(t[i])
  }

  lemma {:induction false} StripSeparatorsLeavesNone(s: seq<char>)
    ensures NoSeparators(StripSeparators(s))
  {
    if s != [] {
      StripSeparatorsLeavesNone(s[1..]);
      var h := if IsSeparator(s[0]) then [] else [s[0]];
      var r := StripSeparators(s);
      assert r == h + StripSeparators(s[1..]);
      assert forall i | |h| <= i < |r| :: r[i] == StripSeparators(s[1..])[i - |h|];
    }
  }

  lemma {:induction false} StripSeparatorsFixes(t: seq<char>)
    requires NoSeparators(t)
    ensures StripSeparators(t) == t
  {
    if t != [] {
      assert NoSeparators(t[1..]) by {
        assert forall i | 0 <= i < |t| - 1 :: t[1..][i] == t[i + 1];
      }
      StripSeparatorsFixes(t[1..]);
    }
  }

  // ---------------------------------------------------------------------------
  // The canonical form matches its format, keeps its content and is clean.

  lemma FitsSplit(a: seq<CharClass>, b: seq<CharClass>, x: seq<char>)
    requires Fits(a + b, x)
    ensures Fits(a, x[..|a|]) && Fits(b, x[|a|..])
  {
    forall i | 0 <= i < |a|
      ensures Has(a[i], x[..|a|][i])
    {
      assert (a + b)[i] == a[i];
    }
    forall i | 0 <= i < |b|
      ensures Has(b[i], x[|a|..][i])
    {
      assert (a + b)[|a| + i] == b[i];
    }
  }

  lemma {:induction false} OnesMatch(g: Group, a: seq<char>, q: seq<Atom>, b: seq<char>)
    requires Fits(g, a) && Matches(q, b)
    ensures Matches(Ones(g) + q, a + b)
  {
    if g == [] {
      assert Ones(g) + q == q && a + b == b;
    } else {
      assert g == [g[0]] + g[1..] && a == [a[0]] + a[1..];
      FitsCons(g[0], g[1..], a[0], a[1..]);
      OnesMatch(g[1..], a[1..], q, b);
      var p, s := Ones(g) + q, a + b;
      assert p[0] == One(g[0]) && p[1..] == Ones(g[1..]) + q;
      assert s[0] == a[0] && s[1..] == a[1..] + b;
    }
  }

  /** The canonical form of fitting content matches the joined groups. */
  lemma JoinMatches(g: Group, a: seq<char>, q: seq<Atom>, b: seq<char>)
    requires Fits(g, a) && Matches(q, b)
    ensures Matches(Ones(g) + ([OptSep] + q), a + (" " + b))
  {
    assert Matches([OptSep] + q, " " + b) by {
      assert ([OptSep] + q)[1..] == q;
      assert (" " + b)[1..] == b;
    }
    OnesMatch(g, a, [OptSep] + q, " " + b);
  }

  lemma {:induction false} CanonicalMatches(gs: seq<Group>, c: seq<char>)
    requires |gs| > 0 && |c| == Width(gs) && Fits(Cells(gs), c)
    ensures Matches(Flatten(gs), Canonical(gs, c))
  {
    var n := |gs[0]|;
    if |gs| == 1 {
      assert Matches(Ones(gs[0]) + [], c + []) by {
        assert Cells(gs) == gs[0] + [];
        OnesMatch(gs[0], c, [], []);
      }
      assert Ones(gs[0]) + [] == Ones(gs[0]) && c + [] == c;
    } else {
      var rest := Canonical(gs[1..], c[n..]);
      var restP := Flatten(gs[1..]);
      assert Flatten(gs) == Ones(gs[0]) + ([OptSep] + restP);
      assert Canonical(gs, c) == c[..n] + (" " + rest);
      assert Matches(Ones(gs[0]) + ([OptSep] + restP), c[..n] + (" " + rest)) by {
        FitsSplit(gs[0], Cells(gs[1..]), c);
        CanonicalMatches(gs[1..], c[n..]);
        JoinMatches(gs[0], c[..n], restP, rest);
      }
    }
  }

  lemma JoinContent(a: seq<char>, b: seq<char>)
    requires NoSeparators(a)
    ensures StripSeparators(a + (" " + b)) == a + StripSeparators(b)
  {
    StripSeparatorsFixes(a);
    StripSeparatorsAppend(a, " " + b);
    assert (" " + b)[1..] == b;
  }

  lemma NoSeparatorsSplit(c: seq<char>, n: nat)
    requires n <= |c| && NoSeparators(c)
    ensures NoSeparators(c[..n]) && NoSeparators(c[n..])
  {
    assert forall i | 0 <= i < |c| - n :: c[n..][i] == c[n + i];
  }

  /** Removing the separators from the canonical form gives back its content. */
  lemma {:induction false} CanonicalContent(gs: seq<Group>, c: seq<char>)
    requires |gs| > 0 && |c| == Width(gs) && NoSeparators(c)
    ensures StripSeparators(Canonical(gs, c)) == c
  {
    if |gs| == 1 {
      StripSeparatorsFixes(c);
    } else {
      var n := |gs[0]|;
      var rest := Canonical(gs[1..], c[n..]);
      assert Canonical(gs, c) == c[..n] + (" " + rest);
      assert StripSeparators(c[..n] + (" " + rest)) == c[..n] + c[n..] by {
        NoSeparatorsSplit(c, n);
        CanonicalContent(gs[1..], c[n..]);
        JoinContent(c[..n], rest);
      }
      assert c[..n] + c[n..] == c;
    }
  }

  /** Joining two clean pieces of letters and digits by a space stays clean. */
  lemma JoinClean(a: seq<char>, b: seq<char>)
    requires a != [] && forall i | 0 <= i < |a| :: IsUpperLetter(a[i]) || IsDigit(a[i])
    requires b != [] && IsClean(b)
    ensures IsClean(a + " " + b)
  {
    var r := a + " " + b;
    assert forall i | 0 <= i < |a| :: r[i] == a[i];
    assert r[|a|] == ' ';
    assert forall i | 0 <= i < |b| :: r[|a| + 1 + i] == b[i];
    forall i, j | 0 <= i < |r| && 0 <= j < |r| && j == i + 1
      ensures !(r[i] == ' ' && r[j] == ' ')
    {
      if i > |a| {
        assert r[i] == b[i - |a| - 1] && r[j] == b[j - |a| - 1];
      }
    }
  }

  /** Groups none of which is empty. */
  predicate SolidGroups(gs: seq<Group>) {
    forall i | 0 <= i < |gs| :: gs[i] != []
  }

  lemma {:induction false} CanonicalClean(gs: seq<Group>, c: seq<char>)
    requires |gs| > 0 && |c| == Width(gs) && SolidGroups(gs)
    requires forall i | 0 <= i < |c| :: IsUpperLetter(c[i]) || IsDigit(c[i])
    ensures Canonical(gs, c) != [] && IsClean(Canonical(gs, c))
  {
    if |gs| > 1 {
      var n := |gs[0]|;
      assert SolidGroups(gs[1..]) by {
        assert forall i | 0 <= i < |gs| - 1 :: gs[1..][i] == gs[i + 1];
      }
      assert forall i | 0 <= i < |c| - n :: c[n..][i] == c[n + i];
      CanonicalClean(gs[1..], c[n..]);
      JoinClean(c[..n], Canonical(gs[1..], c[n..]));
    }
  }

  // ---------------------------------------------------------------------------
  // Per format: the groups, and the canonical form written with slices.

  lemma GroupsFacts(f: PlateFormat)
    ensures Flatten(Groups(f)) == Regex(f)
    ensures Cells(Groups(f)) == Layout(f) && Width(Groups(f)) == 7
    ensures |Groups(f)| > 0 && SolidGroups(Groups(f))
  {
    match f
    case Nuevo => NuevoGroups();
    case Motocicleta => MotocicletaGroups();
    case Oficial => OficialGroups();
    case Federal => FederalGroups();
    case Diplomatico => DiplomaticoGroups();
  }

  lemma NuevoGroups()
    ensures Flatten(Groups(Nuevo)) == Regex(Nuevo)
    ensures Cells(Groups(Nuevo)) == Layout(Nuevo) && Width(Groups(Nuevo)) == 7
    ensures |Groups(Nuevo)| > 0 && SolidGroups(Groups(Nuevo))
  {
  }

  lemma MotocicletaGroups()
    ensures Flatten(Groups(Motocicleta)) == Regex(Motocicleta)
    ensures Cells(Groups(Motocicleta)) == Layout(Motocicleta) && Width(Groups(Motocicleta)) == 7
    ensures |Groups(Motocicleta)| > 0 && SolidGroups(Groups(Motocicleta))
  {
    var gs := Groups(Motocicleta);
    assert Flatten(gs[2..]) == [One(Letter), One(Letter), OptSep, One(Digit), One(Digit)];
  }

  lemma OficialGroups()
    ensures Flatten(Groups(Oficial)) == Regex(Oficial)
    ensures Cells(Groups(Oficial)) == Layout(Oficial) && Width(Groups(Oficial)) == 7
    ensures |Groups(Oficial)| > 0 && SolidGroups(Groups(Oficial))
  {
    var gs := Groups(Oficial);
    assert Flatten(gs[1..]) == [One(Digit), One(Digit), One(Digit), One(Digit), One(Digit)];
    assert Cells(gs[1..]) == [Digit, Digit, Digit, Digit, Digit];
  }

  lemma FederalGroups()
    ensures Flatten(Groups(Federal)) == Regex(Federal)
    ensures Cells(Groups(Federal)) == Layout(Federal) && Width(Groups(Federal)) == 7
    ensures |Groups(Federal)| > 0 && SolidGroups(Groups(Federal))
  {
    var gs := Groups(Federal);
    assert Flatten(gs[1..]) == [One(Digit), One(Digit), One(Digit), One(Digit), One(Digit)];
    assert Cells(gs[1..]) == [Digit, Digit, Digit, Digit, Digit];
  }

  lemma DiplomaticoGroups()
    ensures Flatten(Groups(Diplomatico)) == Regex(Diplomatico)
    ensures Cells(Groups(Diplomatico)) == Layout(Diplomatico) && Width(Groups(Diplomatico)) == 7
    ensures |Groups(Diplomatico)| > 0 && SolidGroups(Groups(Diplomatico))
  {
    var gs := Groups(Diplomatico);
    assert Flatten(gs[1..]) == [One(Digit), One(Digit), One(Digit), One(Digit), One(Digit)];
    assert Cells(gs[1..]) == [Digit, Digit, Digit, Digit, Digit];
  }

  lemma CanonicalGeneric(c: seq<char>)
    requires |c| == 7
    ensures Width(Groups(Nuevo)) == 7
    ensures Canonical(Groups(Nuevo), c) == c[..3] + " " + c[3..5] + " " + c[5..]
  {
    var gs := Groups(Nuevo);
    GroupsFacts(Nuevo);
    var c1 := c[3..];
    var c2 := c1[2..];
    assert Canonical(gs[2..], c2) == c2;
    assert Canonical(gs[1..], c1) == c1[..2] + " " + c2;
    assert c1[..2] == c[3..5] && c2 == c[5..];
  }

  lemma CanonicalMotorcycle(c: seq<char>)
    requires |c| == 7
    ensures Width(Groups(Motocicleta)) == 7
    ensures Canonical(Groups(Motocicleta), c) == c[..1] + " " + c[1..3] + " " + c[3..5] + " " + c[5..]
  {
    var gs := Groups(Motocicleta);
    GroupsFacts(Motocicleta);
    var c1 := c[1..];
    var c2 := c1[2..];
    var c3 := c2[2..];
    assert Canonical(gs[3..], c3) == c3;
    assert Canonical(gs[2..], c2) == c2[..2] + " " + c3;
    assert Canonical(gs[1..], c1) == c1[..2] + " " + Canonical(gs[2..], c2);
    assert c1[..2] == c[1..3] && c2[..2] == c[3..5] && c3 == c[5..];
  }

  lemma CanonicalPrefixed(f: PlateFormat, c: seq<char>)
    requires IsPrefixed(f) && |c| == 7
    ensures Width(Groups(f)) == 7
    ensures Canonical(Groups(f), c) == c[..2] + " " + c[2..]
  {
    GroupsFacts(f);
  }

  // ---------------------------------------------------------------------------
  // What format_plate does.

  /** A text of format `f` takes the branch of `f`, and only that one: it comes
      out in the canonical form of `f`. A prefixed plate also has seven
      characters, so the generic branch would take it if it came first. */
  lemma FormatOfFormat(f: PlateFormat, text: seq<char>)
    requires FullMatch(Regex(f), text)
    ensures |StripSeparators(text)| == 7 && Width(Groups(f)) == 7
    ensures FormatPlate(text) == Canonical(Groups(f), StripSeparators(text))
  {
    FullMatchFits(f, text);
    GroupsFacts(f);
    match f
    case Nuevo => NuevoBranch(text);
    case Motocicleta => MotocicletaBranch(text);
    case Oficial => OficialBranch(text);
    case Federal => FederalBranch(text);
    case Diplomatico => DiplomaticoBranch(text);
  }

  /** `f` is the only format of `text`. */
  lemma OnlyFormat(f: PlateFormat, g: PlateFormat, text: seq<char>)
    requires FullMatch(Regex(f), text) && g != f
    ensures !FullMatch(Regex(g), text)
  {
    if FullMatch(Regex(g), text) {
      FormatsDisjoint(f, g, text);
    }
  }

  /** `"GO " + clean[2:]` is the canonical form of a plate starting with `GO`. */
  lemma PrefixJoin(c: seq<char>, x: char, y: char)
    requires |c| == 7 && c[0] == x && c[1] == y
    ensures [x, y, ' '] + SliceFrom(c, 2) == c[..2] + " " + c[2..]
  {
    assert c[..2] == [x, y];
  }

  lemma OficialBranch(text: seq<char>)
    requires FullMatch(Regex(Oficial), text)
    ensures |StripSeparators(text)| == 7 && Width(Groups(Oficial)) == 7
    ensures FormatPlate(text) == Canonical(Groups(Oficial), StripSeparators(text))
  {
    var c := StripSeparators(text);
    FullMatchFits(Oficial, text);
    assert Has(Layout(Oficial)[0], c[0]) && Has(Layout(Oficial)[1], c[1]);
    CanonicalPrefixed(Oficial, c);
    PrefixJoin(c, 'G', 'O');
  }

  lemma FederalBranch(text: seq<char>)
    requires FullMatch(Regex(Federal), text)
    ensures |StripSeparators(text)| == 7 && Width(Groups(Federal)) == 7
    ensures FormatPlate(text) == Canonical(Groups(Federal), StripSeparators(text))
  {
    var c := StripSeparators(text);
    FullMatchFits(Federal, text);
    OnlyFormat(Federal, Oficial, text);
    assert Has(Layout(Federal)[0], c[0]) && Has(Layout(Federal)[1], c[1]);
    CanonicalPrefixed(Federal, c);
    PrefixJoin(c, 'T', 'F');
  }

  lemma DiplomaticoBranch(text: seq<char>)
    requires FullMatch(Regex(Diplomatico), text)
    ensures |StripSeparators(text)| == 7 && Width(Groups(Diplomatico)) == 7
    ensures FormatPlate(text) == Canonical(Groups(Diplomatico), StripSeparators(text))
  {
    var c := StripSeparators(text);
    FullMatchFits(Diplomatico, text);
    OnlyFormat(Diplomatico, Oficial, text);
    OnlyFormat(Diplomatico, Federal, text);
    assert Has(Layout(Diplomatico)[0], c[0]) && Has(Layout(Diplomatico)[1], c[1]);
    CanonicalPrefixed(Diplomatico, c);
    PrefixJoin(c, 'C', 'D');
  }

  lemma MotocicletaBranch(text: seq<char>)
    requires FullMatch(Regex(Motocicleta), text)
    ensures |StripSeparators(text)| == 7 && Width(Groups(Motocicleta)) == 7
    ensures FormatPlate(text) == Canonical(Groups(Motocicleta), StripSeparators(text))
  {
    FullMatchFits(Motocicleta, text);
    OnlyFormat(Motocicleta, Oficial, text);
    OnlyFormat(Motocicleta, Federal, text);
    OnlyFormat(Motocicleta, Diplomatico, text);
    CanonicalMotorcycle(StripSeparators(text));
  }

  lemma NuevoBranch(text: seq<char>)
    requires FullMatch(Regex(Nuevo), text)
    ensures |StripSeparators(text)| == 7 && Width(Groups(Nuevo)) == 7
    ensures FormatPlate(text) == Canonical(Groups(Nuevo), StripSeparators(text))
  {
    FullMatchFits(Nuevo, text);
    OnlyFormat(Nuevo, Oficial, text);
    OnlyFormat(Nuevo, Federal, text);
    OnlyFormat(Nuevo, Diplomatico, text);
    OnlyFormat(Nuevo, Motocicleta, text);
    CanonicalGeneric(StripSeparators(text));
  }

  /** Whatever the input, formatting neither loses nor adds a character other
      than spaces and hyphens. */
  lemma FormatKeepsContent(text: seq<char>)
    ensures StripSeparators(FormatPlate(text)) == StripSeparators(text)
  {
    var c := StripSeparators(text);
    StripSeparatorsLeavesNone(text);
    if f :| FullMatch(Regex(f), text) {
      FormatOfFormat(f, text);
      CanonicalContent(Groups(f), c);
    } else if |c| == 7 {
      assert !FullMatch(Regex(Oficial), text) && !FullMatch(Regex(Federal), text);
      assert !FullMatch(Regex(Diplomatico), text) && !FullMatch(Regex(Motocicleta), text);
      CanonicalGeneric(c);
      CanonicalContent(Groups(Nuevo), c);
    } else {
      assert !FullMatch(Regex(Oficial), text) && !FullMatch(Regex(Federal), text);
      assert !FullMatch(Regex(Diplomatico), text);
      StripSeparatorsFixes(c);
    }
  }

  /** Content that fits a layout is made of capital letters and digits. */
  lemma LayoutIsAlphanumeric(f: PlateFormat, c: seq<char>)
    requires Fits(Layout(f), c)
    ensures forall i | 0 <= i < |c| :: IsUpperLetter(c[i]) || IsDigit(c[i])
  {
    forall i | 0 <= i < |c|
      ensures IsUpperLetter(c[i]) || IsDigit(c[i])
    {
      var k := Layout(f)[i];
      assert Has(k, c[i]);
      assert k.Exactly? ==> k.c in "GOTFCD";
    }
  }

  /** A text of none of the four special formats falls through to the last two
      branches: seven characters come out as `LLL NN NN`, anything else comes out
      without its separators. */
  lemma FormatFallback(text: seq<char>)
    requires !FullMatch(Regex(Oficial), text) && !FullMatch(Regex(Federal), text)
    requires !FullMatch(Regex(Diplomatico), text) && !FullMatch(Regex(Motocicleta), text)
    ensures var c := StripSeparators(text);
      |c| == 7 ==> FormatPlate(text) == Canonical(Groups(Nuevo), c)
    ensures var c := StripSeparators(text);
      |c| != 7 ==> FormatPlate(text) == c && NoSeparators(c)
  {
    var c := StripSeparators(text);
    StripSeparatorsLeavesNone(text);
    if |c| == 7 {
      CanonicalGeneric(c);
    }
  }

  /** The canonical form of content that fits the layout of `f` is a clean text
      of format `f` with that content. */
  lemma CanonicalOfLayout(f: PlateFormat, c: seq<char>)
    requires Fits(Layout(f), c)
    ensures Width(Groups(f)) == 7
    ensures IsClean(Canonical(Groups(f), c))
    ensures FullMatch(Regex(f), Canonical(Groups(f), c))
    ensures StripSeparators(Canonical(Groups(f), c)) == c
  {
    var gs := Groups(f);
    GroupsFacts(f);
    var r := Canonical(gs, c);
    LayoutIsAlphanumeric(f, c);
    assert IsClean(r) by {
      CanonicalClean(gs, c);
    }
    assert Matches(Regex(f), r) by {
      CanonicalMatches(gs, c);
    }
    assert StripSeparators(r) == c by {
      assert NoSeparators(c);
      CanonicalContent(gs, c);
    }
  }

  /** For a valid plate the output is clean, valid, keeps the content and is a
      fixed point, so formatting twice changes nothing. */
  lemma FormatValidPlate(text: seq<char>)
    requires IsValidPlate(text)
    ensures IsClean(FormatPlate(text)) && CleanPlateText(FormatPlate(text)) == FormatPlate(text)
    ensures IsValidPlate(FormatPlate(text))
    ensures StripSeparators(FormatPlate(text)) == StripSeparators(text)
    ensures FormatPlate(FormatPlate(text)) == FormatPlate(text)
  {
    var f :| f in AllFormats && FullMatch(Regex(f), text);
    var c := StripSeparators(text);
    FormatOfFormat(f, text);
    FullMatchFits(f, text);
    var r := Canonical(Groups(f), c);
    CanonicalOfLayout(f, c);
    CleanFixesClean(r);
    FormatOfFormat(f, r);
  }

  /** Each format has its own output shape, and the three shapes never overlap. */
  lemma FormatOutputShape(f: PlateFormat, text: seq<char>)
    requires FullMatch(Regex(f), text)
    ensures IsPrefixed(f) <==> PrefixedForm(FormatPlate(text))
    ensures f == Motocicleta <==> MotorcycleForm(FormatPlate(text))
    ensures f == Nuevo <==> GenericForm(FormatPlate(text))
  {
    FormatOfFormat(f, text);
    FullMatchFits(f, text);
    CanonicalShape(f, StripSeparators(text));
  }

  lemma CanonicalShape(f: PlateFormat, c: seq<char>)
    requires Fits(Layout(f), c)
    ensures Width(Groups(f)) == 7
    ensures var r := Canonical(Groups(f), c);
      && (IsPrefixed(f) <==> PrefixedForm(r))
      && (f == Motocicleta <==> MotorcycleForm(r))
      && (f == Nuevo <==> GenericForm(r))
  {
    match f
    case Nuevo => GenericShape(c);
    case Motocicleta => MotorcycleShape(c);
    case Oficial => PrefixedShape(f, c);
    case Federal => PrefixedShape(f, c);
    case Diplomatico => PrefixedShape(f, c);
  }

  lemma GenericShape(c: seq<char>)
    requires Fits(Layout(Nuevo), c)
    ensures Width(Groups(Nuevo)) == 7
    ensures var r := Canonical(Groups(Nuevo), c);
      GenericForm(r) && !MotorcycleForm(r) && !PrefixedForm(r)
  {
    CanonicalGeneric(c);
    var r := Canonical(Groups(Nuevo), c);
    var k := Layout(Nuevo);
    assert Has(k[0], c[0]) && Has(k[1], c[1]) && Has(k[2], c[2]) && Has(k[3], c[3]);
    assert Has(k[4], c[4]) && Has(k[5], c[5]) && Has(k[6], c[6]);
    assert r[0] == c[0] && r[1] == c[1] && r[2] == c[2] && r[3] == ' ' && r[4] == c[3];
    assert r[5] == c[4] && r[6] == ' ' && r[7] == c[5] && r[8] == c[6];
  }

  lemma MotorcycleShape(c: seq<char>)
    requires Fits(Layout(Motocicleta), c)
    ensures Width(Groups(Motocicleta)) == 7
    ensures var r := Canonical(Groups(Motocicleta), c);
      MotorcycleForm(r) && !GenericForm(r) && !PrefixedForm(r)
  {
    CanonicalMotorcycle(c);
    var r := Canonical(Groups(Motocicleta), c);
    var k := Layout(Motocicleta);
    assert Has(k[0], c[0]) && Has(k[1], c[1]) && Has(k[2], c[2]) && Has(k[3], c[3]);
    assert Has(k[4], c[4]) && Has(k[5], c[5]) && Has(k[6], c[6]);
    assert r[0] == c[0] && r[1] == ' ' && r[2] == c[1] && r[3] == c[2] && r[4] == ' ';
    assert r[5] == c[3] && r[6] == c[4] && r[7] == ' ' && r[8] == c[5] && r[9] == c[6];
  }

  lemma PrefixedShape(f: PlateFormat, c: seq<char>)
    requires IsPrefixed(f) && Fits(Layout(f), c)
    ensures Width(Groups(f)) == 7
    ensures var r := Canonical(Groups(f), c);
      PrefixedForm(r) && !GenericForm(r) && !MotorcycleForm(r)
  {
    CanonicalPrefixed(f, c);
    assert forall i | 0 <= i < 7 :: Has(Layout(f)[i], c[i]);
    var r := Canonical(Groups(f), c);
    assert r[..2] == c[..2];
    assert c[..2] in ["GO", "TF", "CD"] by {
      if f == Oficial {
        assert c[..2] == "GO";
      } else if f == Federal {
        assert c[..2] == "TF";
      } else {
        assert c[..2] == "CD";
      }
    }
  }
}
