/**
 * The plate formats of backend/app/recognizer.py:14-20 and `is_valid_plate`
 * (backend/app/recognizer.py:73-74).
 *
 * Every format is a regular expression of one shape: groups of single-character
 * classes (`[A-Z]{3}`, `[0-9]{2}`, the literal `GO`), with an optional
 * separator `[\s\-]?` between consecutive groups, anchored by `^` and `$`.
 * The model spells each expression out as a sequence of atoms and matches it
 * with a small hand-written matcher; no general regular-expression engine is
 * modelled.
 */
module PlateFormats {
  import opened PlateText

  /** One character position of a pattern: `[A-Z]`, `[0-9]` or a literal. */
  datatype CharClass = Letter | Digit | Exactly(c: char)

  predicate Has(k: CharClass, ch: char) {
    match k
    case Letter => IsUpperLetter(ch)
    case Digit => IsDigit(ch)
    case Exactly(x) => ch == x
  }

  /** `[\s\-]` */
  predicate IsSeparator(c: char) { IsWhitespace(c) || c == '-' }

  /** A pattern atom: one character of a class, or an optional separator `[\s\-]?`. */
  datatype Atom = One(cls: CharClass) | OptSep

  type Group = seq<CharClass>

  /** The members of `PlateFormat`. `ANTIGUO` has the same value as `NUEVO`, so
      Python's `Enum` makes it an alias of `NUEVO` rather than a member of its own. */
  datatype PlateFormat = Nuevo | Motocicleta | Oficial | Federal | Diplomatico

  /** The members in the order in which iterating over `PlateFormat` yields them. */
  const AllFormats: seq<PlateFormat> := [Nuevo, Motocicleta, Oficial, Federal, Diplomatico]

  /** The groups of each expression, in order: the expression is these groups
      joined by optional separators (`RegexIsFlattenedGroups`). */
  function Groups(f: PlateFormat): seq<Group> {
    match f
    case Nuevo => [[Letter, Letter, Letter], [Digit, Digit], [Digit, Digit]]
    case Motocicleta => [[Letter], [Digit, Digit], [Letter, Letter], [Digit, Digit]]
    case Oficial => [[Exactly('G'), Exactly('O')], [Digit, Digit, Digit, Digit, Digit]]
    case Federal => [[Exactly('T'), Exactly('F')], [Digit, Digit, Digit, Digit, Digit]]
    case Diplomatico => [[Exactly('C'), Exactly('D')], [Digit, Digit, Digit, Digit, Digit]]
  }

  function Ones(g: Group): (p: seq<Atom>)
    ensures |p| == |g|
  {
    if g == [] then [] else [One(g[0])] + Ones(g[1..])
  }

  /** The groups joined by optional separators. */
  function Flatten(gs: seq<Group>): seq<Atom> {
    if gs == [] then []
    else if |gs| == 1 then Ones(gs[0])
    else Ones(gs[0]) + [OptSep] + Flatten(gs[1..])
  }

  /** The expression `PlateFormat.X.value` without its anchors, atom by atom. */
  function Regex(f: PlateFormat): seq<Atom> {
    match f
    case Nuevo =>        // [A-Z]{3}[\s\-]?[0-9]{2}[\s\-]?[0-9]{2}
      [One(Letter), One(Letter), One(Letter), OptSep, One(Digit), One(Digit), OptSep, One(Digit), One(Digit)]
    case Motocicleta =>  // [A-Z]{1}[\s\-]?[0-9]{2}[\s\-]?[A-Z]{2}[\s\-]?[0-9]{2}
      [One(Letter), OptSep, One(Digit), One(Digit), OptSep, One(Letter), One(Letter), OptSep, One(Digit), One(Digit)]
    case Oficial =>      // GO[\s\-]?[0-9]{5}
      [One(Exactly('G')), One(Exactly('O')), OptSep, One(Digit), One(Digit), One(Digit), One(Digit), One(Digit)]
    case Federal =>      // TF[\s\-]?[0-9]{5}
      [One(Exactly('T')), One(Exactly('F')), OptSep, One(Digit), One(Digit), One(Digit), One(Digit), One(Digit)]
    case Diplomatico =>  // CD[\s\-]?[0-9]{5}
      [One(Exactly('C')), One(Exactly('D')), OptSep, One(Digit), One(Digit), One(Digit), One(Digit), One(Digit)]
  }

  /** Does the pattern match the whole of `s`? */
  predicate Matches(p: seq<Atom>, s: seq<char>)
    decreases |p|
  {
    if p == [] then s == []
    else match p[0]
      case One(k) => s != [] && Has(k, s[0]) && Matches(p[1..], s[1..])
      case OptSep => Matches(p[1..], s) || (s != [] && IsSeparator(s[0]) && Matches(p[1..], s[1..]))
  }

  /** `re.match("^" + p + "$", s)`: without MULTILINE, `$` also matches just
      before a newline that ends the string. */
  predicate FullMatch(p: seq<Atom>, s: seq<char>) {
    Matches(p, s) || (s != [] && s[|s| - 1] == '\n' && Matches(p, s[..|s| - 1]))
  }

  /** `is_valid_plate` (backend/app/recognizer.py:73-74). */
  predicate IsValidPlate(text: seq<char>) {
    exists f | f in AllFormats :: FullMatch(Regex(f), text)
  }

  /** `sub(r"[\s\-]", "", text)` */
  function StripSeparators(s: seq<char>): (r: seq<char>)
    ensures |r| <= |s|
  {
    if s == [] then []
    else (if IsSeparator(s[0]) then [] else [s[0]]) + StripSeparators(s[1..])
  }

  // ---------------------------------------------------------------------------
  // A reference description of each format, independent of the matcher:
  // the characters that remain once the separators are removed, and the
  // positions (counted in those characters) where one separator may stand.

  function Layout(f: PlateFormat): seq<CharClass> {
    match f
    case Nuevo => [Letter, Letter, Letter, Digit, Digit, Digit, Digit]
    case Motocicleta => [Letter, Digit, Digit, Letter, Letter, Digit, Digit]
    case Oficial => [Exactly('G'), Exactly('O'), Digit, Digit, Digit, Digit, Digit]
    case Federal => [Exactly('T'), Exactly('F'), Digit, Digit, Digit, Digit, Digit]
    case Diplomatico => [Exactly('C'), Exactly('D'), Digit, Digit, Digit, Digit, Digit]
  }

  function Boundaries(f: PlateFormat): seq<nat> {
    match f
    case Nuevo => [3, 5]
    case Motocicleta => [1, 3, 5]
    case Oficial => [2]
    case Federal => [2]
    case Diplomatico => [2]
  }

  predicate Fits(cls: seq<CharClass>, t: seq<char>) {
    |t| == |cls| && forall i | 0 <= i < |t| :: Has(cls[i], t[i])
  }

  predicate NoAdjacentSeparators(s: seq<char>) {
    forall i, j | 0 <= i < |s| && 0 <= j < |s| && j == i + 1 :: !(IsSeparator(s[i]) && IsSeparator(s[j]))
  }

  /** Every separator of `s` stands where `k` plus the number of characters before
      it that are not separators is one of `gaps`. */
  predicate SeparatorsAt(s: seq<char>, gaps: seq<nat>, k: nat) {
    forall i | 0 <= i < |s| && IsSeparator(s[i]) :: k + |StripSeparators(s[..i])| in gaps
  }

  /** `s` is a plate of format `f`: its characters other than separators fit the
      layout, and at most one separator stands at each group boundary and nowhere else. */
  predicate HasShape(f: PlateFormat, s: seq<char>) {
    Fits(Layout(f), StripSeparators(s)) && NoAdjacentSeparators(s) && SeparatorsAt(s, Boundaries(f), 0)
  }

  // ---------------------------------------------------------------------------
  // The pattern seen as classes and gaps.

  function Classes(p: seq<Atom>): seq<CharClass> {
    if p == [] then []
    else if p[0].OptSep? then Classes(p[1..])
    else [p[0].cls] + Classes(p[1..])
  }

  /** The positions of the optional separators, counted in class atoms from `k`. */
  function GapsFrom(p: seq<Atom>, k: nat): seq<nat> {
    if p == [] then []
    else if p[0].OptSep? then [k] + GapsFrom(p[1..], k)
    else GapsFrom(p[1..], k + 1)
  }

  /** No literal of the pattern is a separator, and every optional separator is
      followed by a character class. */
  predicate WellFormed(p: seq<Atom>) {
    if p == [] then true
    else (match p[0]
          case One(k) => !(k.Exactly? && IsSeparator(k.c))
          case OptSep => |p| > 1 && p[1].One?)
         && WellFormed(p[1..])
  }

  /** Read as classes and gaps, each expression is its reference layout. */
  lemma PatternFacts(f: PlateFormat)
    ensures WellFormed(Regex(f))
    ensures Classes(Regex(f)) == Layout(f)
    ensures GapsFrom(Regex(f), 0) == Boundaries(f)
  {
    match f
    case Nuevo => NuevoWellFormed(); NuevoClasses(); NuevoGaps();
    case Motocicleta => MotocicletaWellFormed(); MotocicletaClasses(); MotocicletaGaps();
    case Oficial => OficialWellFormed(); OficialClasses(); OficialGaps();
    case Federal => FederalWellFormed(); FederalClasses(); FederalGaps();
    case Diplomatico => DiplomaticoWellFormed(); DiplomaticoClasses(); DiplomaticoGaps();
  }

  lemma NuevoWellFormed() ensures WellFormed(Regex(Nuevo)) { }
  lemma NuevoClasses()
    ensures Classes(Regex(Nuevo)) == Layout(Nuevo)
  {
    var p := Regex(Nuevo);
    assert p[8..] == [One(Digit)];
    assert p[7..] == [One(Digit), One(Digit)];
    assert p[6..] == [OptSep, One(Digit), One(Digit)];
    assert p[5..] == [One(Digit), OptSep, One(Digit), One(Digit)];
    assert p[4..] == [One(Digit), One(Digit), OptSep, One(Digit), One(Digit)];
    assert p[3..] == [OptSep, One(Digit), One(Digit), OptSep, One(Digit), One(Digit)];
    assert p[2..] == [One(Letter), OptSep, One(Digit), One(Digit), OptSep, One(Digit), One(Digit)];
    assert p[1..] == [One(Letter), One(Letter), OptSep, One(Digit), One(Digit), OptSep, One(Digit), One(Digit)];
  }
  lemma NuevoGaps() ensures GapsFrom(Regex(Nuevo), 0) == Boundaries(Nuevo) { }

  lemma MotocicletaWellFormed() ensures WellFormed(Regex(Motocicleta)) { }
  lemma MotocicletaClasses()
    ensures Classes(Regex(Motocicleta)) == Layout(Motocicleta)
  {
    var p := Regex(Motocicleta);
    assert p[9..] == [One(Digit)];
    assert p[8..] == [One(Digit), One(Digit)];
    assert p[7..] == [OptSep, One(Digit), One(Digit)];
    assert p[6..] == [One(Letter), OptSep, One(Digit), One(Digit)];
    assert p[5..] == [One(Letter), One(Letter), OptSep, One(Digit), One(Digit)];
    assert p[4..] == [OptSep, One(Letter), One(Letter), OptSep, One(Digit), One(Digit)];
    assert p[3..] == [One(Digit), OptSep, One(Letter), One(Letter), OptSep, One(Digit), One(Digit)];
    assert p[2..] == [One(Digit), One(Digit), OptSep, One(Letter), One(Letter), OptSep, One(Digit), One(Digit)];
    assert p[1..] == [OptSep, One(Digit), One(Digit), OptSep, One(Letter), One(Letter), OptSep, One(Digit), One(Digit)];
  }
  lemma MotocicletaGaps() ensures GapsFrom(Regex(Motocicleta), 0) == Boundaries(Motocicleta) { }

  lemma OficialWellFormed() ensures WellFormed(Regex(Oficial)) { }
  lemma OficialClasses()
    ensures Classes(Regex(Oficial)) == Layout(Oficial)
  {
    var p := Regex(Oficial);
    assert p[7..] == [One(Digit)];
    assert p[6..] == [One(Digit), One(Digit)];
    assert p[5..] == [One(Digit), One(Digit), One(Digit)];
    assert p[4..] == [One(Digit), One(Digit), One(Digit), One(Digit)];
    assert p[3..] == [One(Digit), One(Digit), One(Digit), One(Digit), One(Digit)];
    assert p[2..] == [OptSep, One(Digit), One(Digit), One(Digit), One(Digit), One(Digit)];
    assert p[1..] == [One(Exactly('O')), OptSep, One(Digit), One(Digit), One(Digit), One(Digit), One(Digit)];
  }
  lemma OficialGaps() ensures GapsFrom(Regex(Oficial), 0) == Boundaries(Oficial) { }

  lemma FederalWellFormed() ensures WellFormed(Regex(Federal)) { }
  lemma FederalClasses()
    ensures Classes(Regex(Federal)) == Layout(Federal)
  {
    var p := Regex(Federal);
    assert p[7..] == [One(Digit)];
    assert p[6..] == [One(Digit), One(Digit)];
    assert p[5..] == [One(Digit), One(Digit), One(Digit)];
    assert p[4..] == [One(Digit), One(Digit), One(Digit), One(Digit)];
    assert p[3..] == [One(Digit), One(Digit), One(Digit), One(Digit), One(Digit)];
    assert p[2..] == [OptSep, One(Digit), One(Digit), One(Digit), One(Digit), One(Digit)];
    assert p[1..] == [One(Exactly('F')), OptSep, One(Digit), One(Digit), One(Digit), One(Digit), One(Digit)];
  }
  lemma FederalGaps() ensures GapsFrom(Regex(Federal), 0) == Boundaries(Federal) { }

  lemma DiplomaticoWellFormed() ensures WellFormed(Regex(Diplomatico)) { }
  lemma DiplomaticoClasses()
    ensures Classes(Regex(Diplomatico)) == Layout(Diplomatico)
  {
    var p := Regex(Diplomatico);
    assert p[7..] == [One(Digit)];
    assert p[6..] == [One(Digit), One(Digit)];
    assert p[5..] == [One(Digit), One(Digit), One(Digit)];
    assert p[4..] == [One(Digit), One(Digit), One(Digit), One(Digit)];
    assert p[3..] == [One(Digit), One(Digit), One(Digit), One(Digit), One(Digit)];
    assert p[2..] == [OptSep, One(Digit), One(Digit), One(Digit), One(Digit), One(Digit)];
    assert p[1..] == [One(Exactly('D')), OptSep, One(Digit), One(Digit), One(Digit), One(Digit), One(Digit)];
  }
  lemma DiplomaticoGaps() ensures GapsFrom(Regex(Diplomatico), 0) == Boundaries(Diplomatico) { }

  lemma {:induction false} GapsAbove(p: seq<Atom>, k: nat)
    ensures forall g | g in GapsFrom(p, k) :: g >= k
    ensures p != [] && p[0].One? ==> forall g | g in GapsFrom(p, k) :: g > k
  {
    if p != [] {
      if p[0].OptSep? {
        GapsAbove(p[1..], k);
      } else {
        GapsAbove(p[1..], k + 1);
      }
    }
  }

  lemma WellFormedClass(p: seq<Atom>, ch: char)
    requires WellFormed(p) && p != [] && p[0].One? && Has(p[0].cls, ch)
    ensures !IsSeparator(ch)
  {
  }

  lemma {:induction false} StripSeparatorsAppend(a: seq<char>, b: seq<char>)
    ensures StripSeparators(a + b) == StripSeparators(a) + StripSeparators(b)
  {
    if a == [] {
      assert a + b == b;
    } else {
      var h := if IsSeparator(a[0]) then [] else [a[0]];
      assert (a + b)[0] == a[0] && (a + b)[1..] == a[1..] + b;
      StripSeparatorsAppend(a[1..], b);
      calc {
        StripSeparators(a + b);
        h + StripSeparators(a[1..] + b);
        h + (StripSeparators(a[1..]) + StripSeparators(b));
        (h + StripSeparators(a[1..])) + StripSeparators(b);
      }
    }
  }

  /** Counting the non-separators of a prefix one character at a time. */
  lemma StripPrefixHead(s: seq<char>, i: nat)
    requires 0 < i <= |s|
    ensures |StripSeparators(s[..i])| == (if IsSeparator(s[0]) then 0 else 1) + |StripSeparators(s[1..][..i - 1])|
  {
    assert s[..i][0] == s[0];
    assert s[..i][1..] == s[1..][..i - 1];
  }

  lemma FitsCons(c: CharClass, cs: seq<CharClass>, x: char, xs: seq<char>)
    ensures Fits([c] + cs, [x] + xs) <==> Has(c, x) && Fits(cs, xs)
  {
    var a, b := [c] + cs, [x] + xs;
    if Has(c, x) && Fits(cs, xs) {
      forall i | 0 <= i < |b|
        ensures Has(a[i], b[i])
      {
        if i > 0 {
          assert a[i] == cs[i - 1] && b[i] == xs[i - 1];
        }
      }
    }
    if Fits(a, b) {
      assert Has(a[0], b[0]);
      forall i | 0 <= i < |xs|
        ensures Has(cs[i], xs[i])
      {
        assert a[i + 1] == cs[i] && b[i + 1] == xs[i];
      }
    }
  }

  lemma NoAdjacentTail(s: seq<char>)
    requires s != []
    ensures NoAdjacentSeparators(s) <==>
      NoAdjacentSeparators(s[1..]) && !(|s| > 1 && IsSeparator(s[0]) && IsSeparator(s[1]))
  {
    var t := s[1..];
    if NoAdjacentSeparators(t) && !(|s| > 1 && IsSeparator(s[0]) && IsSeparator(s[1])) {
      forall i, j | 0 <= i < |s| && 0 <= j < |s| && j == i + 1
        ensures !(IsSeparator(s[i]) && IsSeparator(s[j]))
      {
        if i > 0 {
          assert s[i] == t[i - 1] && s[j] == t[j - 1];
        }
      }
    }
    if NoAdjacentSeparators(s) {
      forall i, j | 0 <= i < |t| && 0 <= j < |t| && j == i + 1
        ensures !(IsSeparator(t[i]) && IsSeparator(t[j]))
      {
        assert t[i] == s[i + 1] && t[j] == s[j + 1];
      }
    }
  }

  /** A separator in front of everything stands at no gap above `k`. */
  lemma SeparatorsAtLeadingSeparator(s: seq<char>, gaps: seq<nat>, k: nat)
    requires s != [] && IsSeparator(s[0])
    requires forall g | g in gaps :: g > k
    ensures !SeparatorsAt(s, gaps, k)
  {
    assert s[..0] == [];
    assert !(k + |StripSeparators(s[..0])| in gaps);
  }

  /** Stepping over a character that is not a separator moves every gap by one. */
  lemma SeparatorsAtDropChar(s: seq<char>, gaps: seq<nat>, k: nat)
    requires s != [] && !IsSeparator(s[0])
    ensures SeparatorsAt(s, gaps, k) <==> SeparatorsAt(s[1..], gaps, k + 1)
  {
    var t := s[1..];
    if SeparatorsAt(s, gaps, k) {
      forall j | 0 <= j < |t| && IsSeparator(t[j])
        ensures k + 1 + |StripSeparators(t[..j])| in gaps
      {
        assert s[j + 1] == t[j];
        StripPrefixHead(s, j + 1);
      }
    }
    if SeparatorsAt(t, gaps, k + 1) {
      forall i | 0 <= i < |s| && IsSeparator(s[i])
        ensures k + |StripSeparators(s[..i])| in gaps
      {
        assert i > 0 && t[i - 1] == s[i];
        StripPrefixHead(s, i);
      }
    }
  }

  /** A gap at `k` is of no use when the text does not start with a separator. */
  lemma SeparatorsAtDropGap(s: seq<char>, gaps: seq<nat>, k: nat)
    requires s == [] || !IsSeparator(s[0])
    requires forall g | g in gaps :: g > k
    ensures SeparatorsAt(s, [k] + gaps, k) <==> SeparatorsAt(s, gaps, k)
  {
    if SeparatorsAt(s, [k] + gaps, k) {
      forall i | 0 <= i < |s| && IsSeparator(s[i])
        ensures k + |StripSeparators(s[..i])| in gaps
      {
        StripPrefixHead(s, i);
        assert k + |StripSeparators(s[..i])| in [k] + gaps;
      }
    }
  }

  /** A single leading separator uses the gap at `k`. */
  lemma SeparatorsAtDropSeparator(s: seq<char>, gaps: seq<nat>, k: nat)
    requires s != [] && IsSeparator(s[0]) && (|s| > 1 ==> !IsSeparator(s[1]))
    requires forall g | g in gaps :: g > k
    ensures SeparatorsAt(s, [k] + gaps, k) <==> SeparatorsAt(s[1..], gaps, k)
  {
    if SeparatorsAt(s, [k] + gaps, k) {
      SeparatorsAtTail(s, gaps, k);
    }
    if SeparatorsAt(s[1..], gaps, k) {
      SeparatorsAtCons(s, gaps, k);
    }
  }

  lemma SeparatorsAtTail(s: seq<char>, gaps: seq<nat>, k: nat)
    requires s != [] && IsSeparator(s[0]) && (|s| > 1 ==> !IsSeparator(s[1]))
    requires forall g | g in gaps :: g > k
    requires SeparatorsAt(s, [k] + gaps, k)
    ensures SeparatorsAt(s[1..], gaps, k)
  {
    var t := s[1..];
    forall j | 0 <= j < |t| && IsSeparator(t[j])
      ensures k + |StripSeparators(t[..j])| in gaps
    {
      assert s[j + 1] == t[j];
      assert j > 0 && !IsSeparator(t[0]) by {
        assert t[0] == s[1];
      }
      StripPrefixHead(s, j + 1);
      StripPrefixHead(t, j);
      assert k + |StripSeparators(s[..j + 1])| in [k] + gaps;
    }
  }

  lemma SeparatorsAtCons(s: seq<char>, gaps: seq<nat>, k: nat)
    requires s != [] && IsSeparator(s[0])
    requires SeparatorsAt(s[1..], gaps, k)
    ensures SeparatorsAt(s, [k] + gaps, k)
  {
    var t := s[1..];
    forall i | 0 <= i < |s| && IsSeparator(s[i])
      ensures k + |StripSeparators(s[..i])| in [k] + gaps
    {
      if i == 0 {
        assert s[..0] == [];
      } else {
        assert t[i - 1] == s[i];
        StripPrefixHead(s, i);
      }
    }
  }

  /** The empty pattern matches only the empty text. */
  lemma EmptyPatternShape(s: seq<char>, k: nat)
    ensures s == [] <==>
      Fits([], StripSeparators(s)) && NoAdjacentSeparators(s) && SeparatorsAt(s, [], k)
  {
    if s != [] {
      if !IsSeparator(s[0]) {
        assert |StripSeparators(s)| > 0;
      } else {
        SeparatorsAtLeadingSeparator(s, [], k);
      }
    }
  }

  /** The matcher agrees with the reference description, for every well-formed pattern. */
  lemma {:induction false} MatchesIffShape(p: seq<Atom>, s: seq<char>, k: nat)
    requires WellFormed(p)
    ensures Matches(p, s) <==>
      Fits(Classes(p), StripSeparators(s)) && NoAdjacentSeparators(s) && SeparatorsAt(s, GapsFrom(p, k), k)
    decreases |p|
  {
    if p == [] {
      EmptyPatternShape(s, k);
    } else if p[0].One? {
      var r, cl := p[1..], p[0].cls;
      assert Classes(p) == [cl] + Classes(r);
      assert GapsFrom(p, k) == GapsFrom(r, k + 1);
      GapsAbove(r, k + 1);
      if s == [] {
      } else if IsSeparator(s[0]) {
        if Has(cl, s[0]) {
          WellFormedClass(p, s[0]);
        }
        SeparatorsAtLeadingSeparator(s, GapsFrom(r, k + 1), k);
      } else {
        var t := s[1..];
        MatchesIffShape(r, t, k + 1);
        assert StripSeparators(s) == [s[0]] + StripSeparators(t);
        FitsCons(cl, Classes(r), s[0], StripSeparators(t));
        NoAdjacentTail(s);
        SeparatorsAtDropChar(s, GapsFrom(r, k + 1), k);
      }
    } else {
      var r := p[1..];
      assert Classes(p) == Classes(r);
      assert GapsFrom(p, k) == [k] + GapsFrom(r, k);
      GapsAbove(r, k);
      if s == [] || !IsSeparator(s[0]) {
        MatchesIffShape(r, s, k);
        SeparatorsAtDropGap(s, GapsFrom(r, k), k);
      } else {
        var t := s[1..];
        MatchesIffShape(r, t, k);
        // The pattern goes on with a class, which no separator belongs to.
        assert !Matches(r, s) by {
          if Has(r[0].cls, s[0]) {
            WellFormedClass(r, s[0]);
          }
        }
        assert StripSeparators(s) == StripSeparators(t);
        NoAdjacentTail(s);
        if Matches(r, t) {
          WellFormedClass(r, t[0]);
        }
        if |s| == 1 || !IsSeparator(s[1]) {
          SeparatorsAtDropSeparator(s, GapsFrom(r, k), k);
        }
      }
    }
  }

  // ---------------------------------------------------------------------------
  // What validity means.

  lemma EveryFormatListed(f: PlateFormat)
    ensures f in AllFormats
  {
  }

  /** A text matching format `f` keeps, once its separators are removed, exactly
      the seven characters that the layout of `f` asks for. */
  lemma FullMatchFits(f: PlateFormat, s: seq<char>)
    requires FullMatch(Regex(f), s)
    ensures Fits(Layout(f), StripSeparators(s))
    ensures |StripSeparators(s)| == 7
  {
    PatternFacts(f);
    if Matches(Regex(f), s) {
      MatchesIffShape(Regex(f), s, 0);
    } else {
      var s' := s[..|s| - 1];
      MatchesIffShape(Regex(f), s', 0);
      assert s == s' + ['\n'];
      StripSeparatorsAppend(s', ['\n']);
    }
  }

  /** On a text that does not end in a newline (every cleaned text), validity is
      exactly: some format's layout is met once separators are removed, and at most
      one space or hyphen stands at each of that format's group boundaries and
      nowhere else. */
  lemma ValidPlateShape(s: seq<char>)
    requires s == [] || s[|s| - 1] != '\n'
    ensures IsValidPlate(s) <==> exists f :: HasShape(f, s)
  {
    if IsValidPlate(s) {
      var f :| f in AllFormats && FullMatch(Regex(f), s);
      PatternFacts(f);
      MatchesIffShape(Regex(f), s, 0);
      assert HasShape(f, s);
    }
    if f :| HasShape(f, s) {
      PatternFacts(f);
      MatchesIffShape(Regex(f), s, 0);
      EveryFormatListed(f);
      assert FullMatch(Regex(f), s);
    }
  }

  /** Text with no plate character cleans to a text that is not a plate. */
  lemma NoPlateCharsIsInvalid(text: seq<char>)
    requires forall i | 0 <= i < |text| :: !IsPlateChar(ToUpper(text[i]))
    ensures CleanPlateText(text) == [] && !IsValidPlate(CleanPlateText(text))
  {
    CleanOfNoPlateChars(text);
    if IsValidPlate([]) {
      var f :| f in AllFormats && FullMatch(Regex(f), []);
      FullMatchFits(f, []);
    }
  }

  /** No text is a plate of two formats: the formats are mutually exclusive. */
  lemma FormatsDisjoint(f: PlateFormat, g: PlateFormat, s: seq<char>)
    requires FullMatch(Regex(f), s) && FullMatch(Regex(g), s)
    ensures f == g
  {
    FullMatchFits(f, s);
    FullMatchFits(g, s);
    var c := StripSeparators(s);
    assert Has(Layout(f)[0], c[0]) && Has(Layout(g)[0], c[0]);
    assert Has(Layout(f)[1], c[1]) && Has(Layout(g)[1], c[1]);
    assert Has(Layout(f)[2], c[2]) && Has(Layout(g)[2], c[2]);
  }
}
