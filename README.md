# Licence-plate recognizer: text normalizer, formats and candidate selection

This project models the logic part of `backend/app/recognizer.py`, the plate
recognizer of a small Flask service. It has four parts.

- **`clean_plate_text`** (module `PlateText`). It upper-cases the OCR text and
  deletes every character outside `A-Z 0-9 - space`. It then turns each run of
  whitespace into one space and trims both ends.
- **`PlateFormat` and `is_valid_plate`** (module `PlateFormats`). Each of the
  five formats is written out atom by atom, one atom per character class or
  optional separator `[\s\-]?`. A small matcher checks a text against them.
  Beside the expressions sits a reference description of each format: its
  seven-character layout and the positions where one separator may stand. The
  matcher is proved to agree with it for every well-formed pattern.
- **`format_plate`** (module `PlateFormatting`). It keeps the source's
  if/elif cascade and its slices, Python's `clean[2:]` included. Each format has
  a canonical form: its groups joined by single spaces.
- **The filter, sort and pick of `get_plate`** (module `Recognizer`). A
  `method` with a `for` loop builds the list of surviving candidates. The list
  is then sorted by a stable descending insertion sort (Python's `list.sort`
  with `reverse=True` is stable), and the method answers the head or the
  sentinel `"Placa no detectada"`. The OCR readings, the confidence threshold
  and whether an image was loaded are parameters.

A fifth module, `Scenarios`, works a few concrete texts through these parts:
an official plate, a hyphenated plate, a motorcycle plate and a selection in
which a reading below the threshold comes first.

Points worth knowing about the code:

- `clean_plate_text` keeps hyphens, because the class `[^A-Z0-9\- ]` at
  backend/app/recognizer.py:68 spares them. So `"ABC-12-34"` cleans to
  `"ABC-12-34"`, and only `format_plate` turns it into `"ABC 12 34"`
  (`Scenarios.HyphenatedClean`, `Scenarios.HyphenatedFormat`).
- The same class spares the space but not the other whitespace characters, so
  a tab between two words is deleted rather than collapsed: `"A\tB"` cleans to
  `"AB"`.
- `ANTIGUO` has the same value as `NUEVO`. Python's `Enum` therefore makes it
  an alias, so iterating over `PlateFormat` yields five members. The model has
  five formats; ANTIGUO is the format `Nuevo`.
- `re.match` with `^…$` and no MULTILINE flag also accepts one newline at the
  very end. `FullMatch` models this. Cleaned text never contains a newline, so
  the trailing-newline case matters only for `format_plate` on arbitrary input.
- `\s` and `str.strip()` use Python's Unicode whitespace set, which
  `IsWhitespace` spells out.

## Model

| member | source | states |
|---|---|---|
| PlateText.CleanIsClean | backend/app/recognizer.py:66-70 | The cleaned text holds only `A-Z`, `0-9`, `-` and space, does not start or end with a space, and never has two spaces in a row. |
| PlateText.CleanIdempotent | backend/app/recognizer.py:66-70 | Cleaning a cleaned text changes nothing. |
| PlateText.CleanFixesClean | backend/app/recognizer.py:66-70 | Every text of the clean shape is a fixed point of cleaning, so that shape is exactly the set of cleaning's outputs. |
| PlateText.CleanKeepsSymbols | backend/app/recognizer.py:66-70 | Ignoring blanks, the cleaned text holds exactly the letters, digits and hyphens of the upper-cased input, in their order. |
| PlateText.CleanOfNoPlateChars | backend/app/recognizer.py:66-70 | A text with no plate character once upper-cased cleans to the empty string. |
| PlateFormats.NoPlateCharsIsInvalid | backend/app/recognizer.py:66-74 | Such a text cleans to the empty string, which is not a valid plate. |
| PlateText.CollapseIsSingleSpaced | backend/app/recognizer.py:69 | After `sub(r"\s+", " ", …)` the only whitespace left is single spaces, never two whitespace characters in a row. |
| PlateText.CollapseCons | backend/app/recognizer.py:69 | A character other than whitespace passes through collapsing unchanged, in front of the collapsed rest. |
| PlateText.CollapseRun | backend/app/recognizer.py:69 | A whole run of whitespace becomes exactly one space, in front of the collapsed rest. With `CollapseCons` this fixes the result on every text. |
| PlateText.CollapseAppend | backend/app/recognizer.py:69 | Collapsing works piece by piece when the first piece does not end in whitespace. |
| PlateText.CollapseJoin | backend/app/recognizer.py:69 | Two single-spaced words with a run of whitespace between them collapse to the words joined by one space. |
| PlateText.CleanJoinsWithOneSpace | backend/app/recognizer.py:66-70 | Two clean words with any number of spaces between them clean to the words joined by exactly one space; the space is neither dropped nor doubled. |
| PlateText.CollapseKeepsPlateChars | backend/app/recognizer.py:68-69 | Collapsing whitespace in a text of plate characters leaves plate characters only. |
| PlateText.CollapseFixesSingleSpaced | backend/app/recognizer.py:69 | Collapsing whitespace changes nothing in a text that is already single-spaced. |
| PlateText.StripSingleSpacedIsClean | backend/app/recognizer.py:69 | Stripping a single-spaced text of plate characters gives a clean text. |
| PlateText.SymbolsOfCollapse | backend/app/recognizer.py:69 | Collapsing whitespace keeps every letter, digit and hyphen, in order. |
| PlateText.SymbolsOfKeep | backend/app/recognizer.py:68 | Deleting the characters outside the plate alphabet keeps every letter, digit and hyphen, in order. |
| PlateText.ToUpper | backend/app/recognizer.py:67 | Upper-casing turns each lower-case ASCII letter into its own capital (its position in `A-Z`), and leaves every other character unchanged. |
| PlateText.Upper | backend/app/recognizer.py:67 | `str.upper()` upper-cases each character in its place and keeps the length. |
| PlateText.KeepPlateChars | backend/app/recognizer.py:68 | The filtered text holds plate characters only. |
| PlateText.KeepAppend | backend/app/recognizer.py:68 | The filter works piece by piece. With `KeepFixesPlateChars` and `KeepDropsOthers` this says it keeps exactly the plate characters, spaces included, in order. |
| PlateText.KeepFixesPlateChars | backend/app/recognizer.py:68 | A text of plate characters passes the filter unchanged. |
| PlateText.KeepDropsOthers | backend/app/recognizer.py:68 | A text without plate characters is filtered to nothing. |
| PlateText.TrimStart | backend/app/recognizer.py:69 | Left stripping returns a suffix of the input that does not start with whitespace. |
| PlateText.TrimStartDropsWhitespace | backend/app/recognizer.py:69 | What left stripping drops is whitespace only. |
| PlateText.TrimEnd | backend/app/recognizer.py:69 | Right stripping returns a prefix of the input that does not end with whitespace. |
| PlateText.TrimEndDropsWhitespace | backend/app/recognizer.py:69 | What right stripping drops is whitespace only. |
| PlateFormats.PatternFacts | backend/app/recognizer.py:14-20 | Read as classes and gaps, each expression is its reference layout: seven character classes, with optional separators at that format's group boundaries. |
| PlateFormats.MatchesIffShape | backend/app/recognizer.py:14-20 | For every well-formed pattern, the matcher accepts a text if and only if three things hold. Without separators, the text fits the pattern's classes. No two separators are adjacent. Every separator stands at one of the pattern's gaps. |
| PlateFormats.ValidPlateShape | backend/app/recognizer.py:73-74 | A text without a trailing newline is a valid plate if and only if some format's layout is met once separators are removed, with at most one separator, a whitespace character or a hyphen, at each of that format's group boundaries and nowhere else. |
| PlateFormats.FullMatchFits | backend/app/recognizer.py:14-20 | A text matching a format has exactly seven non-separator characters, and they fit that format's layout. |
| PlateFormats.FormatsDisjoint | backend/app/recognizer.py:14-20 | No text matches two different formats. |
| PlateFormats.StripSeparatorsAppend | backend/app/recognizer.py:78 | Removing separators distributes over concatenation. |
| PlateFormatting.FormatOfFormat | backend/app/recognizer.py:77-92 | A text of format `f` takes the branch of `f` and comes out in the canonical form of `f`. The prefixed branches come before the generic seven-character branch that would also take them. |
| PlateFormatting.OnlyFormat | backend/app/recognizer.py:81-87 | A text of one format fails every other format's test, so exactly one branch of the cascade is meant for it. |
| PlateFormatting.FormatOutputShape | backend/app/recognizer.py:81-90 | A prefixed format gives prefix, space and five digits (length 8). The motorcycle format gives `L NN LL NN` (length 10). The new format gives `LLL NN NN` (length 9). Each shape holds if and only if the input is of that format. |
| PlateFormatting.FormatFallback | backend/app/recognizer.py:89-92 | A text matching none of the official, federal, diplomatic and motorcycle patterns becomes `LLL NN NN`-style groups of its content when that content is seven long, and otherwise its content with every separator removed. |
| PlateFormatting.FormatKeepsContent | backend/app/recognizer.py:78-92 | On every input, every branch and the fallback included, removing spaces and hyphens from the output gives what removing them from the input gives. |
| PlateFormatting.FormatValidPlate | backend/app/recognizer.py:77-92 | For a valid plate, the formatted text is clean and a fixed point of cleaning. It is still valid and keeps the content. Formatting it again changes nothing. |
| PlateFormatting.CanonicalOfLayout | backend/app/recognizer.py:82-90 | The canonical form of content that fits a format's layout is clean, matches that format and gives the content back once separators are removed. |
| PlateFormatting.CanonicalMatches | backend/app/recognizer.py:82-90 | Joining the groups by single spaces gives a text that the groups' pattern accepts. |
| PlateFormatting.CanonicalContent | backend/app/recognizer.py:82-90 | Removing separators from the canonical form gives back its content. |
| PlateFormatting.CanonicalClean | backend/app/recognizer.py:82-90 | The canonical form of letters and digits is a non-empty clean text. |
| PlateFormatting.GroupsFacts | backend/app/recognizer.py:14-20 | Each expression is its groups joined by optional separators. The groups' cells are the format's layout, seven wide. |
| PlateFormatting.StripSeparatorsLeavesNone | backend/app/recognizer.py:78 | `sub(r"[\s\-]", "", …)` leaves no space or hyphen. |
| PlateFormatting.StripSeparatorsFixes | backend/app/recognizer.py:78 | Removing separators from a text without them changes nothing. |
| Recognizer.Admitted | backend/app/recognizer.py:46-51 | The loop body's outcome for each reading, in input order. |
| Recognizer.SortDescSorted | backend/app/recognizer.py:54 | The sort yields a permutation of its input in descending order of confidence. |
| Recognizer.InsertPermutes | backend/app/recognizer.py:54 | Inserting into the sorted list adds exactly the new element. |
| Recognizer.InsertDescending | backend/app/recognizer.py:54 | Inserting into a descending list keeps it descending. |
| Recognizer.FirstBest | backend/app/recognizer.py:53-55 | The reference for the pick. There is none exactly when nothing survives. Otherwise it is a surviving position whose confidence no survivor exceeds, and every earlier survivor is strictly less confident. |
| Recognizer.SortHeadIsFirstBest | backend/app/recognizer.py:53-55 | The head of the stably sorted survivors is the first survivor of maximal confidence, and nothing survives exactly when there is no such survivor. |
| Recognizer.CandidateIsPlate | backend/app/recognizer.py:48-51 | The text a qualifying reading contributes is clean, valid and a fixed point of `format_plate`, and it is never the sentinel. |
| Recognizer.SentinelIffNothingQualifies | backend/app/recognizer.py:39-57 | The answer is the sentinel if and only if there is no image, or no reading both reaches the threshold and cleans to a valid plate. |
| Recognizer.FirstBestIsChosen | backend/app/recognizer.py:46-55 | The first best candidate comes from a qualifying reading. No qualifying reading is more confident, and every earlier qualifying reading is strictly less confident. |
| Recognizer.SelectPlateChoosesBest | backend/app/recognizer.py:46-55 | Any other answer is `format_plate(clean_plate_text(t))` for a qualifying reading of maximal confidence, the earliest such on ties. It is a clean, valid, formatted plate. |
| Recognizer.AboveThreshold | backend/app/recognizer.py:47 | A reading is kept by the threshold test if and only if it reaches the threshold. |
| Recognizer.AboveThresholdAppend | backend/app/recognizer.py:47 | The threshold filter works piece by piece, so it keeps the readings in their order. |
| Recognizer.SurvivorsAboveThreshold | backend/app/recognizer.py:46-51 | Dropping the readings below the threshold leaves the surviving candidates unchanged. |
| Recognizer.SameAboveSameAnswer | backend/app/recognizer.py:46-57 | Two reading lists whose readings at or above the threshold are the same, in the same order, get the same answer. |
| Recognizer.BelowThresholdIrrelevant | backend/app/recognizer.py:46-57 | Readings below the threshold never affect the answer. |
| Recognizer.ProcessReading | backend/app/recognizer.py:47-51 | One pass of the loop body yields a candidate exactly when the reading qualifies, and that candidate is the formatted clean text with the reading's confidence. |
| Recognizer.SurvivorsStep | backend/app/recognizer.py:46-51 | Each further reading appends its candidate, if any, to the survivors so far. |
| Recognizer.GetPlate | backend/app/recognizer.py:36-57 | The loop, sort and pick answer exactly `SelectPlate`, the value the lemmas above describe. |
| Scenarios.OficialClean | backend/app/recognizer.py:66-70 | `"go12345"` cleans to `"GO12345"`. |
| Scenarios.OficialFormat | backend/app/recognizer.py:77-92 | `"GO12345"` is valid and formats as `"GO 12345"`. |
| Scenarios.HyphenatedClean | backend/app/recognizer.py:66-70 | `"ABC-12-34"` is already clean: the hyphens stay. |
| Scenarios.HyphenatedValid | backend/app/recognizer.py:73-74 | `"ABC-12-34"` matches the new format, its hyphens standing at group boundaries. |
| Scenarios.HyphenatedFormat | backend/app/recognizer.py:77-92 | `"ABC-12-34"` formats as `"ABC 12 34"`. |
| Scenarios.MotorcycleFormat | backend/app/recognizer.py:77-92 | `"A12BC34"` is valid and formats as `"A 12 BC 34"`. |
| Scenarios.NuevoAdmitted | backend/app/recognizer.py:47-51 | A reading of `"ABC1234"` with confidence 0.9 at threshold 0.4 yields the candidate `"ABC 12 34"`. |
| Scenarios.SelectionExample | backend/app/recognizer.py:36-57 | Of `"xyz999"` at 0.3 followed by `"ABC1234"` at 0.9, threshold 0.4, the answer is `"ABC 12 34"`. |

## Left out

- The EasyOCR reader, `readtext` and the lazily created global `OCR_READER` (backend/app/recognizer.py:29-33, 43) are a foreign library and process-global state. The readings are a parameter.
- `load_image` and `cv2.imread` (backend/app/recognizer.py:60-63) are image I/O. Whether an image was loaded is a boolean parameter.
- `config.ocr.confidence_threshold` is a parameter. The configuration loader is not part of this model.
- The bounding box of each reading is never used by the source and is dropped.
- The Flask routes, the e-mail service, the configuration mapper, the start-up script and the plain data classes are not part of this model.
- Confidences are `real`. Floating-point rounding and NaN are not modelled, since the source only compares confidences with `>=` and sorts them.
- PlateText.ToUpper: upper-cases ASCII letters only. Python's Unicode case mapping also turns a few non-ASCII characters into ASCII letters (for example `ı` to `I` and `ß` to `SS`), and that is not modelled.
- The in-place `list.sort` is modelled as reassigning the list with the value of a stable insertion sort. Its stability is stated through its effect on the head of the list, which is the only element the source reads.
- Recognizer.SortDescSorted: states that the result is descending and a permutation. Stability is stated separately by `SortHeadIsFirstBest` and only for the head.
