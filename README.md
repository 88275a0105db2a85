# Dependency versions, constraints and requirements of pypackage, in Dafny

This project models the dependency-description core of pypackage, a Python
package manager written in Rust:

- **Versions** (`src/dep_types.rs`): the `VersionModifier` tags and their rank,
  `Version` with its constructors, its three plain renderings, the parser of
  version text (`*` read as `0`), and the ordering.
- **Constraints** (`src/dep_types.rs`): the eight requirement operators, a
  `Constraint` with its parser, its comma-separated list parser and its plain
  rendering. It also covers the reading of wheel Python tags (`cp37`, `py2.py3`,
  `any`), the inclusive ranges a constraint admits (`compatible_range`), and the
  direct membership test (`is_compatible`).
- **Ranges** (`src/dep_types.rs`): pairwise intersection of range lists, and the
  fold of many constraints into one range (`intersection_many`).
- **Requirements** (`src/dep_types.rs`): the `Req` record and its two text
  dialects, the manifest's `name = "constraints"` and the package index's
  `name (constraints) ; markers`. It also covers the scan of environment markers
  (`parse_extras`), the pip form `name>=1.2`, and the manifest line written for a
  requirement (`to_cfg_string`).
- **Names and merging** (`src/util.rs`): package-name normalisation and
  comparison, and `merge_reqs`. `merge_reqs` reads the requirements given on the
  command line, drops those already listed, gives caret constraints to those
  without any, and merges the rest into the manifest's list.
- **Python literals** (`src/build.rs`): the list and dictionary writers used for
  the generated `setup.py`.

Each regular expression is re-expressed as a deterministic scanner that makes the
choices the leftmost-first regex engine makes. Examples are the greedy digit runs
with optional dots of the version pattern, the lazy `(.*?)` groups, and the
`captures_iter` loop over markers. Each scanner is then proved to read back what
the renderings write. The version pattern and the requirement patterns are also
proved to accept exactly the texts laid out as their groups, with what they
capture putting the text back together.

Two things stay outside the model and are passed in as function parameters:

- the operating-system type of `sys_platform` markers, a type parameter `Os`
  with a parser `osFromStr`;
- the package index's "latest version of a package", a function `latest`.

`Version::cmp` as written is not a total order (see Findings). The model keeps
that comparison as `CmpAsWritten` and uses the evidently intended one (`Cmp`)
everywhere else.

`is_compatible` (src/dep_types.rs:566-599) and the ranges of
`compatible_range` (src/dep_types.rs:478-564) do not admit the same versions.
They differ in four ways:

- the tilde range includes its base version, which `is_compatible` rejects;
- `<0.0.0` and `!=0.0.0` admit 0.0.0 through the clamped decrement;
- range bounds are built with `Version::new`, so they drop modifiers;
- `is_compatible` tests `==` and `!=` by structural equality, while the
  ranges compare by order, under which 1.0.0 and 1.0.0.0 are equal.

`ConstraintProofs.CompatibleRangeAgreement` proves that, on constraints whose
version has no extra number and no modifier, the two agree except in the first
two ways. `ConstraintProofs.CompatibleRangeExceptions` shows that the first,
second and fourth ways happen, and `ConstraintProofs.RangeDropsModifier` shows
the third.

`intersection_many([!=5.1.3])` is the full range, because `intersection_many`
replaces every `!=` by the full range (`RangeProofs.OnlyNotEquals`). The
two-range answer of test `compat_rng` comes from `compatible_range`.

## Model

| member | source | states |
|---|---|---|
| Prim.Collect | src/dep_types.rs:402-410 | collecting results in order yields as many values as inputs when it succeeds |
| Prim.CollectOk | src/dep_types.rs:402-410 | the loop that returns on the first `Err` succeeds iff every element is `Ok`, and then yields their values in order |
| Prim.CollectFirstError | src/dep_types.rs:404-408 | a failing collection reports the error of the first failing element, all earlier ones being `Ok` |
| Prim.CollectStopsAtError | src/dep_types.rs:404-408 | an error among the first k elements decides the result; later elements are never looked at |
| Text.ParseU32 | src/dep_types.rs:201-219 | `parse::<u32>` on a digit run fails exactly when its decimal value exceeds 2^32-1, and otherwise yields that value |
| Text.DecimalRoundTrip | src/dep_types.rs:184-188 | a rendered number has the decimal value it renders |
| Text.DigitsLen | src/dep_types.rs:198 | a greedy `\d+` takes only digits and stops before the first non-digit |
| Text.ReplaceChar | src/dep_types.rs:196 | `replace("*", "0")` keeps the length and changes exactly the stars |
| Text.RemoveChar | src/dep_types.rs:403 | `replace(" ", "")` leaves no space, and leaves a space-free text unchanged |
| Text.RemoveCharCounts | src/dep_types.rs:403 | every other character is kept, as often as it occurs |
| Text.Split | src/dep_types.rs:404 | `split(',')` yields at least one part and no part holds the separator |
| Text.SpacesLenPrefix | src/dep_types.rs:756 | a greedy `\s*` takes only spaces and stops before the first other character |
| Text.SpacesLenAtLeast | src/dep_types.rs:756 | a greedy `\s*` takes at least every space at the front |
| Text.SplitJoin | src/dep_types.rs:404 | splitting a join on a separator no part contains gives the parts back |
| Text.ToLower | src/util.rs:287 | lower-casing keeps the length and maps each character on its own |
| Versions.ModifierFromStr | src/dep_types.rs:75-88 | a parsed modifier is never `Null`; any other text fails with "Problem parsing version modifier" |
| Versions.ModifierRoundTrip | src/dep_types.rs:75-100 | parsing the rendering of a modifier gives it back, and only its own rendering parses to it |
| Versions.OrderValInjective | src/dep_types.rs:102-118 | the ranks order the modifiers dep < a < b < rc < none, and distinct modifiers have distinct ranks, so the modifier order is total |
| Versions.New | src/dep_types.rs:137-146 | `Version::new` sets the three components and no extra number or modifier |
| Versions.NewShort | src/dep_types.rs:148-156 | `new_short` is `new` with patch 0 |
| Versions.MatchTag | src/dep_types.rs:198 | the modifier group matches an empty rest, or a known tag followed by digits up to the end |
| Versions.MatchVersion | src/dep_types.rs:198 | a match of the version pattern captures a non-empty digit run as major and digit runs in the optional groups, and the text is exactly those captures in order with an optional dot before each optional number |
| Versions.FromCaptures | src/dep_types.rs:199-235 | captured numbers become a valid version; an overflowing number is the "Pare int error" error |
| Versions.VersionFromStr | src/dep_types.rs:191-242 | a parsed version is valid; a failure is the overflow error or "Problem parsing version: " with the starred text read with zeros |
| VersionGrammar.MatchedIsPattern | src/dep_types.rs:198 | every text the scanner accepts is laid out as the pattern's groups: digits, optional dots and digit runs, an optional `a`/`b`/`rc`/`dep` tag with its number |
| VersionGrammar.PatternInGrammar | src/dep_types.rs:198 | every text with the pattern's layout starts with a digit, has only digits and at most three dots before an optional tag, and ends the tag with digits |
| VersionGrammar.GrammarMatched | src/dep_types.rs:198 | every such text is accepted by the scanner |
| VersionGrammar.MatchVersionExact | src/dep_types.rs:198 | the scanner accepts a text iff the pattern matches it, iff it has that character-level shape |
| VersionGrammar.VersionFromStrExact | src/dep_types.rs:191-242 | with `*` read as `0`, parsing yields a version or the overflow error exactly on version text, and "Problem parsing version: " with the text on everything else |
| VersionGrammar.GrammarDots | src/dep_types.rs:198 | version text holds at most three dots |
| VersionGrammar.TooManyDots | src/dep_types.rs:198 | text with four or more dots is never version text |
| VersionGrammar.EndsWithDigitOrDot | src/dep_types.rs:198 | version text ends with a digit or a dot, so a tag without its number is refused |
| VersionGrammar.FifthNumberRejected | src/dep_types.rs:196-241 | "1.2.3.4.5" is a "Problem parsing version" error |
| VersionGrammar.BareTagRejected | src/dep_types.rs:196-241 | "1.2a" is a "Problem parsing version" error |
| Versions.ToStringShort | src/dep_types.rs:163-181 | `to_string_short` writes major, then the extra number and the tag; the round trip is VersionProofs.ParseToStringShort |
| Versions.ToStringMed | src/dep_types.rs:163-176 | `to_string_med` writes major.minor, then the extra number and the tag; the round trip is VersionProofs.ParseToStringMed |
| Versions.ToString2 | src/dep_types.rs:163-188 | `to_string2` writes major.minor.patch, then the extra number and the tag; the round trip is VersionProofs.ParseToString2 |
| Versions.CmpAsWritten | src/dep_types.rs:244-266 | `Version::cmp` as written; how it departs from the order is stated by VersionProofs.CmpAsWrittenAgrees and CmpAsWrittenNotTransitive |
| Versions.Cmp | src/dep_types.rs:244-266 | the comparison the rest of the model uses; that it is a total order is stated by VersionProofs.CmpReflexive, CmpFlip, CmpTransitive and CmpTotal |
| VersionProofs.CmpReflexive | src/dep_types.rs:244-266 | every version compares `Equal` to itself |
| VersionProofs.CmpFlip | src/dep_types.rs:244-266 | swapping the arguments flips the ordering |
| VersionProofs.CmpTransitive | src/dep_types.rs:244-266 | the (intended) ordering is transitive, for both `<=` and `<` |
| VersionProofs.CmpTotal | src/dep_types.rs:244-266 | any two versions are ordered one way or the other |
| VersionProofs.CmpEqualIffSameKey | src/dep_types.rs:244-266 | two versions compare `Equal` iff their components agree, a missing extra number counting as 0 and a missing modifier as the highest rank |
| VersionProofs.PlainCmpEqualIsEquality | src/dep_types.rs:137-146 | among versions built by `new`, `Equal` is structural equality |
| VersionProofs.CmpEqualIsNotEquality | src/dep_types.rs:244-266 | in general it is not: 1.0.0 and 1.0.0.0 differ but compare `Equal` |
| VersionProofs.ReleaseAbovePreRelease | src/dep_types.rs:102-118 | a final release ranks above every pre-release or dep build with the same numbers |
| VersionProofs.ModifierRanking | src/dep_types.rs:102-118 | with the same numbers, rc > b > a > dep |
| VersionProofs.OrderingExamples | src/dep_types.rs:1312-1368 | the orderings of tests `version_ordering` and `version_ordering_modded` |
| VersionProofs.CmpAsWrittenAgrees | src/dep_types.rs:244-266 | the written comparison equals the intended one unless one extra number is missing and the other is 0 |
| VersionProofs.CmpAsWrittenNotTransitive | src/dep_types.rs:244-266 | the written comparison has 1.0.0rc1 = 1.0.0.0a1 = 1.0.0b1 but 1.0.0rc1 > 1.0.0b1 |
| VersionProofs.ParseToString2 | src/dep_types.rs:163-242 | the full rendering `major.minor.patch[.extra][tag num]` parses back to the same version |
| VersionProofs.ParseToStringMed | src/dep_types.rs:172-176 | the `major.minor` rendering parses back when patch is 0 and there is no extra number |
| VersionProofs.ParseToStringShort | src/dep_types.rs:177-181 | the `major` rendering parses back when minor and patch are 0 and there is no extra number |
| VersionProofs.ParseBareNumber | src/dep_types.rs:191-242 | a bare number is that major version, or the overflow error above 2^32-1 (no wrap-around) |
| VersionProofs.ParseWildcards | src/dep_types.rs:195-196 | text whose stars read as zeros give a full rendering parses to that version |
| VersionProofs.ParseDottedModifier | src/dep_types.rs:198 | a dot between the patch and the modifier is accepted, and the modifier is still read |
| VersionProofs.ParseExample1 | src/dep_types.rs:979-985 | test `version_parse`: 3.12.5 |
| VersionProofs.ParseExample2 | src/dep_types.rs:979-985 | test `version_parse`: 3.7 is 3.7.0 |
| VersionProofs.ParseWildcardExample | src/dep_types.rs:987-992 | test `version_parse_w_wildcard`: 1.*.* is 1.0.0 |
| VersionProofs.ParseModifierExample1 | src/dep_types.rs:994-1039 | test `version_parse_w_modifiers`: 19.3b0 |
| VersionProofs.ParseModifierExample2 | src/dep_types.rs:994-1039 | test `version_parse_w_modifiers`: 5.2.5.11b3 |
| VersionProofs.ParseExtraExample | src/dep_types.rs:994-1039 | test `version_parse_w_modifiers`: 1.3.5.11 |
| VersionProofs.ParseErrorExample | src/dep_types.rs:1041-1049 | test `bad_version`: 3-7 fails and the error names it |
| VersionProofs.ParseDotModifierExample | src/dep_types.rs:1051-1091 | test `constraint_w_modifier`: 1.3.32.dep1 |
| Constraints.ReqTypeFromStr | src/dep_types.rs:339-355 | an unknown operator fails with "Problem parsing ReqType" |
| Constraints.OperatorLen | src/dep_types.rs:373 | the operator the alternation takes is at most two characters and is a known operator |
| Constraints.ConstraintFromStr | src/dep_types.rs:365-392 | a parsed constraint carries a valid version |
| Constraints.WithType | src/dep_types.rs:381-390 | the constraint exists iff its version parsed, and otherwise carries the version's error |
| Constraints.ParseEach | src/dep_types.rs:404-405 | one result per part, each the parse of that part |
| Constraints.FromStrMultiple | src/dep_types.rs:401-411 | the loop yields the parse of every comma-separated part of the space-free text, stopping at the first error |
| Constraints.FromWheelPyVers | src/dep_types.rs:419-456 | `from_wh_py_vers` as a value; Constraints.FromWhPyVers computes it with the source's loop, and ConstraintProofs.WheelTagsAllMatch states what it reads |
| Constraints.WheelTag | src/dep_types.rs:429-451 | a matching tag gives a plain version under `==`, `<=` or `>=` |
| Constraints.WheelTags | src/dep_types.rs:428-453 | at most one constraint per part, each `==`, `<=` or `>=` |
| Constraints.FromWhPyVers | src/dep_types.rs:419-456 | never fails, and gives no more constraints than dot-separated parts |
| Constraints.SafelySubtract | src/dep_types.rs:483-503 | 0.0.0 stays 0.0.0; any other version steps to a strictly smaller one |
| Constraints.CompatibleRange | src/dep_types.rs:478-564 | two ranges for `!=`, one for every other operator |
| Constraints.ConstraintToString | src/dep_types.rs:458-474 | operator (none for `==` when omitted), `=` after `^`/`~` in pip style, then the full version; ConstraintProofs.ParseToString reads it back |
| Constraints.IsCompatible | src/dep_types.rs:566-599 | a version without a modifier admitted by `^` or `~` keeps the major number; it keeps the minor one too under `^0.x` and under `~` with a non-zero minor, and under `^0.0.x` its patch is x or x + 1 |
| ConstraintProofs.ReqTypeRoundTrip | src/dep_types.rs:323-355 | every operator's rendering parses back to it |
| ConstraintProofs.ReqTypeFromStrOnlyOperators | src/dep_types.rs:339-355 | only the eight operator spellings parse |
| ConstraintProofs.RenderingShape | src/dep_types.rs:184-188 | a rendered version starts with a digit and holds no line feed, space, comma or `)` |
| ConstraintProofs.ParseWithOperator | src/dep_types.rs:368-390 | an operator before digit-led text is taken whole and the rest is read as the version |
| ConstraintProofs.ParseWithoutOperator | src/dep_types.rs:381-384 | without an operator the constraint is `==` |
| ConstraintProofs.ParseToString | src/dep_types.rs:458-474 | the plain rendering, with or without `==`, parses back to the same constraint |
| ConstraintProofs.ParseOperatorFull | src/dep_types.rs:365-392 | an operator followed by a full version rendering parses to that constraint |
| ConstraintProofs.ParseOperatorMed | src/dep_types.rs:365-392 | the same for the `major.minor` rendering when patch is 0 |
| ConstraintProofs.EqualsAfterOperator | src/dep_types.rs:373 | `^=` or `~=` followed by anything does not parse |
| ConstraintProofs.PipStyleDoesNotParse | src/dep_types.rs:458-474 | the pip-style rendering of `^` and `~` is not read back by the parser |
| ConstraintProofs.ParseAllOk | src/dep_types.rs:401-411 | the list parses iff every part does, keeping their order |
| ConstraintProofs.ParseAllFirstError | src/dep_types.rs:404-408 | a failing list reports the error of its first bad part |
| ConstraintProofs.ParseAllValues | src/dep_types.rs:401-411 | parts that parse one by one parse as a list to the same constraints |
| ConstraintProofs.PlainLessThan | src/dep_types.rs:244-266 | among plain versions, `<` is lexicographic on major, minor, patch |
| ConstraintProofs.DecrementIsPredecessor | src/dep_types.rs:483-503 | below a non-zero version, the safe decrement is its predecessor among bounded plain versions |
| ConstraintProofs.CompatibleRangeAgreement | src/dep_types.rs:478-599 | a bounded version lies in the ranges iff `is_compatible` accepts it, except the tilde base and 0.0.0 under `<0.0.0`/`!=0.0.0` |
| ConstraintProofs.OneRangeAgreement | src/dep_types.rs:508-518 | for `==`, `>=`, `<=`, `>` the range and the direct test agree exactly |
| ConstraintProofs.LtAgreement | src/dep_types.rs:519-523 | for `<` they agree except at 0.0.0 under `<0.0.0` |
| ConstraintProofs.NeAgreement | src/dep_types.rs:524-538 | for `!=` the two ranges and the direct test agree except at 0.0.0 under `!=0.0.0` |
| ConstraintProofs.CaretAgreement | src/dep_types.rs:540-551 | for `^` the range and the direct test agree exactly |
| ConstraintProofs.TildeAgreement | src/dep_types.rs:554-562 | for `~` they agree except at the base version |
| ConstraintProofs.CompatibleRangeExceptions | src/dep_types.rs:478-599 | the ranges admit the tilde base, 0.0.0 under `<0.0.0`/`!=0.0.0`, and under `==v` any version ordered equal to v, all of which `is_compatible` rejects; under `!=v` they reject a version ordered equal to but different from v, which `is_compatible` admits |
| ConstraintProofs.RangeDropsModifier | src/dep_types.rs:511-518 | `>1.2.3rc1` admits 1.2.3 directly but its range starts at 1.2.4 |
| ConstraintProofs.StructuralExactExample | src/dep_types.rs:571 | `==1.0.0.0` rejects 1.0.0 directly, while its range admits it |
| ConstraintProofs.CaretAdmitsBoundPreRelease | src/dep_types.rs:577-587 | `^1.2.3` admits 2.0.0a1, a pre-release of its exclusive bound |
| ConstraintProofs.AsWrittenGreaterThanDiffers | src/dep_types.rs:244-266 | with `cmp` as written 1.0.0.0a1 equals 1.0.0rc1, so the source's `>1.0.0.0a1` (`is_compatible`, src/dep_types.rs:574) rejects 1.0.0rc1; the model admits it |
| ConstraintProofs.CaretExamples | src/dep_types.rs:944-961 | test `compat_caret` |
| ConstraintProofs.CaretZeroZeroAdmitsNext | src/dep_types.rs:944-961 | `^0.0.3` admits 0.0.4 (the test's commented-out assertion would fail) |
| ConstraintProofs.GtEqExamples | src/dep_types.rs:963-977 | test `compat_gt_eq` |
| ConstraintProofs.CompatibleRangeExamples | src/dep_types.rs:1370-1382 | test `compat_rng` |
| ConstraintProofs.DecrementExamples | src/dep_types.rs:483-503 | the rollovers of the safe decrement |
| ConstraintProofs.SplitMultipleExample | src/dep_types.rs:1093-1106 | test `constraint_multiple`: the text splits into its five parts |
| ConstraintProofs.FromStrMultipleExample | src/dep_types.rs:1093-1106 | test `constraint_multiple`: the five constraints |
| ConstraintProofs.ModifierConstraintExample1 | src/dep_types.rs:1051-1091 | test `constraint_w_modifier`: `!=2.3b3` |
| ConstraintProofs.ModifierConstraintExample2 | src/dep_types.rs:1051-1091 | test `constraint_w_modifier`: `^1.3.32rc1` |
| ConstraintProofs.ModifierConstraintExample3 | src/dep_types.rs:1051-1091 | test `constraint_w_modifier`: `^1.3.32.dep1` |
| ConstraintProofs.ConstraintParseExample1 | src/dep_types.rs:1108-1130 | test `constraint_to_string`: `!=2.3` |
| ConstraintProofs.ConstraintParseExample2 | src/dep_types.rs:1108-1130 | test `constraint_to_string`: `~2.3` |
| ConstraintProofs.ConstraintParseExample3 | src/dep_types.rs:1108-1130 | test `constraint_to_string`: `==5` |
| ConstraintProofs.ConstraintParseExample4 | src/dep_types.rs:1108-1130 | test `constraint_to_string`: `<=11.2.3` |
| ConstraintProofs.ConstraintParseExample5 | src/dep_types.rs:1108-1130 | test `constraint_to_string`: `>=0.0.1` |
| ConstraintProofs.ConstraintStarExample | src/dep_types.rs:369-371 | a bare `*` is `>= 0.0.0` |
| ConstraintProofs.NotAVersion | src/dep_types.rs:191-242 | text that starts with neither a digit nor `*` is not a version |
| ConstraintProofs.WheelTagList | src/dep_types.rs:419-456 | text that is neither "any" nor a version is read tag by tag |
| ConstraintProofs.TagMajorMinor | src/dep_types.rs:433-442 | a prefixed major and minor digit is that exact version |
| ConstraintProofs.TagMajor | src/dep_types.rs:444-450 | a lone 2 is `<= 2.10`, a lone 3 or 4 is `>= 3.0` |
| ConstraintProofs.WheelTagsAllMatch | src/dep_types.rs:432-453 | when every part is a tag, none is dropped and the order is kept |
| ConstraintProofs.WheelExample1 | src/dep_types.rs:1493-1527 | test `python_version_from_warehouse`: py3 |
| ConstraintProofs.WheelExample2 | src/dep_types.rs:1493-1527 | test `python_version_from_warehouse`: cp35.cp36.cp37.cp38 |
| ConstraintProofs.WheelExample3 | src/dep_types.rs:1493-1527 | test `python_version_from_warehouse`: cp26 and pp36 |
| ConstraintProofs.WheelExample4 | src/dep_types.rs:1493-1527 | test `python_version_from_warehouse`: py2.py3 |
| ConstraintProofs.WheelExample5 | src/dep_types.rs:1493-1527 | test `python_version_from_warehouse`: any |
| ConstraintProofs.WheelExample6 | src/dep_types.rs:1493-1527 | test `python_version_from_warehouse`: 2.7 |
| Ranges.MaxV | src/dep_types.rs:659 | `cmp::max` returns one of its arguments, at least both of them, and the second on a tie |
| Ranges.MinV | src/dep_types.rs:659 | `cmp::min` returns one of its arguments, at most both of them, and the first on a tie |
| Ranges.Overlap | src/dep_types.rs:658 | the overlap test as written; RangeProofs.OverlapIff relates it to the usual one |
| Ranges.Meet | src/dep_types.rs:659 | the pushed range takes its bounds from the two ranges, its minimum at least both minima and its maximum at most both maxima |
| Ranges.Intersect | src/dep_types.rs:649-664 | what `intersection` returns; Ranges.Intersection computes it with the loops, and RangeProofs.IntersectMembership states its meaning |
| Ranges.IntersectionMany2 | src/dep_types.rs:639-645 | the fold from the full range; RangeProofs.IntersectionMany2Membership and IntersectionMany2Exact state its meaning |
| Ranges.Intersection | src/dep_types.rs:649-664 | the nested loops push, in order, the meet of every overlapping pair |
| Ranges.Contributions | src/dep_types.rs:617-632 | one range per constraint: the full range for `!=`, its single compatible range otherwise |
| Ranges.IntersectionMany | src/dep_types.rs:608-635 | the loop collects the contributions and folds them from the full range |
| RangeProofs.MaxVBounds | src/dep_types.rs:659 | `cmp::max` is one of its arguments and is below a version iff both are |
| RangeProofs.MinVBounds | src/dep_types.rs:659 | `cmp::min` is one of its arguments and is above a version iff both are |
| RangeProofs.AsWrittenMaxMinDiffer | src/dep_types.rs:244-266 | with `cmp` as written 1.0.0rc1 equals 1.0.0.0a1, so the source's max and min (src/dep_types.rs:659) pick 1.0.0.0a1 and 1.0.0rc1; the model picks the other way round |
| RangeProofs.OverlapIff | src/dep_types.rs:658 | the overlap test is the usual one on inclusive ranges |
| RangeProofs.MeetMembership | src/dep_types.rs:658-659 | a version is in the meet iff it is in both ranges |
| RangeProofs.CommonMemberOverlaps | src/dep_types.rs:658 | two ranges with a common version pass the overlap test |
| RangeProofs.RowMembership | src/dep_types.rs:656-661 | the inner loop's output holds a version iff `rng1` and some range of the list hold it |
| RangeProofs.IntersectMembership | src/dep_types.rs:649-664 | `intersection` is "and": a version is in the result iff it is in some range of each list |
| RangeProofs.IntersectLength | src/dep_types.rs:649-664 | at most one range per pair |
| RangeProofs.MeetInside | src/dep_types.rs:658-659 | the meet of overlapping well-formed ranges is well formed and inside both |
| RangeProofs.IntersectInside | src/dep_types.rs:649-664 | every range of the result is well formed and inside a range of each list |
| RangeProofs.IntersectionMany2AtMostOne | src/dep_types.rs:639-645 | the fold yields at most one range |
| RangeProofs.IntersectionMany2Membership | src/dep_types.rs:639-645 | the fold admits a version iff the full range and every input range do |
| RangeProofs.IntersectionMany2OrderFree | src/dep_types.rs:639-645 | reordering the ranges does not change which versions are admitted |
| RangeProofs.IntersectionMany2Exact | src/dep_types.rs:639-645 | for well-formed ranges the fold is the range from the largest lower to the smallest upper bound, or empty when those cross |
| RangeProofs.IntersectionManyMembership | src/dep_types.rs:608-635 | `!=` constraints never narrow the result; every other constraint's range must hold |
| RangeProofs.IntersectionManyAtMostOne | src/dep_types.rs:608-635 | `intersection_many` gives at most one range |
| RangeProofs.OnlyNotEquals | src/dep_types.rs:621-626 | `!=` constraints alone give the full range |
| RangeProofs.IntersectionManyCompatible | src/dep_types.rs:608-635 | for plain constraints, the result admits a bounded version iff every non-`!=` constraint's `is_compatible` accepts it, except the tilde base and `<0.0.0` |
| RangeProofs.IntersectionExamples | src/dep_types.rs:1400-1449 | tests `intersections_simple` and `intersection_contained` |
| RangeProofs.IntersectionManyEmptyExample1 | src/dep_types.rs:1384-1398 | test `intersections_empty`: `==4.9.4, >=4.9.7` |
| RangeProofs.IntersectionManyEmptyExample2 | src/dep_types.rs:1384-1398 | test `intersections_empty`: `<=4.9.6, >=4.9.7` |
| RangeProofs.IntersectionManyExample1 | src/dep_types.rs:1419-1438 | test `intersections_simple_many` |
| RangeProofs.IntersectionManyExample2 | src/dep_types.rs:1419-1438 | test `intersections_simple_many` |
| RangeProofs.IntersectionManyExample3 | src/dep_types.rs:1451-1463 | test `intersection_contained_many` |
| RangeProofs.IntersectionManyNotEqualExample | src/dep_types.rs:1465-1479 | test `intersection_contained_many_w_ne`: the `!=` constraints are ignored |
| Reqs.KeyAt | src/dep_types.rs:683 | the marker key taken is one the text starts with, and none is taken iff it starts with none |
| Reqs.QuotedLen | src/dep_types.rs:683 | the lazy value ends at a quote |
| Reqs.MarkerAt | src/dep_types.rs:683 | a marker match is non-empty and within the text |
| Reqs.MarkerAfterKey | src/dep_types.rs:683 | operator and value positions are ordered and inside the text |
| Reqs.Markers | src/dep_types.rs:683-687 | the `captures_iter` loop; ReqProofs.MarkerAtLayout and MarkersSkip state what it finds and skips |
| Reqs.LastOf | src/dep_types.rs:687-715 | the marker found has the key asked for and is one of the matches |
| Reqs.ExtrasOfStep | src/dep_types.rs:687-715 | each match overwrites the field of its own key and keeps the other two |
| Reqs.ParseExtras | src/dep_types.rs:667-724 | the loop leaves each field with the value of the last match of its key, or none |
| Reqs.NameLen | src/dep_types.rs:756 | the name group takes only name characters and stops before the first other one |
| Reqs.MarkerTail | src/dep_types.rs:756 | the marker tail matches the empty rest with no clause, and a clause without line feeds after `;` |
| Reqs.MarkerTailLayout | src/dep_types.rs:756 | an accepted tail is nothing, or spaces, `;`, spaces and the clause |
| Reqs.CloseParen | src/dep_types.rs:756 | the lazy constraint group ends at a `)` with no line feed before it, after which the tail matches with the clause returned |
| Reqs.MatchIndexReq | src/dep_types.rs:756 | an index-dialect match is the name, at least one space, `(`, the constraint text, `)` and the tail of its clause, put back together |
| Reqs.QuotedValue | src/dep_types.rs:760 | the quoted constraint text holds no line feed |
| Reqs.QuotedValueLayout | src/dep_types.rs:760 | an accepted rest is spaces, `=`, spaces, a quote, the value and a quote |
| Reqs.ManifestNameLen | src/dep_types.rs:760 | the lazy name ends where the rest of the pattern first matches |
| Reqs.MatchManifestReq | src/dep_types.rs:760 | a manifest-dialect match is a name without line feeds followed by spaces, `=`, spaces and the quoted value, put back together, with no clause |
| Reqs.MatchBareName | src/dep_types.rs:782-788 | a bare-name match is a non-empty name followed by the tail of its clause in the index dialect, and the whole text in the manifest dialect |
| Reqs.ReqFromStr | src/dep_types.rs:748-806 | a parsed requirement has no install extras and only valid versions |
| Reqs.ParsedVersionsValid | src/dep_types.rs:767 | the constraint list read from a requirement carries valid versions |
| Reqs.FirstOperator | src/dep_types.rs:820 | the lazy pip name ends at the first position where an operator starts |
| Reqs.FromPipStr | src/dep_types.rs:809-833 | a pip requirement carries at most one constraint |
| Reqs.ToCfgString | src/dep_types.rs:836-862 | the manifest line `name = "constraints"`; ReqProofs.ToCfgStringParses reads it back |
| Reqs.Renderings | src/dep_types.rs:855-859 | each constraint is rendered without `==`, in order |
| ReqProofs.LastOfIsLast | src/dep_types.rs:687-715 | the value kept for a key comes from its last match, and none is kept iff no match has the key |
| ReqProofs.MarkerAtLayout | src/dep_types.rs:683 | key, spaces, operator, spaces and a quoted value are read as that key, operator and value |
| ReqProofs.MarkersSkip | src/dep_types.rs:687 | no match starts where the text has no `e`, `s` or `p` |
| ReqProofs.IndexLine | src/dep_types.rs:756 | `name (constraints)` plus a tail is read back as that name, text and clause |
| ReqProofs.ManifestLine | src/dep_types.rs:760 | `name = "value"` is read back as that name and value |
| ReqProofs.BareNameReq | src/dep_types.rs:782-801 | a bare name is a requirement without constraints or markers, in both dialects |
| ReqProofs.ManifestNeedsQuotes | src/dep_types.rs:802-805 | a manifest line without quotes that is not a bare name fails, naming the line |
| ReqProofs.ClauseLayoutAccepted | src/dep_types.rs:756 | the tail pattern accepts every tail laid out as a clause |
| ReqProofs.CloseParenReaches | src/dep_types.rs:756 | the lazy group finds a `)` whenever one with an accepted tail follows and no line feed comes before it |
| ReqProofs.IndexLayoutMatched | src/dep_types.rs:756 | the index pattern matches every line with its layout |
| ReqProofs.QuotedLayoutAccepted | src/dep_types.rs:760 | spaces, `=`, spaces and a quoted value are read back as that value |
| ReqProofs.ManifestNameReaches | src/dep_types.rs:760 | the lazy manifest name stops at the latest where the quoted rest starts |
| ReqProofs.ManifestLayoutMatched | src/dep_types.rs:760 | the manifest pattern matches every line with its layout |
| ReqProofs.BareLayoutMatched | src/dep_types.rs:782-788 | the bare-name pattern matches every line with its layout |
| ReqProofs.MatchVersionedExact | src/dep_types.rs:756-760 | the version-bearing pattern of a dialect matches exactly the lines with its layout |
| ReqProofs.MatchBareNameExact | src/dep_types.rs:782-788 | the bare-name pattern of a dialect matches exactly the lines with its layout |
| ReqProofs.ReqFromStrExact | src/dep_types.rs:748-806 | `Req::from_str` succeeds exactly on the version-bearing layout with a readable constraint list, or else on the bare-name layout; a bad list gives its own error, and a line of neither layout gives "Problem parsing version requirement: " followed by the line |
| ReqProofs.RenderingsParse | src/dep_types.rs:852-860 | the quoted list of a manifest line reads back as its constraints |
| ReqProofs.ToCfgStringParses | src/dep_types.rs:836-862 | the manifest line of a requirement with constraints parses back to its name and constraints |
| ReqProofs.PipLine | src/dep_types.rs:820-832 | a name followed by an operator is split there; the rest is one constraint or the "Problem parsing requirement" error |
| ReqProofs.PipRoundTrip | src/dep_types.rs:809-833 | name plus rendered constraint reads back as that requirement |
| ReqExamples.ParseExact | src/dep_types.rs:381-384 | a bare full rendering is an exact constraint |
| ReqExamples.SingleVersions | src/dep_types.rs:401-411 | a constraint text without spaces or commas is a one-element list |
| ReqExamples.ManifestSingle | src/dep_types.rs:760-779 | `name = "x"` reads as the name and x's single constraint |
| ReqExamples.IndexMany | src/dep_types.rs:756-779 | `name (x1,x2,...)` reads as the name and the constraints in order |
| ReqExamples.IndexSingle | src/dep_types.rs:756-779 | `name (x)` reads as the name and x's single constraint |
| ReqExamples.IndexSingleClause | src/dep_types.rs:756-779 | `name (x) ; clause` also takes its marker fields from the clause |
| ReqExamples.ExtraClause | src/dep_types.rs:682-715 | a clause with one `extra` marker sets `extra` alone |
| ReqExamples.ExtraEquals | src/dep_types.rs:682-715 | a clause `extra == '<v>'` is read without line feeds or leading space and sets `extra` to `v` alone |
| ReqExamples.NoVersExample | src/dep_types.rs:1132-1139 | test `parse_req_novers` |
| ReqExamples.WithVersExample | src/dep_types.rs:1189-1199 | test `parse_req_withvers` |
| ReqExamples.CaretExample | src/dep_types.rs:1201-1211 | test `parse_req_caret` |
| ReqExamples.TildeShortExample | src/dep_types.rs:1213-1223 | test `parse_req_tilde_short` |
| ReqExamples.PipExample | src/dep_types.rs:1225-1235 | test `parse_req_pip` |
| ReqExamples.IndexExample | src/dep_types.rs:1237-1247 | test `parse_req_pypi` |
| ReqExamples.DottedNameExample | src/dep_types.rs:1249-1262 | test `parse_req_pypi_dot`, the bare dotted name |
| ReqExamples.DottedIndexExample | src/dep_types.rs:1249-1262 | test `parse_req_pypi_dot` |
| ReqExamples.IndexListExample | src/dep_types.rs:1264-1278 | test `parse_req_pypi_cplx` |
| ReqExamples.ExtraMarkerExample | src/dep_types.rs:1141-1187 | test `parse_req_pypi_w_extras`, first case |
| ReqExamples.CfgSingleExample | src/dep_types.rs:1280-1290 | test `req_tostring_single_reqs` |
| ReqExamples.CfgMultipleExample | src/dep_types.rs:1293-1310 | test `req_tostring_multiple_reqs` |
| Util.StandardizeName | src/util.rs:286-288 | same length; each character lower-cased and `-` mapped to `_` |
| Util.StandardizedShape | src/util.rs:286-288 | a standardized name has no upper-case letter and no `-`, and its dots are the original's |
| Util.StandardizeIdempotent | src/util.rs:286-288 | standardizing twice is standardizing once |
| Util.SameNameCharStandard | src/util.rs:290-293 | two characters standardize alike iff equal, the same letter in either case, or `-` against `_` |
| Util.CompareNamesIff | src/util.rs:290-293 | two names compare equal iff same length and alike character by character |
| Util.CompareNamesEquivalence | src/util.rs:290-293 | `compare_names` is reflexive, symmetric and transitive |
| Util.Survivors | src/util.rs:226-244 | the kept requirements are exactly the added ones no manifest requirement blocks |
| Util.WithCaret | src/util.rs:248-258 | afterwards there is a constraint; only the constraints change, and only when there were none |
| Util.WithCarets | src/util.rs:248-258 | the caret filling applies to each requirement on its own, in order |
| Util.FirstReplacing | src/util.rs:266-273 | the search stops at the first kept requirement that replaces the manifest one, or at the end |
| Util.Merged | src/util.rs:264-276 | one entry per manifest requirement: itself, or the requirement that replaces it |
| Util.KeepAdded | src/util.rs:229-242 | the filter keeps an added requirement iff no manifest requirement blocks it |
| Util.MergedEntryOf | src/util.rs:266-275 | the inner loop yields the first replacing requirement, or the manifest one |
| Util.FilterAdded | src/util.rs:226-244 | the filter yields the survivors in order |
| Util.FillCarets | src/util.rs:248-258 | the `iter_mut` loop gives each requirement without constraints a caret at the latest version |
| Util.MergeInto | src/util.rs:264-276 | the merge loop yields the merged manifest list |
| Util.MergeParsed | src/util.rs:226-283 | filtering, caret filling, merging and appending give the merge result |
| Util.ManifestDialectDefined | src/util.rs:217 | reading a command-line requirement never reaches a panic in `parse_extras` |
| Util.ParseAdded | src/util.rs:215-223 | the loop over the texts succeeds iff every one reads, then gives the requirements in order; otherwise it aborts naming the first text that does not read |
| Util.MergeReqs | src/util.rs:214-284 | `merge_reqs` succeeds iff every command-line text parses with `Req::from_str(_, false)`, and then returns the merge of the parsed requirements; otherwise the abort message names the first text that does not parse |
| Util.MergeLength | src/util.rs:264-283 | the result has one entry per manifest requirement plus one per kept added requirement |
| Util.AddedConstraints | src/util.rs:248-258 | a kept requirement keeps its constraints, or gets exactly a caret at the latest version |
| Util.MergedEntries | src/util.rs:264-276 | a manifest entry is replaced by the first kept requirement that replaces it, or kept when none does |
| Util.ReplacementAppearsTwice | src/util.rs:264-283 | a replacing requirement appears both in the manifest part and among the appended ones |
| Build.SerializePyList | src/build.rs:9-16 | the loop writes `[`, a newline, one line per item in order, and `]` |
| Build.PyListShape | src/build.rs:9-16 | the list starts with `[` and a newline, ends with `]`, and has 8 characters per item besides the items |
| Build.PyListEmpty | src/build.rs:9-16 | the empty list is written `[`, newline, `]` |
| Build.PyListItemAt | src/build.rs:9-16 | each item is written verbatim in its own line, after the lines of the items before it |
| Build.PyListNotInjective | src/build.rs:9-16 | with no escaping, one item holding `",\n    "` is written exactly as two items |
| Build.ParseListRoundTrip | src/build.rs:9-16 | a list of items without quotes reads back as the same items |
| Build.SerializePyDict | src/build.rs:18-26 | the loop writes `{`, a newline, one `"key": list` line per entry in iteration order, and `}` |
| Build.PyDictEmpty | src/build.rs:18-26 | the empty map is written `{`, newline, `}` |
| Build.PyDictEntryAt | src/build.rs:18-26 | each entry is written as its own line, after the lines of the entries before it |
| Build.PyDictValueAt | src/build.rs:18-26 | each value appears as its serialised list, verbatim, after its quoted key |
| Build.ValueInEntry | src/build.rs:20-22 | within an entry's line, the list follows the quoted key, colon and space |

## Left out

- I/O, the process abort and the console: `abort` is an `Err` carrying its message (`Util.AbortMessage`); the `println!` for an unexpected marker key cannot happen, because the marker pattern only captures the three known keys.
- `files::add_reqs_to_cfg` (src/util.rs:278-280) writes the manifest file. It is I/O and changes nothing `merge_reqs` returns.
- The package index: the latest version is the parameter `latest`. The `expect` on a failed lookup in `merge_reqs`, and the branch of `to_cfg_string` for a requirement without constraints, both query the network. `Reqs.ToCfgString` therefore requires at least one constraint.
- `crate::Os` is not part of this model. It is the type parameter `Os`, read by `osFromStr`.
- Reqs.ParseExtras, Reqs.ReqFromStr: the panics of `parse_extras` (an unknown platform, or a Python-version marker that is not a constraint) are excluded by the requires `ClauseReadable`/`FromStrDefined` instead of being modelled.
- Reqs.FromPipStr: the `expect` on a constraint that does not parse is the `Err` "Problem parsing requirement" rather than a panic.
- Constraints.CompatibleRange, Constraints.IsCompatible: `u32` overflow of `patch + 1`, `patch + 2`, `minor + 1` and `major + 1` is excluded by the requires `NoOverflow`/`UpperFits`, where the source would panic in a debug build or wrap in a release build.
- The `Display` and `Debug` implementations with terminal colours, `Constraint`'s `Display`, and the `reqwest`/`ParseIntError` conversions other than the "Pare int error" text.
- `str::to_lowercase` is modelled on ASCII letters only, and `\d` as the ASCII digits; Rust's Unicode case mapping and Unicode decimal digits are not modelled.
- The `regex` crate itself: each pattern is a scanner written to make the leftmost-first engine's choices.
- `HashMap` iteration order: Build.SerializePyDict takes the entries as a sequence in whatever order the map yields them.
- Build.SerializePyList: the literal three-classifier list of test `py_list` is not restated. PyListItemAt and PyListShape cover it in general.
- ReqExamples: the second and third cases of `parse_req_pypi_w_extras` are not restated as literals. The third depends on `crate::Os`. Both are covered by MarkerAtLayout, LastOfIsLast and ExtrasOfStep.
- Constraints.IsCompatible, Ranges.MaxV, Ranges.MinV, Ranges.Overlap (and through them Ranges.Intersect, Ranges.Intersection, Ranges.IntersectionMany): these compare with the intended order `Cmp`, not with `Version::cmp` as written, so they differ from the source where the written comparison calls two different versions equal. For `>1.0.0.0a1` the source rejects 1.0.0rc1 and the model admits it (ConstraintProofs.AsWrittenGreaterThanDiffers). For 1.0.0rc1 and 1.0.0.0a1, `cmp::max` picks 1.0.0.0a1 and `cmp::min` picks 1.0.0rc1, the other way round from the model (RangeProofs.AsWrittenMaxMinDiffer).
- RangeProofs.IntersectionMany2OrderFree: states that the order of the constraints does not change which versions are admitted, not that the result lists are equal. `cmp::max` and `cmp::min` break ties by argument position, and distinct versions can compare `Equal`.
- The package, lock and dependency records (`Dependency`, `Rename`, `Package`, `LockPackage`, `Lock`) are plain datatypes with no operations of their own here. The build, publish and `setup.py` process code of src/build.rs is out of scope.

## Findings

| source | as written | input that shows it | evidently intended | confidence | as-written member | corrected member |
|---|---|---|---|---|---|---|
| src/dep_types.rs:244-266 | `Version::cmp` returns `Equal` when one extra number is `None` and the other `Some(0)`, without comparing the modifiers, so the order is not transitive | 1.0.0rc1 = 1.0.0.0a1 and 1.0.0.0a1 = 1.0.0b1, but 1.0.0rc1 > 1.0.0b1 | compare the extra numbers with a missing one read as 0, then the modifiers | not executed | VersionProofs.CmpAsWrittenNotTransitive | VersionProofs.CmpTransitive |
