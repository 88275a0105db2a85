/** The version value model of src/dep_types.rs: version modifiers and
    their rank, `Version` with its constructors, the three plain text
    renderings, the hand-written recogniser for version text, and the
    ordering. */
module Versions {
  import opened Prim
  import opened Text

  /** Represents the highest major version. */
  const MAX_VER: u32 := 999_999

  datatype VersionModifier = Alpha | Beta | ReleaseCandidate | Dep | Null

  function ModifierFromStr(s: string): (r: Result<VersionModifier>)
    ensures r.Ok? ==> r.value != Null
    ensures r.Err? ==> r.details == "Problem parsing version modifier"
  {
    if s == "a" then Ok(Alpha)
    else if s == "b" then Ok(Beta)
    else if s == "rc" then Ok(ReleaseCandidate)
    else if s == "dep" then Ok(Dep)
    else Err("Problem parsing version modifier")
  }

  /** `VersionModifier::to_string`; the source panics on `Null`. */
  function ModifierToString(m: VersionModifier): string
    requires m != Null
  {
    match m
    case Alpha => "a"
    case Beta => "b"
    case ReleaseCandidate => "rc"
    case Dep => "dep"
  }

  /** Parsing and rendering of a modifier tag are inverse to each other. */
  lemma ModifierRoundTrip(m: VersionModifier, s: string)
    requires m != Null
    ensures ModifierFromStr(ModifierToString(m)) == Ok(m)
    ensures ModifierFromStr(s) == Ok(m) ==> ModifierToString(m) == s
  {
  }

  /** `orderval`: "no modifier" ranks highest, then rc, b, a, dep. */
  function OrderVal(m: VersionModifier): nat
  {
    match m
    case Null => 4
    case ReleaseCandidate => 3
    case Beta => 2
    case Alpha => 1
    case Dep => 0
  }

  /** The ranks order the modifiers as dep < a < b < rc < none, and distinct
      modifiers have distinct ranks, so the modifier order is total. */
  lemma OrderValInjective(m1: VersionModifier, m2: VersionModifier)
    ensures OrderVal(Dep) < OrderVal(Alpha) < OrderVal(Beta) < OrderVal(ReleaseCandidate) < OrderVal(Null)
    ensures OrderVal(m1) == OrderVal(m2) <==> m1 == m2
  {
  }

  /** Three numbers, an optional fourth one, and an optional modifier tag
      with its number. */
  datatype Version = Version(
    major: u32,
    minor: u32,
    patch: u32,
    extraNum: Option<u32>,
    modifier: Option<(VersionModifier, u32)>)

  /** A stored modifier is never the comparison-only `Null`. */
  predicate Valid(v: Version) {
    v.modifier.Some? ==> v.modifier.value.0 != Null
  }

  /** No extra number and no modifier: what `Version::new` builds. */
  predicate IsPlain(v: Version) {
    v.extraNum.None? && v.modifier.None?
  }

  function New(major: u32, minor: u32, patch: u32): (v: Version)
    ensures IsPlain(v) && v.major == major && v.minor == minor && v.patch == patch
  {
    Version(major, minor, patch, None, None)
  }

  function NewShort(major: u32, minor: u32): (v: Version)
    ensures v == New(major, minor, 0)
  {
    Version(major, minor, 0, None, None)
  }

  function Zero(): Version { New(0, 0, 0) }

  /** `Version::_max`, the conventional open upper bound. */
  function Max(): Version { New(MAX_VER, 0, 0) }

  // ---------------------------------------------------------------------
  // Rendering

  /** The rendered modifier, `tag num`, or nothing. */
  function ModSuffix(v: Version): string
    requires Valid(v)
  {
    if v.modifier.Some? then ModifierToString(v.modifier.value.0) + NatToString(v.modifier.value.1) else ""
  }

  /** What `add_str_mod` appends: `.extra` if present, then `tag num`. */
  function Suffix(v: Version): string
    requires Valid(v)
  {
    (if v.extraNum.Some? then "." + NatToString(v.extraNum.value) else "") + ModSuffix(v)
  }

  function ToStringShort(v: Version): string
    requires Valid(v)
  {
    NatToString(v.major) + Suffix(v)
  }

  function ToStringMed(v: Version): string
    requires Valid(v)
  {
    NatToString(v.major) + ("." + (NatToString(v.minor) + Suffix(v)))
  }

  /** The full plain rendering `major.minor.patch` + suffix. */
  function ToString2(v: Version): string
    requires Valid(v)
  {
    NatToString(v.major) + ("." + (NatToString(v.minor) + ("." + (NatToString(v.patch) + Suffix(v)))))
  }

  // ---------------------------------------------------------------------
  // Parsing: `^(\d+)\.?(\d+)?\.?(\d+)?\.?(\d+)?(?:(a|b|rc|dep)(\d+))?$`
  //
  // Each digit group is greedy and each dot optional. The scanner below
  // takes, left to right, a maximal digit run for the first group and then,
  // three times, an optional dot followed by an optional maximal digit run;
  // what is left must be empty or a tag followed by digits up to the end.
  // Module VersionGrammar proves that the scanner accepts exactly the texts
  // the pattern matches and that each accepted text is its captures laid
  // out in order. Taking the longest run and the dot whenever present is
  // also the split the regex engine's greedy, leftmost-first search reports;
  // that part is an argument, not a proof.

  datatype VersionCaptures = VersionCaptures(
    major: string,
    minor: Option<string>,
    patch: Option<string>,
    extra: Option<string>,
    tag: Option<(string, string)>)

  predicate StartsWithDot(s: string)
  {
    |s| > 0 && s[0] == '.'
  }

  function SkipDot(s: string): string
  {
    if StartsWithDot(s) then s[1..] else s
  }

  /** An optional greedy `(\d+)?`: the run taken, and the rest. */
  function OptDigits(s: string): (r: (Option<string>, string))
    ensures r.0.Some? ==> |r.0.value| > 0 && AllDigits(r.0.value)
  {
    var n := DigitsLen(s);
    if n == 0 then (None, s) else (Some(s[..n]), s[n..])
  }

  /** Length of the modifier tag `a|b|rc|dep` at the start of `s`, or 0. */
  function TagLen(s: string): nat
  {
    if |s| >= 1 && s[0] == 'a' then 1
    else if |s| >= 1 && s[0] == 'b' then 1
    else if |s| >= 2 && s[..2] == "rc" then 2
    else if |s| >= 3 && s[..3] == "dep" then 3
    else 0
  }

  /** `(?:(a|b|rc|dep)(\d+))?$`: `Some(None)` for the empty rest,
      `Some(Some((tag, digits)))` for a tag and digits up to the end. */
  function MatchTag(s: string): (r: Option<Option<(string, string)>>)
    ensures r.Some? && r.value.Some? ==>
      ModifierFromStr(r.value.value.0).Ok? &&
      |r.value.value.1| > 0 && AllDigits(r.value.value.1) &&
      s == r.value.value.0 + r.value.value.1
    ensures r == Some(None) <==> s == []
  {
    if s == [] then Some(None)
    else
      var t := TagLen(s);
      if t == 0 then None
      else
        var rest := s[t..];
        if |rest| > 0 && DigitsLen(rest) == |rest| then
          assert rest[..DigitsLen(rest)] == rest;
          assert s == s[..t] + rest;
          Some(Some((s[..t], rest)))
        else None
  }

  /** The text an optional group contributes: its digits, or nothing. */
  function GroupText(g: Option<string>): string
  {
    if g.Some? then g.value else ""
  }

  function DotText(d: bool): string
  {
    if d then "." else ""
  }

  function TagText(t: Option<(string, string)>): string
  {
    if t.Some? then t.value.0 + t.value.1 else ""
  }

  /** The text a match consists of: the groups in order, with the optional
      dots `d1`, `d2`, `d3` between them. */
  function CapturedText(c: VersionCaptures, d1: bool, d2: bool, d3: bool): string
  {
    c.major + DotText(d1) + GroupText(c.minor) + DotText(d2) + GroupText(c.patch)
      + DotText(d3) + GroupText(c.extra) + TagText(c.tag)
  }

  /** One `\.?(\d+)?` slot gives back what it skips and what it leaves. */
  lemma SlotRebuild(x: string)
    ensures x == DotText(StartsWithDot(x)) + GroupText(OptDigits(SkipDot(x)).0)
                 + OptDigits(SkipDot(x)).1
  {
    var y := SkipDot(x);
    SkipDotRebuild(x);
    OptDigitsRebuild(y);
    Assoc3(DotText(StartsWithDot(x)), GroupText(OptDigits(y).0), OptDigits(y).1);
  }

  lemma SkipDotRebuild(x: string)
    ensures x == DotText(StartsWithDot(x)) + SkipDot(x)
  {
    if StartsWithDot(x) {
      assert x == [x[0]] + x[1..];
    }
  }

  lemma OptDigitsRebuild(y: string)
    ensures y == GroupText(OptDigits(y).0) + OptDigits(y).1
  {
    var n := DigitsLen(y);
    assert y == y[..n] + y[n..];
  }

  lemma Assoc3(a: string, b: string, c: string)
    ensures a + (b + c) == a + b + c
  {
  }

  /** The four pieces a match is read in, put back together. */
  lemma Assemble(s: string, c: VersionCaptures, d1: bool, d2: bool, d3: bool, x1: string, x2: string, x3: string)
    requires s == c.major + x1
    requires x1 == DotText(d1) + GroupText(c.minor) + x2
    requires x2 == DotText(d2) + GroupText(c.patch) + x3
    requires x3 == DotText(d3) + GroupText(c.extra) + TagText(c.tag)
    ensures s == CapturedText(c, d1, d2, d3)
  {
    Concat8(s, c.major, DotText(d1), GroupText(c.minor), DotText(d2), GroupText(c.patch),
            DotText(d3), GroupText(c.extra), TagText(c.tag), x1, x2, x3);
  }

  lemma Concat8(s: string, m: string, a: string, b: string, c: string, d: string, e: string,
                f: string, t: string, x1: string, x2: string, x3: string)
    requires s == m + x1 && x1 == a + b + x2 && x2 == c + d + x3 && x3 == e + f + t
    ensures s == m + a + b + c + d + e + f + t
  {
    calc {
      m + a + b + c + d + e + f + t;
      m + a + b + c + d + (e + f + t);
      m + a + b + (c + d + (e + f + t));
      m + (a + b + (c + d + (e + f + t)));
    }
  }

  function MatchVersion(s: string): (r: Option<VersionCaptures>)
    ensures r.Some? ==> |r.value.major| > 0 && MatchedCaptures(r.value)
    ensures r.Some? ==> exists d1, d2, d3 :: s == CapturedText(r.value, d1, d2, d3)
  {
    var n := DigitsLen(s);
    if n == 0 then None
    else
      var (g2, r2) := OptDigits(SkipDot(s[n..]));
      var (g3, r3) := OptDigits(SkipDot(r2));
      var (g4, r4) := OptDigits(SkipDot(r3));
      match MatchTag(r4)
      case None => None
      case Some(tag) =>
        MatchRebuild(s, n, g2, r2, g3, r3, g4, r4, tag);
        Some(VersionCaptures(s[..n], g2, g3, g4, tag))
  }

  /** The scanner's pieces put back together give the text it read. */
  lemma MatchRebuild(s: string, n: nat, g2: Option<string>, r2: string,
                     g3: Option<string>, r3: string, g4: Option<string>, r4: string, tag: Option<(string, string)>)
    requires n <= |s|
    requires (g2, r2) == OptDigits(SkipDot(s[n..]))
    requires (g3, r3) == OptDigits(SkipDot(r2))
    requires (g4, r4) == OptDigits(SkipDot(r3))
    requires MatchTag(r4) == Some(tag)
    ensures s == CapturedText(VersionCaptures(s[..n], g2, g3, g4, tag),
                              StartsWithDot(s[n..]), StartsWithDot(r2), StartsWithDot(r3))
  {
    assert s == s[..n] + s[n..];
    MatchPieces(s, s[..n], s[n..], g2, r2, g3, r3, g4, r4, tag);
  }

  lemma MatchPieces(s: string, major: string, x1: string, g2: Option<string>, r2: string,
                     g3: Option<string>, r3: string, g4: Option<string>, r4: string, tag: Option<(string, string)>)
    requires s == major + x1
    requires (g2, r2) == OptDigits(SkipDot(x1))
    requires (g3, r3) == OptDigits(SkipDot(r2))
    requires (g4, r4) == OptDigits(SkipDot(r3))
    requires MatchTag(r4) == Some(tag)
    ensures s == CapturedText(VersionCaptures(major, g2, g3, g4, tag),
                              StartsWithDot(x1), StartsWithDot(r2), StartsWithDot(r3))
  {
    SlotRebuild(x1);
    SlotRebuild(r2);
    SlotRebuild(r3);
    Assemble(s, VersionCaptures(major, g2, g3, g4, tag), StartsWithDot(x1), StartsWithDot(r2),
             StartsWithDot(r3), x1, r2, r3);
  }

  /** A missing group reads as 0; a present one is parsed as a `u32`. */
  function OptU32(g: Option<string>): Option<u32>
    requires g.Some? ==> AllDigits(g.value)
  {
    if g.None? then Some(0) else ParseU32(g.value)
  }

  /** The captures turned into a version: each present number parsed as a
      `u32` (overflow is the `ParseIntError` conversion, "Pare int error"). */
  function FromCaptures(c: VersionCaptures): (r: Result<Version>)
    requires MatchedCaptures(c)
    ensures r.Ok? ==> Valid(r.value)
    ensures r.Err? ==> r.details == "Pare int error"
  {
    var major := ParseU32(c.major);
    var minor := OptU32(c.minor);
    var patch := OptU32(c.patch);
    var extra := if c.extra.None? then Some(None) else
      (match ParseU32(c.extra.value) case None => None case Some(e) => Some(Some(e)));
    var modifier := if c.tag.None? then Some(None) else
      (match ParseU32(c.tag.value.1) case None => None
       case Some(num) => Some(Some((ModifierFromStr(c.tag.value.0).value, num))));
    if major.None? || minor.None? || patch.None? || extra.None? || modifier.None? then
      Err("Pare int error")
    else
      Ok(Version(major.value, minor.value, patch.value, extra.value, modifier.value))
  }

  /** What the scanner guarantees of the captures it returns. */
  predicate MatchedCaptures(c: VersionCaptures) {
    && AllDigits(c.major)
    && (c.minor.Some? ==> AllDigits(c.minor.value))
    && (c.patch.Some? ==> AllDigits(c.patch.value))
    && (c.extra.Some? ==> AllDigits(c.extra.value))
    && (c.tag.Some? ==> ModifierFromStr(c.tag.value.0).Ok? && AllDigits(c.tag.value.1))
  }

  /** `Version::from_str`: `*` becomes `0`, then the grammar above. */
  function VersionFromStr(s0: string): (r: Result<Version>)
    ensures r.Ok? ==> Valid(r.value)
    ensures r.Err? ==>
      r.details == "Pare int error" ||
      r.details == "Problem parsing version: " + ReplaceChar(s0, '*', '0')
  {
    var s := ReplaceChar(s0, '*', '0');
    match MatchVersion(s)
    case None => Err("Problem parsing version: " + s)
    case Some(c) => FromCaptures(c)
  }

  // ---------------------------------------------------------------------
  // Ordering

  datatype Ordering = Less | Equal | Greater

  function Flip(o: Ordering): Ordering
  {
    match o
    case Less => Greater
    case Equal => Equal
    case Greater => Less
  }

  function CmpNat(a: nat, b: nat): (o: Ordering)
    ensures o == Less <==> a < b
    ensures o == Equal <==> a == b
  {
    if a < b then Less else if a == b then Equal else Greater
  }

  function ExtraOrZero(v: Version): nat
  {
    if v.extraNum.Some? then v.extraNum.value else 0
  }

  /** The modifier with "none" read as `(Null, 0)`. */
  function ModOrNull(v: Version): (VersionModifier, u32)
  {
    if v.modifier.Some? then v.modifier.value else (Null, 0)
  }

  /** `Ord for Version` exactly as written: the extra numbers are compared for
      structural difference, so `None` against `Some(0)` returns `Equal`
      without looking at the modifiers. */
  function CmpAsWritten(a: Version, b: Version): Ordering
  {
    var am := ModOrNull(a);
    var bm := ModOrNull(b);
    if a.major != b.major then CmpNat(a.major, b.major)
    else if a.minor != b.minor then CmpNat(a.minor, b.minor)
    else if a.patch != b.patch then CmpNat(a.patch, b.patch)
    else if a.extraNum != b.extraNum then CmpNat(ExtraOrZero(a), ExtraOrZero(b))
    else if am.0 != bm.0 then CmpNat(OrderVal(am.0), OrderVal(bm.0))
    else CmpNat(am.1, bm.1)
  }

  /** The ordering as intended: lexicographic over major, minor, patch,
      extra number (none as 0), modifier rank (none highest) and modifier
      number. This is the ordering the rest of the model uses. */
  function Cmp(a: Version, b: Version): Ordering
  {
    var am := ModOrNull(a);
    var bm := ModOrNull(b);
    if a.major != b.major then CmpNat(a.major, b.major)
    else if a.minor != b.minor then CmpNat(a.minor, b.minor)
    else if a.patch != b.patch then CmpNat(a.patch, b.patch)
    else if ExtraOrZero(a) != ExtraOrZero(b) then CmpNat(ExtraOrZero(a), ExtraOrZero(b))
    else if am.0 != bm.0 then CmpNat(OrderVal(am.0), OrderVal(bm.0))
    else CmpNat(am.1, bm.1)
  }

  predicate AtMost(a: Version, b: Version) { Cmp(a, b) != Greater }
  predicate LessThan(a: Version, b: Version) { Cmp(a, b) == Less }

  /** The six-component key the ordering compares. */
  function Key(v: Version): seq<nat>
  {
    var m := ModOrNull(v);
    [v.major, v.minor, v.patch, ExtraOrZero(v), OrderVal(m.0), m.1]
  }
}

module VersionProofs {
  import opened Prim
  import opened Text
  import opened Versions

  // ---------------------------------------------------------------------
  // The ordering is a total preorder

  lemma CmpReflexive(a: Version)
    ensures Cmp(a, a) == Equal
  {
  }

  lemma CmpFlip(a: Version, b: Version)
    ensures Cmp(b, a) == Flip(Cmp(a, b))
  {
    OrderValInjective(ModOrNull(a).0, ModOrNull(b).0);
  }

  lemma CmpTransitive(a: Version, b: Version, c: Version)
    ensures AtMost(a, b) && AtMost(b, c) ==> AtMost(a, c)
    ensures LessThan(a, b) && AtMost(b, c) ==> LessThan(a, c)
    ensures AtMost(a, b) && LessThan(b, c) ==> LessThan(a, c)
  {
    OrderValInjective(ModOrNull(a).0, ModOrNull(b).0);
    OrderValInjective(ModOrNull(b).0, ModOrNull(c).0);
    OrderValInjective(ModOrNull(a).0, ModOrNull(c).0);
  }

  lemma CmpTotal(a: Version, b: Version)
    ensures AtMost(a, b) || AtMost(b, a)
  {
    CmpFlip(a, b);
  }

  /** Two versions compare `Equal` exactly when their comparison keys agree. */
  lemma CmpEqualIffSameKey(a: Version, b: Version)
    ensures Cmp(a, b) == Equal <==> Key(a) == Key(b)
  {
    OrderValInjective(ModOrNull(a).0, ModOrNull(b).0);
    if Key(a) == Key(b) {
      assert Key(a)[4] == Key(b)[4] && Key(a)[5] == Key(b)[5];
    }
  }

  /** Among versions built by `Version::new`, `Equal` is structural equality. */
  lemma PlainCmpEqualIsEquality(a: Version, b: Version)
    requires IsPlain(a) && IsPlain(b)
    ensures Cmp(a, b) == Equal <==> a == b
  {
  }

  /** ... but not in general: a missing extra number equals an extra 0. */
  lemma CmpEqualIsNotEquality()
    ensures New(1, 0, 0) != Version(1, 0, 0, Some(0), None)
    ensures Cmp(New(1, 0, 0), Version(1, 0, 0, Some(0), None)) == Equal
  {
  }

  /** A final release ranks above every pre-release or dep build sharing its
      major.minor.patch and extra number, and rc > b > a > dep. */
  lemma ReleaseAbovePreRelease(a: Version, b: Version)
    requires a.major == b.major && a.minor == b.minor && a.patch == b.patch
    requires ExtraOrZero(a) == ExtraOrZero(b)
    requires Valid(b) && a.modifier.None? && b.modifier.Some?
    ensures Cmp(a, b) == Greater
  {
  }

  lemma ModifierRanking(a: Version, b: Version)
    requires a.major == b.major && a.minor == b.minor && a.patch == b.patch
    requires ExtraOrZero(a) == ExtraOrZero(b)
    requires a.modifier.Some? && b.modifier.Some?
    ensures a.modifier.value.0 == ReleaseCandidate && b.modifier.value.0 in {Beta, Alpha, Dep} ==> Cmp(a, b) == Greater
    ensures a.modifier.value.0 == Beta && b.modifier.value.0 in {Alpha, Dep} ==> Cmp(a, b) == Greater
    ensures a.modifier.value.0 == Alpha && b.modifier.value.0 == Dep ==> Cmp(a, b) == Greater
  {
  }

  /** Tests `version_ordering` and `version_ordering_modded`. */
  lemma OrderingExamples()
    ensures Cmp(New(4, 9, 4), New(4, 8, 0)) == Greater
    ensures Cmp(New(4, 8, 0), New(3, 3, 6)) == Greater
    ensures Cmp(New(3, 3, 6), New(3, 3, 5)) == Greater
    ensures Cmp(New(3, 3, 5), New(3, 3, 0)) == Greater
    ensures Cmp(New(1, 9, 9), New(2, 0, 0)) == Less
    ensures Cmp(Version(4, 9, 4, Some(2), None), New(4, 9, 4)) == Greater
    ensures Cmp(New(4, 9, 4), Version(4, 9, 4, None, Some((ReleaseCandidate, 2)))) == Greater
    ensures Cmp(Version(4, 9, 4, None, Some((ReleaseCandidate, 2))), Version(4, 9, 4, None, Some((ReleaseCandidate, 1)))) == Greater
    ensures Cmp(Version(4, 9, 4, None, Some((ReleaseCandidate, 1))), Version(4, 9, 4, None, Some((Beta, 6)))) == Greater
    ensures Cmp(Version(4, 9, 4, None, Some((Beta, 6))), Version(4, 9, 4, None, Some((Alpha, 7)))) == Greater
    ensures Cmp(Version(4, 9, 4, None, Some((Alpha, 7))), New(4, 9, 2)) == Greater
  {
  }

  // ---------------------------------------------------------------------
  // The comparison as written

  /** The written comparison differs from the intended one only when one
      extra number is missing and the other is `Some(0)`. */
  lemma CmpAsWrittenAgrees(a: Version, b: Version)
    requires !(a.extraNum == None && b.extraNum == Some(0))
    requires !(a.extraNum == Some(0) && b.extraNum == None)
    ensures CmpAsWritten(a, b) == Cmp(a, b)
  {
  }

  /** The written comparison is not transitive, so it breaks the contract of
      Rust's `Ord`: 1.0.0rc1 ~ 1.0.0.0a1 ~ 1.0.0b1 but 1.0.0rc1 > 1.0.0b1. */
  lemma CmpAsWrittenNotTransitive()
    ensures var a := Version(1, 0, 0, None, Some((ReleaseCandidate, 1)));
            var b := Version(1, 0, 0, Some(0), Some((Alpha, 1)));
            var c := Version(1, 0, 0, None, Some((Beta, 1)));
            CmpAsWritten(a, b) == Equal && CmpAsWritten(b, c) == Equal &&
            CmpAsWritten(a, c) == Greater
  {
  }

  // ---------------------------------------------------------------------
  // Parsing and rendering

  lemma ParseRendered(n: u32)
    ensures ParseU32(NatToString(n)) == Some(n)
  {
    DecimalRoundTrip(n);
  }

  lemma ReplaceAbsent(s: string)
    requires '*' !in s
    ensures ReplaceChar(s, '*', '0') == s
  {
    var r := ReplaceChar(s, '*', '0');
    assert forall i :: 0 <= i < |s| ==> r[i] == s[i];
  }

  lemma DotNumber(n: nat, t: string)
    requires t == [] || !IsDigit(t[0])
    ensures OptDigits(SkipDot("." + (NatToString(n) + t))) == (Some(NatToString(n)), t)
  {
    DigitsLenAfterNumber(n, t);
  }

  lemma NoDotNoNumber(t: string)
    requires t == [] || (!IsDigit(t[0]) && t[0] != '.')
    ensures OptDigits(SkipDot(t)) == (None, t)
  {
  }

  lemma ModSuffixShape(v: Version)
    requires Valid(v)
    ensures ModSuffix(v) == [] || (!IsDigit(ModSuffix(v)[0]) && ModSuffix(v)[0] != '.')
    ensures '*' !in ModSuffix(v)
    ensures MatchTag(ModSuffix(v)) ==
      if v.modifier.None? then Some(None)
      else Some(Some((ModifierToString(v.modifier.value.0), NatToString(v.modifier.value.1))))
  {
    if v.modifier.Some? {
      var t := ModifierToString(v.modifier.value.0);
      var d := NatToString(v.modifier.value.1);
      var s := t + d;
      assert s[..|t|] == t && s[|t|..] == d;
      assert TagLen(s) == |t|;
      assert DigitsLen(d) == |d| by { DigitsLenExact(d, |d|); assert d[..|d|] == d; }
      assert !IsDigit(s[0]) && s[0] != '.';
      assert forall i :: 0 <= i < |t| ==> t[i] != '*';
      assert forall i :: 0 <= i < |d| ==> d[i] != '*' by { assert AllDigits(d); }
    }
  }

  lemma NoStarInNumber(n: nat)
    ensures '*' !in NatToString(n)
  {
    var d := NatToString(n);
    assert forall i :: 0 <= i < |d| ==> d[i] != '*' by { assert AllDigits(d); }
  }

  /** The modifier part of a parse of a rendered modifier. */
  lemma ParsedModifier(v: Version)
    requires Valid(v) && v.modifier.Some?
    ensures ModifierFromStr(ModifierToString(v.modifier.value.0)) == Ok(v.modifier.value.0)
    ensures ParseU32(NatToString(v.modifier.value.1)) == Some(v.modifier.value.1)
  {
    ModifierRoundTrip(v.modifier.value.0, "");
    ParseRendered(v.modifier.value.1);
  }

  function TagCaptures(v: Version): Option<(string, string)>
    requires Valid(v)
  {
    if v.modifier.None? then None
    else Some((ModifierToString(v.modifier.value.0), NatToString(v.modifier.value.1)))
  }

  function ExtraCapture(v: Version): Option<string>
  {
    if v.extraNum.None? then None else Some(NatToString(v.extraNum.value))
  }

  /** Captures whose numbers are renderings of `v`'s components give back `v`. */
  lemma FromRenderedCaptures(v: Version, c: VersionCaptures)
    requires Valid(v)
    requires c.major == NatToString(v.major)
    requires c.minor == Some(NatToString(v.minor)) || (c.minor.None? && v.minor == 0)
    requires c.patch == Some(NatToString(v.patch)) || (c.patch.None? && v.patch == 0)
    requires c.extra == ExtraCapture(v) && c.tag == TagCaptures(v)
    ensures MatchedCaptures(c)
    ensures FromCaptures(c) == Ok(v)
  {
    ParseRendered(v.major); ParseRendered(v.minor); ParseRendered(v.patch);
    if v.extraNum.Some? { ParseRendered(v.extraNum.value); }
    if v.modifier.Some? { ParsedModifier(v); }
  }

  /** The scanner, one group at a time. */
  lemma MatchSteps(s: string, n: nat, g2: Option<string>, r2: string, g3: Option<string>, r3: string,
                   g4: Option<string>, r4: string, tag: Option<(string, string)>)
    requires 0 < n == DigitsLen(s)
    requires OptDigits(SkipDot(s[n..])) == (g2, r2)
    requires OptDigits(SkipDot(r2)) == (g3, r3)
    requires OptDigits(SkipDot(r3)) == (g4, r4)
    requires MatchTag(r4) == Some(tag)
    ensures MatchVersion(s) == Some(VersionCaptures(s[..n], g2, g3, g4, tag))
  {
  }

  /** After the patch: the optional extra number, then the modifier. */
  lemma SuffixSteps(v: Version)
    requires Valid(v)
    ensures Suffix(v) == [] || !IsDigit(Suffix(v)[0])
    ensures OptDigits(SkipDot(Suffix(v))) == (ExtraCapture(v), ModSuffix(v))
  {
    ModSuffixShape(v);
    if v.extraNum.Some? {
      assert Suffix(v) == "." + (NatToString(v.extraNum.value) + ModSuffix(v));
      DotNumber(v.extraNum.value, ModSuffix(v));
    } else {
      assert Suffix(v) == ModSuffix(v);
      NoDotNoNumber(ModSuffix(v));
    }
  }

  lemma MatchToString2(v: Version)
    requires Valid(v)
    ensures MatchVersion(ToString2(v)) ==
      Some(VersionCaptures(NatToString(v.major), Some(NatToString(v.minor)), Some(NatToString(v.patch)),
                           ExtraCapture(v), TagCaptures(v)))
  {
    ModSuffixShape(v);
    SuffixSteps(v);
    DigitsLenAfterNumber(v.major, "." + (NatToString(v.minor) + ("." + (NatToString(v.patch) + Suffix(v)))));
    DotNumber(v.minor, "." + (NatToString(v.patch) + Suffix(v)));
    DotNumber(v.patch, Suffix(v));
    MatchSteps(ToString2(v), |NatToString(v.major)|,
               Some(NatToString(v.minor)), "." + (NatToString(v.patch) + Suffix(v)),
               Some(NatToString(v.patch)), Suffix(v),
               ExtraCapture(v), ModSuffix(v), TagCaptures(v));
  }

  /** Round trip: the full rendering parses back to the same version. */
  lemma ParseToString2(v: Version)
    requires Valid(v)
    ensures VersionFromStr(ToString2(v)) == Ok(v)
  {
    var s := ToString2(v);
    ModSuffixShape(v);
    NoStarInNumber(v.major); NoStarInNumber(v.minor); NoStarInNumber(v.patch);
    if v.extraNum.Some? { NoStarInNumber(v.extraNum.value); }
    assert '*' !in s;
    ReplaceAbsent(s);
    MatchToString2(v);
    FromRenderedCaptures(v, MatchVersion(s).value);
  }

  lemma MatchToStringMed(v: Version)
    requires Valid(v) && v.extraNum.None?
    ensures MatchVersion(ToStringMed(v)) ==
      Some(VersionCaptures(NatToString(v.major), Some(NatToString(v.minor)), None, None, TagCaptures(v)))
  {
    ModSuffixShape(v);
    assert Suffix(v) == ModSuffix(v);
    DigitsLenAfterNumber(v.major, "." + (NatToString(v.minor) + ModSuffix(v)));
    DotNumber(v.minor, ModSuffix(v));
    NoDotNoNumber(ModSuffix(v));
    MatchSteps(ToStringMed(v), |NatToString(v.major)|, Some(NatToString(v.minor)), ModSuffix(v),
               None, ModSuffix(v), None, ModSuffix(v), TagCaptures(v));
  }

  /** The medium rendering round-trips when it loses nothing: patch 0 and no extra number. */
  lemma ParseToStringMed(v: Version)
    requires Valid(v) && v.patch == 0 && v.extraNum.None?
    ensures VersionFromStr(ToStringMed(v)) == Ok(v)
  {
    var s := ToStringMed(v);
    ModSuffixShape(v);
    NoStarInNumber(v.major); NoStarInNumber(v.minor);
    assert '*' !in s;
    ReplaceAbsent(s);
    MatchToStringMed(v);
    FromRenderedCaptures(v, MatchVersion(s).value);
  }

  lemma MatchToStringShort(v: Version)
    requires Valid(v) && v.extraNum.None?
    ensures MatchVersion(ToStringShort(v)) ==
      Some(VersionCaptures(NatToString(v.major), None, None, None, TagCaptures(v)))
  {
    ModSuffixShape(v);
    assert Suffix(v) == ModSuffix(v);
    DigitsLenAfterNumber(v.major, ModSuffix(v));
    NoDotNoNumber(ModSuffix(v));
    MatchSteps(ToStringShort(v), |NatToString(v.major)|, None, ModSuffix(v), None, ModSuffix(v), None, ModSuffix(v),
               TagCaptures(v));
  }

  /** The short rendering round-trips when minor and patch are 0 and there is no extra number. */
  lemma ParseToStringShort(v: Version)
    requires Valid(v) && v.minor == 0 && v.patch == 0 && v.extraNum.None?
    ensures VersionFromStr(ToStringShort(v)) == Ok(v)
  {
    var s := ToStringShort(v);
    ModSuffixShape(v);
    NoStarInNumber(v.major);
    assert '*' !in s;
    ReplaceAbsent(s);
    MatchToStringShort(v);
    FromRenderedCaptures(v, MatchVersion(s).value);
  }

  /** A bare number is a major version with minor and patch 0, unless it
      overflows `u32`, which is an error rather than a wrap-around. */
  lemma ParseBareNumber(n: nat)
    ensures VersionFromStr(NatToString(n)) ==
      if n <= U32_MAX then Ok(New(n, 0, 0)) else Err("Pare int error")
  {
    var s := NatToString(n);
    NoStarInNumber(n);
    ReplaceAbsent(s);
    DigitsLenAfterNumber(n, "");
    assert s + "" == s;
    DecimalRoundTrip(n);
    assert MatchVersion(s) == Some(VersionCaptures(s, None, None, None, None));
  }

  /** Text whose wildcards, read as zeros, give the full rendering of a
      version parses to that version. */
  lemma ParseWildcards(x: string, v: Version)
    requires Valid(v) && ReplaceChar(x, '*', '0') == ToString2(v)
    ensures VersionFromStr(x) == Ok(v)
  {
    ModSuffixShape(v);
    MatchToString2(v);
    FromRenderedCaptures(v, MatchVersion(ToString2(v)).value);
  }

  /** Test `version_parse`. */
  lemma ParseExample1(x: string)
    requires x == "3.12.5"
    ensures VersionFromStr(x) == Ok(New(3, 12, 5))
  {
    assert NatToString(12) == "12" by {
      assert 12 / 10 == 1 && 12 % 10 == 2;
      assert NatToString(1) == "1";
    }
    assert x == ToString2(New(3, 12, 5));
    ParseToString2(New(3, 12, 5));
  }

  /** Test `version_parse`: missing patch defaults to 0. */
  lemma ParseExample2(x: string)
    requires x == "3.7"
    ensures VersionFromStr(x) == Ok(New(3, 7, 0))
  {
    assert x == ToStringMed(New(3, 7, 0));
    ParseToStringMed(New(3, 7, 0));
  }

  /** Test `version_parse_w_wildcard`. */
  lemma ParseWildcardExample(x: string)
    requires x == "1.*.*"
    ensures VersionFromStr(x) == Ok(New(1, 0, 0))
  {
    assert ReplaceChar(x, '*', '0') == ToString2(New(1, 0, 0));
    ParseWildcards(x, New(1, 0, 0));
  }

  /** Test `version_parse_w_modifiers`. */
  lemma ParseModifierExample1(x: string)
    requires x == "19.3b0"
    ensures VersionFromStr(x) == Ok(Version(19, 3, 0, None, Some((Beta, 0))))
  {
    assert NatToString(19) == "19" by {
      assert 19 / 10 == 1 && 19 % 10 == 9;
      assert NatToString(1) == "1";
    }
    assert x == ToStringMed(Version(19, 3, 0, None, Some((Beta, 0))));
    ParseToStringMed(Version(19, 3, 0, None, Some((Beta, 0))));
  }

  /** Test `version_parse_w_modifiers`. */
  lemma ParseModifierExample2(x: string)
    requires x == "5.2.5.11b3"
    ensures VersionFromStr(x) == Ok(Version(5, 2, 5, Some(11), Some((Beta, 3))))
  {
    assert NatToString(11) == "11" by {
      assert 11 / 10 == 1 && 11 % 10 == 1;
      assert NatToString(1) == "1";
    }
    assert x == ToString2(Version(5, 2, 5, Some(11), Some((Beta, 3))));
    ParseToString2(Version(5, 2, 5, Some(11), Some((Beta, 3))));
  }

  /** Test `version_parse_w_modifiers`. */
  lemma ParseExtraExample(x: string)
    requires x == "1.3.5.11"
    ensures VersionFromStr(x) == Ok(Version(1, 3, 5, Some(11), None))
  {
    assert NatToString(11) == "11" by {
      assert 11 / 10 == 1 && 11 % 10 == 1;
      assert NatToString(1) == "1";
    }
    assert x == ToString2(Version(1, 3, 5, Some(11), None));
    ParseToString2(Version(1, 3, 5, Some(11), None));
  }

  /** Test `bad_version`. */
  lemma ParseErrorExample(x: string)
    requires x == "3-7"
    ensures VersionFromStr(x) == Err("Problem parsing version: 3-7")
  {
    ReplaceAbsent(x);
    assert x[1] == '-';
    assert DigitsLen(x) == 1;
    assert x[1..][0] == '-';
    assert DigitsLen(x[1..]) == 0;
    assert MatchTag(x[1..]) == None;
  }

  /** `major.minor.patch.` followed by the modifier: the text the optional
      dot before the extra-number group allows. */
  function DottedModRendering(v: Version): string
    requires Valid(v)
  {
    NatToString(v.major) + ("." + (NatToString(v.minor) + ("." + (NatToString(v.patch) + ("." + ModSuffix(v))))))
  }

  /** A dot may stand between the patch and the modifier: the optional
      dot of the extra-number group takes it and the group matches nothing. */
  lemma ParseDottedModifier(v: Version)
    requires Valid(v) && v.extraNum.None? && v.modifier.Some?
    ensures VersionFromStr(DottedModRendering(v)) == Ok(v)
  {
    var s := DottedModRendering(v);
    var m := ModSuffix(v);
    ModSuffixShape(v);
    NoStarInNumber(v.major); NoStarInNumber(v.minor); NoStarInNumber(v.patch);
    assert '*' !in s;
    ReplaceAbsent(s);
    DigitsLenAfterNumber(v.major, "." + (NatToString(v.minor) + ("." + (NatToString(v.patch) + ("." + m)))));
    DotNumber(v.minor, "." + (NatToString(v.patch) + ("." + m)));
    DotNumber(v.patch, "." + m);
    assert SkipDot("." + m) == m;
    NoDotNoNumber(m);
    MatchSteps(s, |NatToString(v.major)|,
               Some(NatToString(v.minor)), "." + (NatToString(v.patch) + ("." + m)),
               Some(NatToString(v.patch)), "." + m,
               None, m, TagCaptures(v));
    FromRenderedCaptures(v, MatchVersion(s).value);
  }

  /** Test `constraint_w_modifier`: the version of `^1.3.32.dep1`. */
  lemma ParseDotModifierExample(x: string)
    requires x == "1.3.32.dep1"
    ensures VersionFromStr(x) == Ok(Version(1, 3, 32, None, Some((Dep, 1))))
  {
    assert NatToString(32) == "32" by {
      assert 32 / 10 == 3 && 32 % 10 == 2;
    }
    assert x == DottedModRendering(Version(1, 3, 32, None, Some((Dep, 1))));
    ParseDottedModifier(Version(1, 3, 32, None, Some((Dep, 1))));
  }



}
