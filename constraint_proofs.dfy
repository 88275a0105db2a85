/** Properties of the constraint engine: parsing against rendering, the
    ranges against the direct membership test, and the unit-test cases of
    src/dep_types.rs. */
module ConstraintProofs {
  import opened Prim
  import opened Text
  import opened Versions
  import opened VersionProofs
  import opened Constraints

  // ---------------------------------------------------------------------
  // Operators

  lemma ReqTypeRoundTrip(t: ReqType)
    ensures ReqTypeFromStr(ReqTypeToString(t)) == Ok(t)
  {
  }

  /** The parser accepts exactly the eight operator spellings. */
  lemma ReqTypeFromStrOnlyOperators(s: string)
    requires ReqTypeFromStr(s).Ok?
    ensures ReqTypeToString(ReqTypeFromStr(s).value) == s
  {
  }

  // ---------------------------------------------------------------------
  // Constraint::from_str against Constraint::to_string

  lemma NotInNumber(n: nat, c: char)
    requires !IsDigit(c)
    ensures c !in NatToString(n)
  {
    var d := NatToString(n);
    assert forall i :: 0 <= i < |d| ==> d[i] != c by { assert AllDigits(d); }
  }

  /** A character that is neither a digit, a dot nor a letter is not in a
      rendered version. */
  lemma NotInRendering(v: Version, c: char)
    requires Valid(v) && (c == '\n' || c == ' ' || c == ',' || c == ')')
    ensures c !in ToString2(v)
  {
    NotInNumber(v.major, c);
    NotInNumber(v.minor, c);
    NotInNumber(v.patch, c);
    NotInSuffix(v, c);
  }

  lemma NotInSuffix(v: Version, c: char)
    requires Valid(v) && (c == '\n' || c == ' ' || c == ',' || c == ')')
    ensures c !in Suffix(v)
  {
    if v.extraNum.Some? { NotInNumber(v.extraNum.value, c); }
    if v.modifier.Some? { NotInNumber(v.modifier.value.1, c); }
  }

  /** A rendered version starts with a digit and holds no line feed, space,
      comma or closing parenthesis. */
  lemma RenderingShape(v: Version)
    requires Valid(v)
    ensures |ToString2(v)| > 0 && IsDigit(ToString2(v)[0])
    ensures '\n' !in ToString2(v) && ' ' !in ToString2(v) && ',' !in ToString2(v) && ')' !in ToString2(v)
  {
    assert ToString2(v)[0] == NatToString(v.major)[0];
    NotInRendering(v, '\n');
    NotInRendering(v, ' ');
    NotInRendering(v, ',');
    NotInRendering(v, ')');
  }

  /** The same for the medium rendering. */
  lemma RenderingShapeMed(v: Version)
    requires Valid(v)
    ensures |ToStringMed(v)| > 0 && IsDigit(ToStringMed(v)[0]) && '\n' !in ToStringMed(v)
  {
    assert ToStringMed(v)[0] == NatToString(v.major)[0];
    NotInNumber(v.major, '\n');
    NotInNumber(v.minor, '\n');
    if v.extraNum.Some? { NotInNumber(v.extraNum.value, '\n'); }
    if v.modifier.Some? { NotInNumber(v.modifier.value.1, '\n'); }
  }

  /** The alternation takes a whole operator spelling when a digit follows it. */
  lemma OperatorPrefix(t: ReqType, s: string)
    requires |s| > 0 && IsDigit(s[0])
    ensures OperatorLen(ReqTypeToString(t) + s) == |ReqTypeToString(t)|
    ensures (ReqTypeToString(t) + s)[..|ReqTypeToString(t)|] == ReqTypeToString(t)
    ensures (ReqTypeToString(t) + s)[|ReqTypeToString(t)|..] == s
  {
    var o := ReqTypeToString(t);
    var x := o + s;
    assert x[|o|] == s[0];
    assert x[..|o|] == o && x[|o|..] == s;
    assert |o| == 2 ==> x[..2] == o;
  }

  /** An operator in front of text that starts with a digit is taken whole,
      and the rest is parsed as the version. */
  lemma ParseWithOperator(t: ReqType, s: string)
    requires |s| > 0 && IsDigit(s[0]) && '\n' !in s
    ensures ConstraintFromStr(ReqTypeToString(t) + s) ==
      WithType(t, VersionFromStr(s))
  {
    var o := ReqTypeToString(t);
    var x := o + s;
    OperatorPrefix(t, s);
    assert x[0] == o[0];
    assert x != "*";
    assert '\n' !in o;
    assert '\n' !in x;
    ReqTypeRoundTrip(t);
  }

  /** Without an operator the constraint is `Exact`. */
  lemma ParseWithoutOperator(s: string)
    requires |s| > 0 && IsDigit(s[0]) && '\n' !in s
    ensures ConstraintFromStr(s) ==
      WithType(Exact, VersionFromStr(s))
  {
    assert s[0..] == s;
    assert s != "*";
    assert OperatorLen(s) == 0;
  }

  /** Round trip: the plain rendering, with or without `==` for `Exact`,
      parses back to the same constraint. */
  lemma ParseToString(c: Constraint, omitEquals: bool)
    requires Valid(c.version)
    ensures ConstraintFromStr(ConstraintToString(c, omitEquals, false)) == Ok(c)
  {
    if omitEquals && c.typ == Exact {
      assert ConstraintToString(c, omitEquals, false) == ToString2(c.version);
      RenderingShape(c.version);
      ParseToString2(c.version);
      ParseWithoutOperator(ToString2(c.version));
    } else {
      assert ConstraintToString(c, omitEquals, false) == ReqTypeToString(c.typ) + ToString2(c.version);
      ParseOperatorFull(ConstraintToString(c, omitEquals, false), c.typ, c.version);
    }
  }

  /** `^` or `~` followed by `=` is taken as the one-character operator,
      and the version text then starts with `=`, which is not a version. */
  lemma EqualsAfterOperator(x: string)
    requires |x| >= 2 && (x[0] == '^' || x[0] == '~') && x[1] == '=' && '\n' !in x
    ensures ConstraintFromStr(x).Err?
  {
    assert x != "*";
    assert OperatorLen(x) == 1;
    assert x[1..][0] == '=';
    assert ReplaceChar(x[1..], '*', '0')[0] == '=';
    assert DigitsLen(ReplaceChar(x[1..], '*', '0')) == 0;
  }

  /** The pip spelling `^=` / `~=` is not read back by `from_str`: the
      operator is `^` or `~` and the version text then starts with `=`. */
  lemma PipStyleDoesNotParse(c: Constraint, omitEquals: bool)
    requires Valid(c.version) && c.typ in {Caret, Tilde}
    ensures ConstraintFromStr(ConstraintToString(c, omitEquals, true)).Err?
  {
    RenderingShape(c.version);
    assert ConstraintToString(c, omitEquals, true) == ReqTypeToString(c.typ) + "=" + ToString2(c.version);
    assert '\n' !in ReqTypeToString(c.typ) + "=";
    EqualsAfterOperator(ConstraintToString(c, omitEquals, true));
  }

  // ---------------------------------------------------------------------
  // from_str_multiple

  /** The list parses exactly when every part does, and then keeps the
      order of the parts. */
  lemma ParseAllOk(parts: seq<string>)
    ensures ParseAll(parts).Ok? <==> forall i :: 0 <= i < |parts| ==> ConstraintFromStr(parts[i]).Ok?
    ensures ParseAll(parts).Ok? ==>
      forall i :: 0 <= i < |parts| ==> ConstraintFromStr(parts[i]) == Ok(ParseAll(parts).value[i])
  {
    CollectOk(ParseEach(parts));
  }

  /** A failing list reports the error of its first bad part. */
  lemma ParseAllFirstError(parts: seq<string>)
    requires ParseAll(parts).Err?
    ensures exists k :: (0 <= k < |parts| && (forall j :: 0 <= j < k ==> ConstraintFromStr(parts[j]).Ok?) &&
                         ConstraintFromStr(parts[k]) == Err(ParseAll(parts).details))
  {
    CollectFirstError(ParseEach(parts));
  }

  /** Parts that parse one by one to `cs` parse as a list to `cs`. */
  lemma ParseAllValues(parts: seq<string>, cs: seq<Constraint>)
    requires |cs| == |parts|
    requires forall i :: 0 <= i < |parts| ==> ConstraintFromStr(parts[i]) == Ok(cs[i])
    ensures ParseAll(parts) == Ok(cs)
  {
    ParseAllOk(parts);
    assert ParseAll(parts).Ok?;
    var vs := ParseAll(parts).value;
    assert |vs| == |cs|;
    assert forall i :: 0 <= i < |parts| ==> vs[i] == cs[i];
    assert vs == cs;
  }

  // ---------------------------------------------------------------------
  // Ranges against is_compatible

  /** Among plain versions the order is lexicographic on the components. */
  lemma PlainLessThan(a: Version, b: Version)
    requires IsPlain(a) && IsPlain(b)
    ensures LessThan(a, b) <==>
      a.major < b.major ||
      (a.major == b.major && a.minor < b.minor) ||
      (a.major == b.major && a.minor == b.minor && a.patch < b.patch)
  {
  }

  /** The safe decrement is the predecessor of a non-zero version among
      plain versions whose minor and patch stay within `MAX_VER`. */
  lemma DecrementIsPredecessor(w: Version, x: Version)
    requires IsPlain(w) && w.minor <= MAX_VER && w.patch <= MAX_VER
    requires IsPlain(x) && x != Zero()
    ensures AtMost(w, Decrement(x)) <==> LessThan(w, x)
  {
    PlainLessThan(w, x);
    PlainLessThan(Decrement(x), w);
  }

  /** A plain version within the conventional bounds. */
  predicate Bounded(w: Version) {
    IsPlain(w) && w.minor <= MAX_VER && w.patch <= MAX_VER && AtMost(w, Max())
  }

  /** `compatible_range` and `is_compatible` agree on plain constraints and
      bounded versions, with exactly two exceptions the code has: the tilde
      range includes its base, which `is_compatible` rejects, and `<0.0.0`
      or `!=0.0.0` admit 0.0.0 through the clamped decrement. */
  lemma CompatibleRangeAgreement(c: Constraint, w: Version)
    requires NoOverflow(c) && IsPlain(c.version) && Bounded(w)
    ensures InAny(w, CompatibleRange(c)) <==>
      IsCompatible(c, w) ||
      (c.typ == Tilde && w == c.version) ||
      (c.typ in {Lt, Ne} && c.version == Zero() && w == Zero())
  {
    PlainLessThan(w, c.version);
    PlainLessThan(c.version, w);
    PlainLessThan(w, Max());
    PlainCmpEqualIsEquality(c.version, w);
    match c.typ
    case Exact => OneRangeAgreement(c, w);
    case Gte => OneRangeAgreement(c, w);
    case Lte => OneRangeAgreement(c, w);
    case Gt => OneRangeAgreement(c, w);
    case Lt => LtAgreement(c, w);
    case Ne => NeAgreement(c, w);
    case Caret => CaretAgreement(c, w);
    case Tilde => TildeAgreement(c, w);
  }

  lemma OneRangeAgreement(c: Constraint, w: Version)
    requires NoOverflow(c) && IsPlain(c.version) && Bounded(w) && c.typ in {Exact, Gte, Lte, Gt}
    ensures InAny(w, CompatibleRange(c)) <==> IsCompatible(c, w)
  {
    PlainLessThan(w, c.version);
    PlainLessThan(c.version, w);
    PlainLessThan(w, Max());
    PlainCmpEqualIsEquality(c.version, w);
    assert InAny(w, CompatibleRange(c)) <==> InRange(w, CompatibleRange(c)[0]);
  }

  lemma LtAgreement(c: Constraint, w: Version)
    requires NoOverflow(c) && IsPlain(c.version) && Bounded(w) && c.typ == Lt
    ensures InAny(w, CompatibleRange(c)) <==> IsCompatible(c, w) || (c.version == Zero() && w == Zero())
  {
    PlainLessThan(w, c.version);
    PlainLessThan(c.version, w);
    PlainCmpEqualIsEquality(c.version, w);
    if c.version != Zero() { DecrementIsPredecessor(w, c.version); }
    assert InAny(w, CompatibleRange(c)) <==> InRange(w, CompatibleRange(c)[0]);
  }

  lemma NeAgreement(c: Constraint, w: Version)
    requires NoOverflow(c) && IsPlain(c.version) && Bounded(w) && c.typ == Ne
    ensures InAny(w, CompatibleRange(c)) <==> IsCompatible(c, w) || (c.version == Zero() && w == Zero())
  {
    PlainLessThan(w, c.version);
    PlainLessThan(c.version, w);
    PlainLessThan(w, Max());
    PlainCmpEqualIsEquality(c.version, w);
    if c.version != Zero() { DecrementIsPredecessor(w, c.version); }
    assert InAny(w, CompatibleRange(c)) <==>
      InRange(w, CompatibleRange(c)[0]) || InRange(w, CompatibleRange(c)[1]);
  }

  lemma CaretAgreement(c: Constraint, w: Version)
    requires NoOverflow(c) && IsPlain(c.version) && Bounded(w) && c.typ == Caret
    ensures InAny(w, CompatibleRange(c)) <==> IsCompatible(c, w)
  {
    PlainLessThan(w, c.version);
    PlainLessThan(c.version, w);
    PlainCmpEqualIsEquality(c.version, w);
    DecrementIsPredecessor(w, CaretMax(c.version));
    assert InAny(w, CompatibleRange(c)) <==> InRange(w, CompatibleRange(c)[0]);
  }

  lemma TildeAgreement(c: Constraint, w: Version)
    requires NoOverflow(c) && IsPlain(c.version) && Bounded(w) && c.typ == Tilde
    ensures InAny(w, CompatibleRange(c)) <==> IsCompatible(c, w) || w == c.version
  {
    PlainLessThan(w, c.version);
    PlainLessThan(c.version, w);
    PlainCmpEqualIsEquality(c.version, w);
    DecrementIsPredecessor(w, TildeMax(c.version));
    assert InAny(w, CompatibleRange(c)) <==> InRange(w, CompatibleRange(c)[0]);
  }

  /** The exceptions are genuine. The direct test rejects the tilde base and
      0.0.0 under `<0.0.0` and `!=0.0.0`, which the ranges admit. And `==` and
      `!=` compare structurally while the ranges use the ordering: the range
      of `==1.0.0.0` admits 1.0.0, which the direct test rejects, and
      `!=1.0.0.0` admits 1.0.0 while its ranges leave it out. */
  lemma CompatibleRangeExceptions(c: Constraint, w: Version)
    requires NoOverflow(c)
    ensures c.typ == Tilde && Bounded(c.version) ==>
      !IsCompatible(c, c.version) && InAny(c.version, CompatibleRange(c))
    ensures c.typ in {Lt, Ne} && c.version == Zero() ==>
      !IsCompatible(c, Zero()) && InAny(Zero(), CompatibleRange(c))
    ensures c.typ == Exact && Cmp(c.version, w) == Equal && w != c.version ==>
      !IsCompatible(c, w) && InAny(w, CompatibleRange(c))
    ensures c.typ == Ne && Cmp(c.version, w) == Equal && w != c.version &&
            (c.version.major, c.version.minor, c.version.patch) != (0, 0, 0) ==>
      IsCompatible(c, w) && !InAny(w, CompatibleRange(c))
  {
    var v := c.version;
    var r := CompatibleRange(c);
    CmpReflexive(v);
    if c.typ == Tilde && Bounded(v) {
      PlainLessThan(v, TildeMax(v));
      DecrementIsPredecessor(v, TildeMax(v));
      assert InRange(v, r[0]);
    }
    if c.typ in {Lt, Ne} && v == Zero() {
      assert InRange(Zero(), r[0]);
    }
    if Cmp(v, w) == Equal && w != v {
      if c.typ == Exact {
        CmpFlip(v, w);
        assert InRange(w, r[0]);
      }
      if c.typ == Ne && (v.major, v.minor, v.patch) != (0, 0, 0) {
        NeStructural(c, w);
      }
    }
  }

  lemma NeStructural(c: Constraint, w: Version)
    requires NoOverflow(c) && c.typ == Ne && Cmp(c.version, w) == Equal
    requires (c.version.major, c.version.minor, c.version.patch) != (0, 0, 0)
    ensures !InAny(w, CompatibleRange(c))
  {
    var v := c.version;
    var r := CompatibleRange(c);
    CmpEqualIffSameKey(v, w);
    var d := Decrement(v);
    assert LessThan(d, New(v.major, v.minor, v.patch));
    assert !InRange(w, r[0]);
    assert !InRange(w, r[1]);
  }

  /** The structural `==` on an instance: `==1.0.0.0` against 1.0.0. */
  lemma StructuralExactExample()
    ensures var c := Constraint(Exact, Version(1, 0, 0, Some(0), None));
            !IsCompatible(c, New(1, 0, 0)) && InAny(New(1, 0, 0), CompatibleRange(c))
  {
    var c := Constraint(Exact, Version(1, 0, 0, Some(0), None));
    CompatibleRangeExceptions(c, New(1, 0, 0));
  }

  /** Range bounds are built with `Version::new`, so a constraint on a
      pre-release disagrees with the direct test: `>1.2.3rc1` admits 1.2.3
      but its range starts at 1.2.4. */
  lemma RangeDropsModifier()
    ensures var c := Constraint(Gt, Version(1, 2, 3, None, Some((ReleaseCandidate, 1))));
            IsCompatible(c, New(1, 2, 3)) && !InAny(New(1, 2, 3), CompatibleRange(c))
  {
  }

  // ---------------------------------------------------------------------
  // Unit-test cases

  /** Test `compat_caret`. */
  lemma CaretExamples()
    ensures IsCompatible(Constraint(Caret, New(1, 2, 3)), New(1, 9, 9))
    ensures !IsCompatible(Constraint(Caret, New(1, 2, 3)), New(2, 0, 0))
    ensures IsCompatible(Constraint(Caret, New(0, 2, 3)), New(0, 2, 9))
    ensures !IsCompatible(Constraint(Caret, New(0, 2, 3)), New(0, 3, 0))
    ensures IsCompatible(Constraint(Caret, New(0, 0, 3)), New(0, 0, 3))
    ensures !IsCompatible(Constraint(Caret, New(0, 0, 3)), New(0, 0, 5))
  {
  }

  /** `^0.0.x` also admits `0.0.(x+1)` (the commented-out assertion of `compat_caret`). */
  lemma CaretZeroZeroAdmitsNext()
    ensures IsCompatible(Constraint(Caret, New(0, 0, 3)), New(0, 0, 4))
  {
  }

  /** A pre-release of the caret bound ranks below the bound, so `^1.2.3`
      admits 2.0.0a1. */
  lemma CaretAdmitsBoundPreRelease()
    ensures IsCompatible(Constraint(Caret, New(1, 2, 3)), Version(2, 0, 0, None, Some((Alpha, 1))))
  {
  }

  /** Where the model's ordering departs from `Version::cmp` as written:
      the written comparison calls 1.0.0.0a1 and 1.0.0rc1 equal, so the
      source's `is_compatible(>1.0.0.0a1, 1.0.0rc1)` is false, while the
      model, which ranks rc above a, admits 1.0.0rc1. */
  lemma AsWrittenGreaterThanDiffers()
    ensures var v := Version(1, 0, 0, Some(0), Some((Alpha, 1)));
            var w := Version(1, 0, 0, None, Some((ReleaseCandidate, 1)));
            CmpAsWritten(v, w) == Equal && IsCompatible(Constraint(Gt, v), w)
  {
  }

  /** Test `compat_gt_eq`. */
  lemma GtEqExamples()
    ensures IsCompatible(Constraint(Gte, New(1, 2, 3)), New(1, 2, 3))
    ensures IsCompatible(Constraint(Gte, New(1, 2, 3)), NewShort(4, 2))
    ensures !IsCompatible(Constraint(Gte, New(1, 2, 3)), New(1, 2, 2))
    ensures IsCompatible(Constraint(Gt, New(0, 2, 3)), New(0, 2, 9))
    ensures !IsCompatible(Constraint(Gt, New(0, 2, 3)), New(0, 1, 0))
    ensures !IsCompatible(Constraint(Gt, New(0, 2, 3)), New(0, 2, 3))
    ensures IsCompatible(Constraint(Exact, New(0, 0, 3)), New(0, 0, 3))
    ensures !IsCompatible(Constraint(Exact, New(0, 0, 3)), New(0, 0, 5))
  {
  }

  /** Test `compat_rng`. */
  lemma CompatibleRangeExamples()
    ensures CompatibleRange(Constraint(Gte, New(5, 1, 0))) == [(New(5, 1, 0), Max())]
    ensures CompatibleRange(Constraint(Ne, New(5, 1, 3))) ==
      [(Zero(), New(5, 1, 2)), (New(5, 1, 4), Max())]
  {
  }

  /** The rollover of the safe decrement. */
  lemma DecrementExamples()
    ensures Decrement(Zero()) == Zero()
    ensures Decrement(New(3, 0, 0)) == New(2, MAX_VER, MAX_VER)
    ensures Decrement(New(2, 9, 0)) == New(2, 8, MAX_VER)
    ensures Decrement(New(2, 9, 4)) == New(2, 9, 3)
  {
  }

  /** `from_str` in three steps: the operator, then the version after it. */
  lemma ParseSteps(x: string, n: nat, t: ReqType, v: Version)
    requires x != "*" && '\n' !in x && OperatorLen(x) == n && 0 < n <= |x|
    requires ReqTypeFromStr(x[..n]) == Ok(t) && VersionFromStr(x[n..]) == Ok(v)
    ensures ConstraintFromStr(x) == Ok(Constraint(t, v))
  {
  }

  /** An operator followed by the full rendering of a version parses back. */
  lemma ParseOperatorFull(x: string, t: ReqType, v: Version)
    requires Valid(v) && x == ReqTypeToString(t) + ToString2(v)
    ensures ConstraintFromStr(x) == Ok(Constraint(t, v))
  {
    ParseToString2(v);
    RenderingShape(v);
    ParseWithOperator(t, ToString2(v));
  }

  /** The same for the medium rendering of a version with patch 0 and no
      extra number. */
  lemma ParseOperatorMed(x: string, t: ReqType, v: Version)
    requires Valid(v) && v.patch == 0 && v.extraNum.None? && x == ReqTypeToString(t) + ToStringMed(v)
    ensures ConstraintFromStr(x) == Ok(Constraint(t, v))
  {
    ParseToStringMed(v);
    RenderingShapeMed(v);
    ParseWithOperator(t, ToStringMed(v));
  }

  /** Test `constraint_multiple`, the splitting: spaces dropped, split on
      commas. The test's text is written as the `", "`-join of its five
      parts. */
  lemma SplitMultipleExample(vers: string)
    requires vers == Join([">=2.7", "!=3.0.0", "!=3.1.0", "!=3.2.0", "<=3.5.0"], ", ")
    ensures Split(RemoveChar(vers, ' '), ',') == [">=2.7", "!=3.0.0", "!=3.1.0", "!=3.2.0", "<=3.5.0"]
  {
    var texts := [">=2.7", "!=3.0.0", "!=3.1.0", "!=3.2.0", "<=3.5.0"];
    assert forall i :: 0 <= i < |texts| ==> ' ' !in texts[i] && ',' !in texts[i];
    RemoveSpacesFromJoin(texts);
    SplitJoin(texts, ',');
  }

  /** The parts of `constraint_multiple` are renderings of its constraints. */
  lemma MultipleTexts(parts: seq<string>)
    requires parts == [">=2.7", "!=3.0.0", "!=3.1.0", "!=3.2.0", "<=3.5.0"]
    ensures |parts| == 5
    ensures parts[0] == ReqTypeToString(Gte) + ToStringMed(New(2, 7, 0))
    ensures parts[1] == ReqTypeToString(Ne) + ToString2(New(3, 0, 0))
    ensures parts[2] == ReqTypeToString(Ne) + ToString2(New(3, 1, 0))
    ensures parts[3] == ReqTypeToString(Ne) + ToString2(New(3, 2, 0))
    ensures parts[4] == ReqTypeToString(Lte) + ToString2(New(3, 5, 0))
  {
    assert ToStringMed(New(2, 7, 0)) == "2.7";
    Text300("3.0.0");
    Text310("3.1.0");
    Text320("3.2.0");
    Text350("3.5.0");
  }

  /** `3.0.0` is the full rendering of its version. */
  lemma Text300(lit: string)
    requires lit == "3.0.0"
    ensures ToString2(New(3, 0, 0)) == lit
  {
  }

  /** `3.1.0` is the full rendering of its version. */
  lemma Text310(lit: string)
    requires lit == "3.1.0"
    ensures ToString2(New(3, 1, 0)) == lit
  {
  }

  /** `3.2.0` is the full rendering of its version. */
  lemma Text320(lit: string)
    requires lit == "3.2.0"
    ensures ToString2(New(3, 2, 0)) == lit
  {
  }

  /** `3.5.0` is the full rendering of its version. */
  lemma Text350(lit: string)
    requires lit == "3.5.0"
    ensures ToString2(New(3, 5, 0)) == lit
  {
  }

  /** The parts of `constraint_multiple`, parsed one by one. */
  lemma ParseMultipleParts(parts: seq<string>)
    requires |parts| == 5
    requires parts[0] == ReqTypeToString(Gte) + ToStringMed(New(2, 7, 0))
    requires parts[1] == ReqTypeToString(Ne) + ToString2(New(3, 0, 0))
    requires parts[2] == ReqTypeToString(Ne) + ToString2(New(3, 1, 0))
    requires parts[3] == ReqTypeToString(Ne) + ToString2(New(3, 2, 0))
    requires parts[4] == ReqTypeToString(Lte) + ToString2(New(3, 5, 0))
    ensures ConstraintFromStr(parts[0]) == Ok(Constraint(Gte, New(2, 7, 0)))
    ensures ConstraintFromStr(parts[1]) == Ok(Constraint(Ne, New(3, 0, 0)))
    ensures ConstraintFromStr(parts[2]) == Ok(Constraint(Ne, New(3, 1, 0)))
    ensures ConstraintFromStr(parts[3]) == Ok(Constraint(Ne, New(3, 2, 0)))
    ensures ConstraintFromStr(parts[4]) == Ok(Constraint(Lte, New(3, 5, 0)))
  {
    ParseOperatorMed(parts[0], Gte, New(2, 7, 0));
    ParseOperatorFull(parts[1], Ne, New(3, 0, 0));
    ParseOperatorFull(parts[2], Ne, New(3, 1, 0));
    ParseOperatorFull(parts[3], Ne, New(3, 2, 0));
    ParseOperatorFull(parts[4], Lte, New(3, 5, 0));
  }

  /** Test `constraint_multiple`, the text again written as a join. */
  lemma FromStrMultipleExample(vers: string)
    requires vers == Join([">=2.7", "!=3.0.0", "!=3.1.0", "!=3.2.0", "<=3.5.0"], ", ")
    ensures ParseAll(Split(RemoveChar(vers, ' '), ',')) == Ok([
      Constraint(Gte, New(2, 7, 0)),
      Constraint(Ne, New(3, 0, 0)),
      Constraint(Ne, New(3, 1, 0)),
      Constraint(Ne, New(3, 2, 0)),
      Constraint(Lte, New(3, 5, 0))])
  {
    SplitMultipleExample(vers);
    var parts := Split(RemoveChar(vers, ' '), ',');
    MultipleTexts(parts);
    ParseMultipleParts(parts);
    var cs := [
      Constraint(Gte, New(2, 7, 0)),
      Constraint(Ne, New(3, 0, 0)),
      Constraint(Ne, New(3, 1, 0)),
      Constraint(Ne, New(3, 2, 0)),
      Constraint(Lte, New(3, 5, 0))];
    forall i | 0 <= i < |parts|
      ensures ConstraintFromStr(parts[i]) == Ok(cs[i])
    {
      assert i == 0 || i == 1 || i == 2 || i == 3 || i == 4;
    }
    ParseAllValues(parts, cs);
  }

  /** Test `constraint_to_string`. */
  lemma ConstraintParseExample1(x: string)
    requires x == "!=2.3"
    ensures ConstraintFromStr(x) == Ok(Constraint(Ne, New(2, 3, 0)))
  {
    assert x == ReqTypeToString(Ne) + ToStringMed(New(2, 3, 0));
    ParseOperatorMed(x, Ne, New(2, 3, 0));
  }

  /** Test `constraint_to_string`. */
  lemma ConstraintParseExample2(x: string)
    requires x == "~2.3"
    ensures ConstraintFromStr(x) == Ok(Constraint(Tilde, New(2, 3, 0)))
  {
    assert x == ReqTypeToString(Tilde) + ToStringMed(New(2, 3, 0));
    ParseOperatorMed(x, Tilde, New(2, 3, 0));
  }

  /** Test `constraint_to_string`. */
  lemma ConstraintParseExample3(x: string)
    requires x == "==5"
    ensures ConstraintFromStr(x) == Ok(Constraint(Exact, New(5, 0, 0)))
  {
    ParseBareNumber(5);
    assert NatToString(5) == "5";
    assert x == ReqTypeToString(Exact) + "5";
    ParseWithOperator(Exact, "5");
  }

  /** Test `constraint_to_string`. */
  lemma ConstraintParseExample4(x: string)
    requires x == "<=11.2.3"
    ensures ConstraintFromStr(x) == Ok(Constraint(Lte, New(11, 2, 3)))
  {
    assert NatToString(11) == "11" by {
      assert 11 / 10 == 1 && 11 % 10 == 1;
      assert NatToString(1) == "1";
    }
    assert x == ReqTypeToString(Lte) + ToString2(New(11, 2, 3));
    ParseOperatorFull(x, Lte, New(11, 2, 3));
  }

  /** Test `constraint_to_string`. */
  lemma ConstraintParseExample5(x: string)
    requires x == ">=0.0.1"
    ensures ConstraintFromStr(x) == Ok(Constraint(Gte, New(0, 0, 1)))
  {
    assert x == ReqTypeToString(Gte) + ToString2(New(0, 0, 1));
    ParseOperatorFull(x, Gte, New(0, 0, 1));
  }

  /** Test `constraint_w_modifier`: `!=2.3b3`. */
  lemma ModifierConstraintExample1(x: string)
    requires x == "!=2.3b3"
    ensures ConstraintFromStr(x) == Ok(Constraint(Ne, Version(2, 3, 0, None, Some((Beta, 3)))))
  {
    assert x == ReqTypeToString(Ne) + ToStringMed(Version(2, 3, 0, None, Some((Beta, 3))));
    ParseOperatorMed(x, Ne, Version(2, 3, 0, None, Some((Beta, 3))));
  }

  /** Test `constraint_w_modifier`: `^1.3.32rc1`. */
  lemma ModifierConstraintExample2(x: string)
    requires x == "^1.3.32rc1"
    ensures ConstraintFromStr(x) == Ok(Constraint(Caret, Version(1, 3, 32, None, Some((ReleaseCandidate, 1)))))
  {
    assert NatToString(32) == "32" by {
      assert 32 / 10 == 3 && 32 % 10 == 2;
    }
    assert x == ReqTypeToString(Caret) + ToString2(Version(1, 3, 32, None, Some((ReleaseCandidate, 1))));
    ParseOperatorFull(x, Caret, Version(1, 3, 32, None, Some((ReleaseCandidate, 1))));
  }

  /** Test `constraint_w_modifier`: `^1.3.32.dep1`, a dot before the
      modifier, written as the operator and the version text. */
  lemma ModifierConstraintExample3(op: string, y: string)
    requires op == "^" && y == "1.3.32.dep1"
    ensures ConstraintFromStr(op + y) == Ok(Constraint(Caret, Version(1, 3, 32, None, Some((Dep, 1)))))
  {
    assert op == ReqTypeToString(Caret);
    assert IsDigit(y[0]) && '\n' !in y;
    ParseDotModifierExample(y);
    ParseWithOperator(Caret, y);
  }

  // ---------------------------------------------------------------------
  // from_wh_py_vers

  /** Text that starts with neither a digit nor `*` is not a version. */
  lemma NotAVersion(s: string)
    requires |s| > 0 && !IsDigit(s[0]) && s[0] != '*'
    ensures VersionFromStr(s).Err?
  {
    assert ReplaceChar(s, '*', '0')[0] == s[0];
  }

  /** A tag list (not "any", not a version) is read tag by tag. */
  lemma WheelTagList(s: string)
    requires |s| > 0 && !IsDigit(s[0]) && s[0] != '*' && s != "any"
    ensures FromWheelPyVers(s) == Ok(WheelTags(Split(s, '.')))
  {
    NotAVersion(s);
  }

  /** A tag with a prefix, a major and a minor digit is that exact version. */
  lemma TagMajorMinor(part: string, pre: string, a: nat, b: nat)
    requires pre in {"cp", "py", "pp"} && a in {2, 3, 4} && b < 10
    requires part == pre + [DigitChar(a), DigitChar(b)]
    ensures WheelTag(part) == Some(Constraint(Exact, NewShort(a, b)))
  {
    assert part[..2] == pre;
    assert part[2..] == [DigitChar(a), DigitChar(b)];
    assert DigitChar(a) in "234";
  }

  /** A tag with a prefix and a lone major digit. */
  lemma TagMajor(part: string, pre: string, a: nat)
    requires pre in {"cp", "py", "pp"} && a in {2, 3, 4}
    requires part == pre + [DigitChar(a)]
    ensures WheelTag(part) == Some(Constraint(if a == 2 then Lte else Gte, if a == 2 then NewShort(2, 10) else NewShort(3, 0)))
  {
    assert part[..2] == pre;
    assert part[2..] == [DigitChar(a)];
    assert DigitChar(a) in "234";
  }

  /** When every part is a tag, no part is dropped and the order is kept. */
  lemma {:induction false} WheelTagsAllMatch(parts: seq<string>)
    requires forall i :: 0 <= i < |parts| ==> WheelTag(parts[i]).Some?
    ensures |WheelTags(parts)| == |parts|
    ensures forall i :: 0 <= i < |parts| ==> WheelTags(parts)[i] == WheelTag(parts[i]).value
  {
    if |parts| > 0 {
      var front := parts[..|parts| - 1];
      WheelTagsAllMatch(front);
    }
  }

  /** Test `python_version_from_warehouse`: "py3". */
  lemma WheelExample1(s: string)
    requires s == "py3"
    ensures FromWheelPyVers(s) == Ok([Constraint(Gte, New(3, 0, 0))])
  {
    WheelTagList(s);
    SplitWord(s, '.');
    TagMajor(s, "py", 3);
    WheelTagsAllMatch([s]);
    var r := WheelTags([s]);
    assert r == [r[0]];
  }

  lemma WheelTags2(parts: seq<string>)
    requires parts == ["cp35", "cp36", "cp37", "cp38"]
    ensures WheelTags(parts) == [
      Constraint(Exact, New(3, 5, 0)), Constraint(Exact, New(3, 6, 0)),
      Constraint(Exact, New(3, 7, 0)), Constraint(Exact, New(3, 8, 0))]
  {
    TagMajorMinor(parts[0], "cp", 3, 5);
    TagMajorMinor(parts[1], "cp", 3, 6);
    TagMajorMinor(parts[2], "cp", 3, 7);
    TagMajorMinor(parts[3], "cp", 3, 8);
    forall i | 0 <= i < |parts|
      ensures WheelTag(parts[i]).Some?
    {
      assert i == 0 || i == 1 || i == 2 || i == 3;
    }
    WheelTagsAllMatch(parts);
    var r := WheelTags(parts);
    assert r == [r[0], r[1], r[2], r[3]];
  }

  /** Test `python_version_from_warehouse`: "cp35.cp36.cp37.cp38". */
  lemma WheelExample2(s: string)
    requires s == "cp35.cp36.cp37.cp38"
    ensures FromWheelPyVers(s) == Ok([
      Constraint(Exact, New(3, 5, 0)), Constraint(Exact, New(3, 6, 0)),
      Constraint(Exact, New(3, 7, 0)), Constraint(Exact, New(3, 8, 0))])
  {
    WheelTagList(s);
    WheelSplit2(s);
    WheelTags2(Split(s, '.'));
  }

  lemma WheelSplit2(s: string)
    requires s == "cp35.cp36.cp37.cp38"
    ensures Split(s, '.') == ["cp35", "cp36", "cp37", "cp38"]
  {
    var parts := ["cp35", "cp36", "cp37", "cp38"];
    assert s == Join(parts, ".");
    SplitJoin(parts, '.');
  }

  /** Test `python_version_from_warehouse`: "cp26" and "pp36". */
  lemma WheelExample3(s: string, t: string)
    requires s == "cp26" && t == "pp36"
    ensures FromWheelPyVers(s) == Ok([Constraint(Exact, New(2, 6, 0))])
    ensures FromWheelPyVers(t) == Ok([Constraint(Exact, New(3, 6, 0))])
  {
    WheelTagList(s);
    SplitWord(s, '.');
    TagMajorMinor(s, "cp", 2, 6);
    WheelTagsAllMatch([s]);
    var r := WheelTags([s]);
    assert r == [r[0]];
    WheelTagList(t);
    SplitWord(t, '.');
    TagMajorMinor(t, "pp", 3, 6);
    WheelTagsAllMatch([t]);
    var q := WheelTags([t]);
    assert q == [q[0]];
  }

  lemma WheelSplit4(s: string)
    requires s == "py2.py3"
    ensures Split(s, '.') == ["py2", "py3"]
  {
    assert s == Join(["py2", "py3"], ".");
    SplitJoin(["py2", "py3"], '.');
  }

  /** Test `python_version_from_warehouse`: "py2.py3" is `<= 2.10` and `>= 3.0`. */
  lemma WheelExample4(s: string)
    requires s == "py2.py3"
    ensures FromWheelPyVers(s) == Ok([Constraint(Lte, New(2, 10, 0)), Constraint(Gte, New(3, 0, 0))])
  {
    WheelTagList(s);
    WheelSplit4(s);
    TagMajor("py2", "py", 2);
    TagMajor("py3", "py", 3);
    WheelTagsAllMatch(["py2", "py3"]);
    var r := WheelTags(["py2", "py3"]);
    assert r == [r[0], r[1]];
  }

  /** Test `python_version_from_warehouse`: "any". */
  lemma WheelExample5(s: string)
    requires s == "any"
    ensures FromWheelPyVers(s) == Ok([Constraint(Gte, New(2, 0, 0))])
  {
  }

  /** Test `python_version_from_warehouse`: "2.7". */
  lemma WheelExample6(s: string)
    requires s == "2.7"
    ensures FromWheelPyVers(s) == Ok([Constraint(Exact, New(2, 7, 0))])
  {
    assert s == ToStringMed(New(2, 7, 0));
    ParseToStringMed(New(2, 7, 0));
  }

  /** `*` alone is `>= 0.0.0`. */
  lemma ConstraintStarExample()
    ensures ConstraintFromStr("*") == Ok(Constraint(Gte, Zero()))
  {
  }
}
