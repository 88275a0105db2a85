/** The constraint engine of src/dep_types.rs: requirement operators, a
    single constraint (operator + version), its parsers, its plain
    rendering, the inclusive ranges it admits and the direct membership
    test. */
module Constraints {
  import opened Prim
  import opened Text
  import opened Versions

  datatype ReqType = Exact | Gte | Lte | Ne | Gt | Lt | Caret | Tilde

  /** The operator text shown immediately before a version. */
  function ReqTypeToString(t: ReqType): string
  {
    match t
    case Exact => "=="
    case Gte => ">="
    case Lte => "<="
    case Gt => ">"
    case Lt => "<"
    case Ne => "!="
    case Caret => "^"
    case Tilde => "~"
  }

  function ReqTypeFromStr(s: string): (r: Result<ReqType>)
    ensures r.Err? ==> r.details == "Problem parsing ReqType"
  {
    if s == "==" then Ok(Exact)
    else if s == ">=" then Ok(Gte)
    else if s == "<=" then Ok(Lte)
    else if s == ">" then Ok(Gt)
    else if s == "<" then Ok(Lt)
    else if s == "!=" then Ok(Ne)
    else if s == "^" then Ok(Caret)
    else if s == "~" then Ok(Tilde)
    else Err("Problem parsing ReqType")
  }

  datatype Constraint = Constraint(typ: ReqType, version: Version)

  /** An inclusive `(min, max)` pair of versions. */
  type Range = (Version, Version)

  predicate InRange(w: Version, r: Range) { AtMost(r.0, w) && AtMost(w, r.1) }

  /** Membership in a list of ranges joined with "or". */
  predicate InAny(w: Version, rs: seq<Range>) { exists i :: 0 <= i < |rs| && InRange(w, rs[i]) }

  // ---------------------------------------------------------------------
  // Parsing: `^(\^|~|==|<=|>=|<|>|!=)?(.*)$`

  /** Length of the operator the alternation `\^|~|==|<=|>=|<|>|!=` takes at
      the start of `s` (alternatives tried in that order), or 0. No two-character
      spelling starts with `^` or `~`, `<=` and `>=` come before `<` and `>`,
      and a lone `!` is no operator, so trying the two-character spellings
      first gives the same match. */
  function OperatorLen(s: string): (n: nat)
    ensures n <= 2 && n <= |s|
    ensures n > 0 ==> ReqTypeFromStr(s[..n]).Ok?
  {
    if |s| >= 2 && TwoCharOperator(s[0], s[1]) then 2
    else if |s| >= 1 && OneCharOperator(s[0]) then 1
    else 0
  }

  predicate TwoCharOperator(a: char, b: char) { (a == '=' || a == '<' || a == '>' || a == '!') && b == '=' }
  predicate OneCharOperator(a: char) { a == '^' || a == '~' || a == '<' || a == '>' }

  /** `Constraint::from_str`. A bare `*` is `>= 0.0.0`; otherwise an optional
      operator (default `Exact`) and a version. The regex's `.` does not
      match a line feed, so text containing one does not match at all. */
  function ConstraintFromStr(s: string): (r: Result<Constraint>)
    ensures r.Ok? ==> Valid(r.value.version)
  {
    if s == "*" then Ok(Constraint(Gte, Zero()))
    else if '\n' in s then Err("Problem parsing constraint")
    else
      var n := OperatorLen(s);
      var typ := if n == 0 then Exact else ReqTypeFromStr(s[..n]).value;
      WithType(typ, VersionFromStr(s[n..]))
  }

  /** A parsed version under an operator, or the version's parse error. */
  function WithType(typ: ReqType, r: Result<Version>): (c: Result<Constraint>)
    ensures c.Ok? <==> r.Ok?
    ensures c.Ok? ==> c.value == Constraint(typ, r.value)
    ensures c.Err? ==> c.details == r.details
  {
    match r
    case Err(e) => Err(e)
    case Ok(v) => Ok(Constraint(typ, v))
  }

  /** Every part parsed on its own. */
  function ParseEach(parts: seq<string>): (rs: seq<Result<Constraint>>)
    ensures |rs| == |parts|
    ensures forall i :: 0 <= i < |parts| ==> rs[i] == ConstraintFromStr(parts[i])
  {
    seq(|parts|, i requires 0 <= i < |parts| => ConstraintFromStr(parts[i]))
  }

  /** `from_str_multiple` after spaces are removed and the text is split on
      commas: every part parsed in order, failing on the first bad part. */
  function ParseAll(parts: seq<string>): Result<seq<Constraint>>
  {
    Collect(ParseEach(parts))
  }

  /** `Constraint::from_str_multiple`. */
  method FromStrMultiple(vers: string) returns (r: Result<seq<Constraint>>)
    ensures r == ParseAll(Split(RemoveChar(vers, ' '), ','))
  {
    var parts := Split(RemoveChar(vers, ' '), ',');
    ghost var rs := ParseEach(parts);
    var result: seq<Constraint> := [];
    for i := 0 to |parts|
      invariant Collect(rs[..i]) == Ok(result)
    {
      var c := ConstraintFromStr(parts[i]);
      CollectStep(rs, i);
      if c.Err? {
        CollectStopsAtError(rs, i + 1);
        return Err(c.details);
      }
      result := result + [c.value];
    }
    assert rs[..|parts|] == rs;
    r := Ok(result);
  }

  // ---------------------------------------------------------------------
  // Wheel python tags: "cp37", "py2.py3", "any", "2.7", ...

  /** One dot-separated part against `^(?:cp|py|pp)?([234])(\d)?$`: a major
      and minor give that exact version; a lone 2 means `<= 2.10`, a lone
      3 or 4 means `>= 3.0`; anything else contributes nothing. */
  function WheelTag(part: string): (r: Option<Constraint>)
    ensures r.Some? ==> IsPlain(r.value.version) && r.value.typ in {Exact, Lte, Gte}
  {
    var p := if |part| >= 2 && part[..2] in {"cp", "py", "pp"} then 2 else 0;
    var rest := part[p..];
    if |rest| >= 1 && rest[0] in "234" then
      var major := DigitValue(rest[0]);
      if |rest| == 1 then
        if major == 2 then Some(Constraint(Lte, NewShort(2, 10)))
        else Some(Constraint(Gte, NewShort(3, 0)))
      else if |rest| == 2 && IsDigit(rest[1]) then
        Some(Constraint(Exact, NewShort(major, DigitValue(rest[1]))))
      else None
    else None
  }

  /** The tags of all parts, in order, the non-matching parts skipped. */
  function WheelTags(parts: seq<string>): (r: seq<Constraint>)
    ensures |r| <= |parts|
    ensures forall i :: 0 <= i < |r| ==> r[i].typ in {Exact, Lte, Gte}
  {
    if |parts| == 0 then []
    else
      var last := WheelTag(parts[|parts| - 1]);
      WheelTags(parts[..|parts| - 1]) + (if last.Some? then [last.value] else [])
  }

  /** `Constraint::from_wh_py_vers`: "any" is `>= 2.0.0`, a parseable version
      is that exact version, otherwise every dot-separated tag is read. */
  function FromWheelPyVers(s: string): Result<seq<Constraint>>
  {
    if s == "any" then Ok([Constraint(Gte, New(2, 0, 0))])
    else if VersionFromStr(s).Ok? then Ok([Constraint(Exact, VersionFromStr(s).value)])
    else Ok(WheelTags(Split(s, '.')))
  }

  method FromWhPyVers(s: string) returns (r: Result<seq<Constraint>>)
    ensures r == FromWheelPyVers(s)
    ensures r.Ok? && |r.value| <= |Split(s, '.')|
  {
    if s == "any" {
      return Ok([Constraint(Gte, New(2, 0, 0))]);
    }
    var parsed := VersionFromStr(s);
    if parsed.Ok? {
      return Ok([Constraint(Exact, parsed.value)]);
    }
    var parts := Split(s, '.');
    var result: seq<Constraint> := [];
    for i := 0 to |parts|
      invariant result == WheelTags(parts[..i])
    {
      assert parts[..i + 1][..i] == parts[..i];
      var tag := WheelTag(parts[i]);
      if tag.Some? {
        result := result + [tag.value];
      }
    }
    assert parts[..|parts|] == parts;
    r := Ok(result);
  }

  // ---------------------------------------------------------------------
  // Rendering

  /** `Constraint::to_string(ommit_equals, pip_style)`, with the version in
      its plain full form. */
  function ConstraintToString(c: Constraint, omitEquals: bool, pipStyle: bool): string
    requires Valid(c.version)
  {
    var typeStr := if omitEquals && c.typ == Exact then "" else ReqTypeToString(c.typ);
    var pip := if pipStyle && c.typ in {Caret, Tilde} then "=" else "";
    typeStr + pip + ToString2(c.version)
  }

  // ---------------------------------------------------------------------
  // Ranges and membership

  /** The `safely_subtract` closure: one step down, rolling over into the
      next component with `MAX_VER`, and 0.0.0 kept as it is. */
  function SafelySubtract(major: u32, minor: u32, patch: u32): (r: (u32, u32, u32))
    ensures (major, minor, patch) == (0, 0, 0) ==> r == (0, 0, 0)
    ensures (major, minor, patch) != (0, 0, 0) ==> LessThan(New(r.0, r.1, r.2), New(major, minor, patch))
  {
    if major == 0 && minor == 0 && patch == 0 then (major, minor, patch)
    else if minor == 0 && patch == 0 then (major - 1, MAX_VER, MAX_VER)
    else if patch == 0 then (major, minor - 1, MAX_VER)
    else (major, minor, patch - 1)
  }

  function Decrement(v: Version): Version
  {
    var (a, b, c) := SafelySubtract(v.major, v.minor, v.patch);
    New(a, b, c)
  }

  /** The arithmetic on the bound components fits in a `u32` (the source
      would otherwise panic): first the exclusive upper bounds of `^`/`~`. */
  predicate UpperFits(c: Constraint) {
    var v := c.version;
    match c.typ
    case Caret =>
      if v.major > 0 then v.major < U32_MAX
      else if v.minor > 0 then v.minor < U32_MAX
      else v.patch + 2 <= U32_MAX
    case Tilde =>
      if v.minor > 0 then v.minor < U32_MAX else v.major < U32_MAX
    case _ => true
  }

  /** ... and the `patch + 1` of `>` and `!=`. */
  predicate NoOverflow(c: Constraint) {
    UpperFits(c) && (c.typ in {Gt, Ne} ==> c.version.patch < U32_MAX)
  }

  /** The exclusive upper bound of a caret constraint: the next version that
      changes the leftmost non-zero component, or patch + 2 for `^0.0.x`. */
  function CaretMax(v: Version): Version
    requires UpperFits(Constraint(Caret, v))
  {
    if v.major > 0 then New(v.major + 1, 0, 0)
    else if v.minor > 0 then New(0, v.minor + 1, 0)
    else New(0, 0, v.patch + 2)
  }

  /** The exclusive upper bound of a tilde constraint. */
  function TildeMax(v: Version): Version
    requires UpperFits(Constraint(Tilde, v))
  {
    if v.minor > 0 then New(v.major, v.minor + 1, 0) else New(v.major + 1, 0, 0)
  }

  /** `compatible_range`: the inclusive ranges a constraint admits; two for
      `!=`, one otherwise. Bounds built here drop extra numbers and
      modifiers. */
  function CompatibleRange(c: Constraint): (r: seq<Range>)
    requires NoOverflow(c)
    ensures |r| == if c.typ == Ne then 2 else 1
  {
    var v := c.version;
    match c.typ
    case Exact => [(v, v)]
    case Gte => [(v, Max())]
    case Lte => [(Zero(), v)]
    case Gt => [(New(v.major, v.minor, v.patch + 1), Max())]
    case Lt => [(Zero(), Decrement(v))]
    case Ne => [(Zero(), Decrement(v)), (New(v.major, v.minor, v.patch + 1), Max())]
    case Caret => [(v, Decrement(CaretMax(v)))]
    case Tilde => [(v, Decrement(TildeMax(v)))]
  }

  /** `is_compatible`: the direct test, written independently of the ranges.
      `==` and `!=` are structural; the tilde lower bound is strict. */
  predicate IsCompatible(c: Constraint, w: Version): (r: bool)
    requires UpperFits(c)
    // Without a modifier, `^` keeps the leftmost non-zero component and
    // `^0.0.x` admits x and x + 1. (A pre-release of the bound, such as
    // 2.0.0a1 under `^1.2.3`, ranks below it and is admitted.)
    ensures r && c.typ == Caret && w.modifier.None? ==>
      && w.major == c.version.major
      && (c.version.major == 0 ==> w.minor == c.version.minor)
      && (c.version.major == 0 && c.version.minor == 0 ==>
            c.version.patch <= w.patch <= c.version.patch + 1)
    // Likewise `~` keeps the major number, and the minor one when it is not 0.
    ensures r && c.typ == Tilde && w.modifier.None? ==>
      w.major == c.version.major && (c.version.minor > 0 ==> w.minor == c.version.minor)
  {
    var v := c.version;
    match c.typ
    case Exact => v == w
    case Gte => AtMost(v, w)
    case Lte => AtMost(w, v)
    case Gt => LessThan(v, w)
    case Lt => LessThan(w, v)
    case Ne => v != w
    case Caret => AtMost(v, w) && LessThan(w, CaretMax(v))
    case Tilde => LessThan(v, w) && LessThan(w, TildeMax(v))
  }
}
