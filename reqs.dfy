/** Requirements of src/dep_types.rs: the `Req` record, its two text
    dialects (the manifest's `name = "constraints"` and the package index's
    `name (constraints) ; markers`), the environment-marker scan of
    `parse_extras`, the pip form `name<op>version`, the manifest rendering,
    and the plain package and lock records.

    The operating-system type of `sys_platform` markers is a type parameter
    `Os`, read from text by an oracle `osFromStr`. */
module Reqs {
  import opened Prim
  import opened Text
  import opened Versions
  import opened Constraints

  datatype Req<Os> = Req(
    name: string,
    constraints: seq<Constraint>,
    extra: Option<string>,
    sysPlatform: Option<(ReqType, Os)>,
    pythonVersion: Option<Constraint>,
    installWithExtras: Option<seq<string>>)

  /** `Req::new`: a name and constraints, no markers. */
  function NewReq<Os>(name: string, constraints: seq<Constraint>): Req<Os>
  {
    Req(name, constraints, None, None, None, None)
  }

  // ---------------------------------------------------------------------
  // Environment markers:
  // `(extra|sys_platform|python_version)\s*(\^|~|==|<=|>=|<|>|!=)\s*['"](.*?)['"]`

  datatype MarkerKey = Extra | SysPlatform | PythonVersion

  function KeyName(k: MarkerKey): string
  {
    match k
    case Extra => "extra"
    case SysPlatform => "sys_platform"
    case PythonVersion => "python_version"
  }

  predicate StartsWith(s: string, p: string) { |p| <= |s| && s[..|p|] == p }

  /** The key the alternation takes at the start of `s`, if any. */
  function KeyAt(s: string): (r: Option<MarkerKey>)
    ensures r.Some? ==> StartsWith(s, KeyName(r.value))
    ensures r.None? <==> !StartsWith(s, "extra") && !StartsWith(s, "sys_platform") && !StartsWith(s, "python_version")
  {
    if StartsWith(s, "extra") then Some(Extra)
    else if StartsWith(s, "sys_platform") then Some(SysPlatform)
    else if StartsWith(s, "python_version") then Some(PythonVersion)
    else None
  }

  predicate IsQuote(c: char) { c == '\'' || c == '"' }

  /** Where the lazy `(.*?)['"]` stops: at the first quote of `s`, unless a
      line feed comes first (`.` does not match one), in which case there is
      no match. */
  function QuotedLen(s: string): (r: Option<nat>)
    ensures r.Some? ==> r.value < |s| && IsQuote(s[r.value])
  {
    if |s| == 0 || s[0] == '\n' then None
    else if IsQuote(s[0]) then Some(0)
    else match QuotedLen(s[1..])
      case None => None
      case Some(q) => Some(q + 1)
  }

  /** One match: the key, the operator text, the value between the quotes,
      and how many characters the match spans. */
  datatype Marker = Marker(key: MarkerKey, op: string, value: string, len: nat)

  /** The marker pattern matched at the very start of `s`. Each step is
      forced: `\s*` runs cannot stop early because neither an operator nor
      a quote starts with a space, a shorter operator (`<` for `<=`) leaves
      `=` where a space or quote is needed, and the lazy value ends at the
      first quote. */
  function MarkerAt(s: string): (r: Option<Marker>)
    ensures r.Some? ==> 0 < r.value.len <= |s|
  {
    match KeyAt(s)
    case None => None
    case Some(k) =>
      var t := s[|KeyName(k)|..];
      MarkerOf(k, t, MarkerAfterKey(t))
  }

  /** The marker with key `k` whose operator and value sit at positions `p`
      of the text `t` after the key. */
  function MarkerOf(k: MarkerKey, t: string, p: Option<(nat, nat, nat, nat)>): (r: Option<Marker>)
    requires p.Some? ==> p.value.0 <= p.value.1 <= p.value.2 <= p.value.3 < |t|
    ensures r.Some? <==> p.Some?
    ensures r.Some? ==> r.value.len == |KeyName(k)| + p.value.3 + 1
  {
    match p
    case None => None
    case Some(q) => Some(Marker(k, t[q.0..q.1], t[q.2..q.3], |KeyName(k)| + q.3 + 1))
  }

  /** The part of the pattern after the key, as positions in `t`: where the
      operator starts and ends, and where the quoted value starts and ends
      (the closing quote is at the end position). */
  function MarkerAfterKey(t: string): (r: Option<(nat, nat, nat, nat)>)
    ensures r.Some? ==> r.value.0 < r.value.1 < r.value.2 <= r.value.3 < |t|
  {
    var a := SpacesLen(t);
    var n := OperatorLen(t[a..]);
    if n == 0 then None
    else match QuotedAfter(t, a + n)
      case None => None
      case Some(v) => Some((a, a + n, v.0, v.1))
  }

  /** `\s*['"](.*?)['"]` from position `e` of `t`: where the value starts
      and where its closing quote is. */
  function QuotedAfter(t: string, e: nat): (r: Option<(nat, nat)>)
    requires e <= |t|
    ensures r.Some? ==> e < r.value.0 <= r.value.1 < |t|
  {
    var c := e + SpacesLen(t[e..]);
    if c == |t| || !IsQuote(t[c]) then None
    else match QuotedLen(t[c + 1..])
      case None => None
      case Some(q) => Some((c + 1, c + 1 + q))
  }

  /** `captures_iter`: the leftmost match, then the next one after its end,
      and so on; a position where no match starts is skipped. */
  function Markers(s: string): (ms: seq<Marker>)
    decreases |s|
  {
    if |s| == 0 then []
    else match MarkerAt(s)
      case Some(m) => [m] + Markers(s[m.len..])
      case None => Markers(s[1..])
  }

  /** The last marker with key `k`, if any. */
  function LastOf(ms: seq<Marker>, k: MarkerKey): (r: Option<Marker>)
    ensures r.Some? ==> r.value in ms && r.value.key == k
  {
    if |ms| == 0 then None
    else if ms[|ms| - 1].key == k then Some(ms[|ms| - 1])
    else LastOf(ms[..|ms| - 1], k)
  }

  /** A marker `parse_extras` reads without panicking: a platform the
      oracle knows, a Python version that parses as a constraint. */
  predicate MarkerReadable<Os>(m: Marker, osFromStr: string -> Option<Os>)
  {
    (m.key == SysPlatform ==> ReqTypeFromStr(m.op).Ok? && osFromStr(m.value).Some?) &&
    (m.key == PythonVersion ==> ConstraintFromStr(m.op + m.value).Ok?)
  }

  predicate Readable<Os>(ms: seq<Marker>, osFromStr: string -> Option<Os>)
  {
    forall m :: m in ms ==> MarkerReadable(m, osFromStr)
  }

  /** What `parse_extras` returns: `extra`, `sys_platform` and
      `python_version`. */
  type Extras<Os> = (Option<string>, Option<(ReqType, Os)>, Option<Constraint>)

  /** The value of marker `m` for its own key. */
  function ExtraValue(m: Marker): string { m.value }

  function PlatformValue<Os>(m: Marker, osFromStr: string -> Option<Os>): (ReqType, Os)
    requires MarkerReadable(m, osFromStr) && m.key == SysPlatform
  {
    (ReqTypeFromStr(m.op).value, osFromStr(m.value).value)
  }

  function PythonValue<Os>(m: Marker, osFromStr: string -> Option<Os>): Constraint
    requires MarkerReadable(m, osFromStr) && m.key == PythonVersion
  {
    ConstraintFromStr(m.op + m.value).value
  }

  /** Each field is read from the last marker with its key. */
  function ExtrasOf<Os>(ms: seq<Marker>, osFromStr: string -> Option<Os>): Extras<Os>
    requires Readable(ms, osFromStr)
  {
    (match LastOf(ms, Extra) case None => None case Some(m) => Some(ExtraValue(m)),
     match LastOf(ms, SysPlatform) case None => None case Some(m) => Some(PlatformValue(m, osFromStr)),
     match LastOf(ms, PythonVersion) case None => None case Some(m) => Some(PythonValue(m, osFromStr)))
  }

  /** One more marker overwrites the field of its own key and keeps the
      other two. */
  lemma ExtrasOfStep<Os>(ms: seq<Marker>, i: nat, osFromStr: string -> Option<Os>)
    requires Readable(ms, osFromStr) && i < |ms|
    ensures Readable(ms[..i], osFromStr) && Readable(ms[..i + 1], osFromStr)
    ensures MarkerReadable(ms[i], osFromStr)
    ensures ExtrasOf(ms[..i + 1], osFromStr) ==
      (if ms[i].key == Extra then Some(ExtraValue(ms[i])) else ExtrasOf(ms[..i], osFromStr).0,
       if ms[i].key == SysPlatform then Some(PlatformValue(ms[i], osFromStr)) else ExtrasOf(ms[..i], osFromStr).1,
       if ms[i].key == PythonVersion then Some(PythonValue(ms[i], osFromStr)) else ExtrasOf(ms[..i], osFromStr).2)
  {
    assert ms[i] in ms;
    ReadablePrefix(ms, i, osFromStr);
    ReadablePrefix(ms, i + 1, osFromStr);
    LastOfStep(ms, i, Extra);
    LastOfStep(ms, i, SysPlatform);
    LastOfStep(ms, i, PythonVersion);
  }

  lemma ReadablePrefix<Os>(ms: seq<Marker>, j: nat, osFromStr: string -> Option<Os>)
    requires Readable(ms, osFromStr) && j <= |ms|
    ensures Readable(ms[..j], osFromStr)
  {
    assert forall m :: m in ms[..j] ==> m in ms;
  }

  lemma LastOfStep(ms: seq<Marker>, i: nat, k: MarkerKey)
    requires i < |ms|
    ensures LastOf(ms[..i + 1], k) == if ms[i].key == k then Some(ms[i]) else LastOf(ms[..i], k)
  {
    assert ms[..i + 1][..i] == ms[..i];
  }

  /** The clause is absent, or every marker in it can be read. */
  predicate ClauseReadable<Os>(clause: Option<string>, osFromStr: string -> Option<Os>)
  {
    clause.None? || Readable(Markers(clause.value), osFromStr)
  }

  function ExtrasFrom<Os>(clause: Option<string>, osFromStr: string -> Option<Os>): Extras<Os>
    requires ClauseReadable(clause, osFromStr)
  {
    if clause.None? then (None, None, None) else ExtrasOf(Markers(clause.value), osFromStr)
  }

  /** `parse_extras`: with no clause, nothing; otherwise the matches are
      read in order and each overwrites the field of its key. */
  method ParseExtras<Os>(clause: Option<string>, osFromStr: string -> Option<Os>) returns (r: Extras<Os>)
    requires ClauseReadable(clause, osFromStr)
    ensures r == ExtrasFrom(clause, osFromStr)
  {
    var extra: Option<string> := None;
    var sysPlatform: Option<(ReqType, Os)> := None;
    var pythonVersion: Option<Constraint> := None;
    if clause.Some? {
      var ms := Markers(clause.value);
      for i := 0 to |ms|
        invariant Readable(ms[..i], osFromStr)
        invariant (extra, sysPlatform, pythonVersion) == ExtrasOf(ms[..i], osFromStr)
      {
        ExtrasOfStep(ms, i, osFromStr);
        var caps := ms[i];
        match caps.key
        case Extra =>
          extra := Some(caps.value);
        case SysPlatform =>
          sysPlatform := Some((ReqTypeFromStr(caps.op).value, osFromStr(caps.value).value));
        case PythonVersion =>
          pythonVersion := Some(ConstraintFromStr(caps.op + caps.value).value);
      }
      assert ms[..|ms|] == ms;
    }
    r := (extra, sysPlatform, pythonVersion);
  }

  // ---------------------------------------------------------------------
  // Req::from_str

  /** `[a-zA-Z\-0-9._]`. */
  predicate IsNameChar(c: char)
  {
    ('a' <= c <= 'z') || ('A' <= c <= 'Z') || c == '-' || IsDigit(c) || c == '.' || c == '_'
  }

  predicate IsName(s: string) { forall i :: 0 <= i < |s| ==> IsNameChar(s[i]) }

  /** Length of the longest prefix of name characters. */
  function NameLen(s: string): (n: nat)
    ensures n <= |s| && IsName(s[..n])
    ensures n < |s| ==> !IsNameChar(s[n])
  {
    if |s| == 0 || !IsNameChar(s[0]) then 0
    else
      var k := NameLen(s[1..]);
      assert s[..k + 1] == [s[0]] + s[1..][..k];
      k + 1
  }

  /** `(?:(?:\s*;\s*)(.*))?$` at the start of `t`: `Some(None)` when `t` is
      empty, `Some(Some(clause))` for a `;` (spaces around it skipped) and a
      clause without line feeds up to the end, `None` otherwise. */
  function MarkerTail(t: string): (r: Option<Option<string>>)
    ensures r == Some(None) <==> |t| == 0
    ensures r.Some? && r.value.Some? ==> '\n' !in r.value.value
  {
    if |t| == 0 then Some(None)
    else
      var a := SpacesLen(t);
      if a == |t| || t[a] != ';' then None
      else
        var u := t[a + 1..];
        var b := SpacesLen(u);
        if '\n' in u[b..] then None else Some(Some(u[b..]))
  }

  /** The text the optional tail stands for: nothing without a clause, and
      otherwise spaces, `;`, spaces and the clause, which has no line feed. */
  ghost predicate ClauseLayout(tail: string, clause: Option<string>)
  {
    match clause
    case None => tail == []
    case Some(x) =>
      '\n' !in x && exists w1, w2 :: AllSpace(w1) && AllSpace(w2) && tail == w1 + ";" + w2 + x
  }

  /** Whatever `MarkerTail` accepts is laid out as the clause it returns. */
  lemma MarkerTailLayout(t: string)
    requires MarkerTail(t).Some?
    ensures ClauseLayout(t, MarkerTail(t).value)
  {
    if |t| > 0 {
      var a := SpacesLen(t);
      SpacesLenPrefix(t);
      var u := t[a + 1..];
      var b := SpacesLen(u);
      SpacesLenPrefix(u);
      assert t == t[..a] + ";" + u[..b] + u[b..];
    }
  }

  /** What the version-bearing pattern captures: the name, the constraint
      list text and the optional marker clause. */
  datatype ReqCaptures = ReqCaptures(name: string, versions: string, clause: Option<string>)

  /** The lazy `(.*?)\)` followed by the tail: the first `)` at or after `k`,
      with no line feed before it, after which the tail matches; with the
      clause the tail captures. */
  function CloseParen(s: string, k: nat): (r: Option<(nat, Option<string>)>)
    requires k <= |s|
    ensures r.Some? ==> k <= r.value.0 < |s| && s[r.value.0] == ')'
    ensures r.Some? ==> forall i :: k <= i < r.value.0 ==> s[i] != '\n'
    decreases |s| - k
  {
    if k == |s| || s[k] == '\n' then None
    else if s[k] == ')' then
      match MarkerTail(s[k + 1..])
      case Some(clause) => Some((k, clause))
      case None => CloseParen(s, k + 1)
    else CloseParen(s, k + 1)
  }

  /** After the `)` that `CloseParen` finds, the tail matches with the
      clause it returns. */
  lemma {:induction false} CloseParenTail(s: string, k: nat, p: nat, clause: Option<string>)
    requires k <= |s| && CloseParen(s, k) == Some((p, clause))
    ensures MarkerTail(s[p + 1..]) == Some(clause)
    decreases |s| - k
  {
    if !(s[k] == ')' && MarkerTail(s[k + 1..]).Some?) {
      CloseParenTail(s, k + 1, p, clause);
    }
  }

  /** A line of the index dialect laid out as its captures: the name, at
      least one space, `(`, the constraint text, `)`, then the tail. */
  ghost predicate IndexLayout(s: string, caps: ReqCaptures)
  {
    && |caps.name| > 0 && IsName(caps.name) && '\n' !in caps.versions
    && exists ws, tail :: |ws| > 0 && AllSpace(ws) && ClauseLayout(tail, caps.clause) &&
         s == caps.name + ws + "(" + caps.versions + ")" + tail
  }

  /** `^([a-zA-Z\-0-9._]+)\s+\((.*?)\)(?:(?:\s*;\s*)(.*))?$`: the package
      index dialect, `name (constraints) ; markers`. What it captures puts
      the line back together. */
  function MatchIndexReq(s: string): (r: Option<ReqCaptures>)
    ensures r.Some? ==> IndexLayout(s, r.value)
  {
    var n := NameLen(s);
    var t := s[n..];
    var a := SpacesLen(t);
    if n == 0 || a == 0 || a == |t| || t[a] != '(' then None
    else
      var u := t[a + 1..];
      match CloseParen(u, 0)
      case None => None
      case Some(kc) =>
        IndexRebuild(s, n, t, a, u, kc.0, kc.1);
        Some(ReqCaptures(s[..n], u[..kc.0], kc.1))
  }

  lemma IndexRebuild(s: string, n: nat, t: string, a: nat, u: string, k: nat, clause: Option<string>)
    requires 0 < n <= |s| && IsName(s[..n]) && t == s[n..]
    requires a == SpacesLen(t) && 0 < a < |t| && t[a] == '(' && u == t[a + 1..]
    requires CloseParen(u, 0) == Some((k, clause))
    ensures IndexLayout(s, ReqCaptures(s[..n], u[..k], clause))
  {
    CloseParenTail(u, 0, k, clause);
    SpacesLenPrefix(t);
    IndexPieces(s, n, t, a, u, k);
    MarkerTailLayout(u[k + 1..]);
    var ws, tail := t[..a], u[k + 1..];
    assert |ws| > 0 && AllSpace(ws) && ClauseLayout(tail, clause);
    assert '\n' !in u[..k];
  }

  lemma IndexPieces(s: string, n: nat, t: string, a: nat, u: string, k: nat)
    requires n <= |s| && t == s[n..] && a < |t| && t[a] == '(' && u == t[a + 1..]
    requires k < |u| && u[k] == ')'
    ensures s == s[..n] + t[..a] + "(" + u[..k] + ")" + u[k + 1..]
  {
    var name, ws, v, tail := s[..n], t[..a], u[..k], u[k + 1..];
    assert u == v + ")" + tail;
    assert t == ws + "(" + u;
    assert s == name + t;
    Glue(s, name, t, ws, u, v, tail);
  }

  lemma Glue(s: string, name: string, t: string, ws: string, u: string, v: string, tail: string)
    requires s == name + t && t == ws + "(" + u && u == v + ")" + tail
    ensures s == name + ws + "(" + v + ")" + tail
  {
    calc {
      name + ws + "(" + v + ")" + tail;
      name + (ws + "(" + (v + ")" + tail));
    }
  }

  /** The text after a manifest name laid out around its value: spaces,
      `=`, spaces, a quote, the value without line feeds, and a quote. */
  ghost predicate QuotedLayout(r: string, v: string)
  {
    && '\n' !in v
    && exists w1, w2, q1, q2 :: AllSpace(w1) && AllSpace(w2) && IsQuote(q1) && IsQuote(q2) &&
         r == w1 + "=" + w2 + [q1] + v + [q2]
  }

  /** `\s*=\s*["'](.*)["']$` at the start of `r`: the text between the
      quotes, which runs to the last character. */
  function QuotedValue(r: string): (v: Option<string>)
    ensures v.Some? ==> '\n' !in v.value
  {
    var a := SpacesLen(r);
    if a == |r| || r[a] != '=' then None
    else
      var u := r[a + 1..];
      var b := SpacesLen(u);
      if b == |u| || !IsQuote(u[b]) then None
      else
        var w := u[b + 1..];
        if |w| == 0 || !IsQuote(w[|w| - 1]) || '\n' in w[..|w| - 1] then None
        else Some(w[..|w| - 1])
  }

  /** Whatever `QuotedValue` accepts is laid out around the value it returns. */
  lemma QuotedValueLayout(r: string)
    requires QuotedValue(r).Some?
    ensures QuotedLayout(r, QuotedValue(r).value)
  {
    var a := SpacesLen(r);
    var u := r[a + 1..];
    var b := SpacesLen(u);
    SpacesLenPrefix(r);
    SpacesLenPrefix(u);
    QuotedRebuild(r, a, u, b, u[b + 1..]);
  }

  lemma QuotedRebuild(r: string, a: nat, u: string, b: nat, w: string)
    requires a < |r| && AllSpace(r[..a]) && r[a] == '=' && u == r[a + 1..]
    requires b < |u| && AllSpace(u[..b]) && IsQuote(u[b]) && w == u[b + 1..]
    requires |w| > 0 && IsQuote(w[|w| - 1]) && '\n' !in w[..|w| - 1]
    ensures QuotedLayout(r, w[..|w| - 1])
  {
    assert w == w[..|w| - 1] + [w[|w| - 1]];
    assert u == u[..b] + [u[b]] + w;
    assert r == r[..a] + "=" + u;
    assert r == r[..a] + "=" + u[..b] + [u[b]] + w[..|w| - 1] + [w[|w| - 1]];
  }

  /** The lazy `^(.*?)` before `QuotedValue`: the shortest name, from `k`
      on, with no line feed, after which the rest matches. */
  function ManifestNameLen(s: string, k: nat): (r: Option<nat>)
    requires k <= |s|
    ensures r.Some? ==> k <= r.value <= |s| && QuotedValue(s[r.value..]).Some?
    ensures r.Some? ==> forall i :: k <= i < r.value ==> s[i] != '\n'
    decreases |s| - k
  {
    if QuotedValue(s[k..]).Some? then Some(k)
    else if k == |s| || s[k] == '\n' then None
    else ManifestNameLen(s, k + 1)
  }

  /** A line of the manifest dialect laid out as its captures: a name
      without line feeds, then the quoted value; there is no clause. */
  ghost predicate ManifestLayout(s: string, caps: ReqCaptures)
  {
    && caps.clause.None? && '\n' !in caps.name
    && |caps.name| <= |s| && s[..|caps.name|] == caps.name
    && QuotedLayout(s[|caps.name|..], caps.versions)
  }

  /** `^(.*?)\s*=\s*["'](.*)["']$`: the manifest dialect, `name = "constraints"`.
      What it captures puts the line back together. */
  function MatchManifestReq(s: string): (r: Option<ReqCaptures>)
    ensures r.Some? ==> ManifestLayout(s, r.value)
  {
    match ManifestNameLen(s, 0)
    case None => None
    case Some(k) =>
      QuotedValueLayout(s[k..]);
      Some(ReqCaptures(s[..k], QuotedValue(s[k..]).value, None))
  }

  function MatchVersioned(s: string, indexFmt: bool): Option<ReqCaptures>
  {
    if indexFmt then MatchIndexReq(s) else MatchManifestReq(s)
  }

  /** A line without constraints laid out as its captures: a non-empty
      name, followed in the index dialect by the tail, and by nothing in
      the manifest dialect. */
  ghost predicate BareLayout(s: string, indexFmt: bool, nc: (string, Option<string>))
  {
    && |nc.0| > 0 && IsName(nc.0)
    && if indexFmt then |nc.0| <= |s| && s[..|nc.0|] == nc.0 && ClauseLayout(s[|nc.0|..], nc.1)
       else s == nc.0 && nc.1.None?
  }

  /** The fallback without constraints: `^([a-zA-Z\-0-9._]+)(?:(?:\s*;\s*)(.*))?$`
      in the index dialect, `^([a-zA-Z\-0-9._]+)$` in the manifest one. */
  function MatchBareName(s: string, indexFmt: bool): (r: Option<(string, Option<string>)>)
    ensures r.Some? ==> BareLayout(s, indexFmt, r.value)
  {
    var n := NameLen(s);
    if n == 0 then None
    else if indexFmt then
      match MarkerTail(s[n..])
      case None => None
      case Some(clause) => MarkerTailLayout(s[n..]); Some((s[..n], clause))
    else if n == |s| then (assert s[..n] == s; Some((s, None)))
    else None
  }

  /** The constraint list of the version-bearing match, as
      `Constraint::from_str_multiple` reads it. */
  function ParseVersions(caps: ReqCaptures): Result<seq<Constraint>>
  {
    ParseAll(Split(RemoveChar(caps.versions, ' '), ','))
  }

  /** The inputs on which `Req::from_str` reaches no panic in
      `parse_extras`: whichever clause it hands over can be read. */
  predicate FromStrDefined<Os>(s: string, indexFmt: bool, osFromStr: string -> Option<Os>)
  {
    match MatchVersioned(s, indexFmt)
    case Some(caps) => ParseVersions(caps).Ok? ==> ClauseReadable(caps.clause, osFromStr)
    case None =>
      match MatchBareName(s, indexFmt)
      case Some(nc) => ClauseReadable(nc.1, osFromStr)
      case None => true
  }

  /** `Req::from_str(s, pypi_fmt)`: the version-bearing pattern of the
      dialect, then the bare-name pattern, else an error naming `s`. A bad
      constraint list is reported as `from_str_multiple` reports it. */
  function ReqFromStr<Os>(s: string, indexFmt: bool, osFromStr: string -> Option<Os>): (r: Result<Req<Os>>)
    requires FromStrDefined(s, indexFmt, osFromStr)
    ensures r.Ok? ==> r.value.installWithExtras.None?
    ensures r.Ok? ==> forall c :: c in r.value.constraints ==> Valid(c.version)
  {
    match MatchVersioned(s, indexFmt)
    case Some(caps) =>
      (match ParseVersions(caps)
       case Err(e) => Err(e)
       case Ok(cs) =>
         ParsedVersionsValid(Split(RemoveChar(caps.versions, ' '), ','));
         var e := ExtrasFrom(caps.clause, osFromStr);
         Ok(Req(caps.name, cs, e.0, e.1, e.2, None)))
    case None =>
      match MatchBareName(s, indexFmt)
      case Some(nc) =>
        var e := ExtrasFrom(nc.1, osFromStr);
        Ok(Req(nc.0, [], e.0, e.1, e.2, None))
      case None => Err("Problem parsing version requirement: " + s)
  }

  lemma {:induction false} ParsedVersionsValid(parts: seq<string>)
    ensures ParseAll(parts).Ok? ==> forall c :: c in ParseAll(parts).value ==> Valid(c.version)
  {
    var rs := ParseEach(parts);
    CollectOk(rs);
    if ParseAll(parts).Ok? {
      forall c | c in ParseAll(parts).value
        ensures Valid(c.version)
      {
        var i :| 0 <= i < |parts| && ParseAll(parts).value[i] == c;
        assert rs[i] == ConstraintFromStr(parts[i]);
      }
    }
  }

  // ---------------------------------------------------------------------
  // Req::from_pip_str

  /** `[a-zA-Z\-0-9]`: the name characters of the pip form, without `.` and `_`. */
  predicate IsPipNameChar(c: char)
  {
    ('a' <= c <= 'z') || ('A' <= c <= 'Z') || c == '-' || IsDigit(c)
  }

  /** The first position at or after `k` where an operator starts: where
      the lazy `^(.*?)` of `^(.*?)((?:\^|~|==|<=|>=|<|>|!=).*)$` stops. */
  function FirstOperator(s: string, k: nat): (r: Option<nat>)
    requires k <= |s|
    ensures r.Some? ==> k <= r.value < |s| && OperatorLen(s[r.value..]) > 0
    ensures r.Some? ==> forall j :: k <= j < r.value ==> OperatorLen(s[j..]) == 0
    ensures r.None? ==> forall j :: k <= j < |s| ==> OperatorLen(s[j..]) == 0
    decreases |s| - k
  {
    if k == |s| then None
    else if OperatorLen(s[k..]) > 0 then Some(k)
    else FirstOperator(s, k + 1)
  }

  /** `Req::from_pip_str`: a bare pip name, else a name up to the first
      operator and one constraint after it. `Ok(None)` where the source
      returns `None`; `Err` where its `expect` would panic on a constraint
      that does not parse. A line feed anywhere defeats the pattern. */
  function FromPipStr<Os>(s: string): (r: Result<Option<Req<Os>>>)
    ensures r.Ok? && r.value.Some? ==> |r.value.value.constraints| <= 1
  {
    if |s| > 0 && forall i :: 0 <= i < |s| ==> IsPipNameChar(s[i]) then Ok(Some(NewReq(s, [])))
    else if '\n' in s then Ok(None)
    else
      match FirstOperator(s, 0)
      case None => Ok(None)
      case Some(k) =>
        match ConstraintFromStr(s[k..])
        case Err(_) => Err("Problem parsing requirement")
        case Ok(c) => Ok(Some(NewReq(s[..k], [c])))
  }

  // ---------------------------------------------------------------------
  // Req::to_cfg_string, when there are constraints

  /** Each constraint rendered without `==` and in plain (not pip) style. */
  function Renderings(cs: seq<Constraint>): (rs: seq<string>)
    requires forall c :: c in cs ==> Valid(c.version)
    ensures |rs| == |cs|
    ensures forall i :: 0 <= i < |cs| ==> rs[i] == ConstraintToString(cs[i], true, false)
  {
    seq(|cs|, i requires 0 <= i < |cs| => ConstraintToString(cs[i], true, false))
  }

  /** `name = "c1, c2, ..."`, the manifest line of a requirement. */
  function ToCfgString<Os>(r: Req<Os>): string
    requires |r.constraints| > 0 && forall c :: c in r.constraints ==> Valid(c.version)
  {
    r.name + " = \"" + Join(Renderings(r.constraints), ", ") + "\""
  }

  // ---------------------------------------------------------------------
  // Records of resolved packages and the lock file

  /** The constraints a dependency carries and who asked for it. */
  datatype Dependency<Os> = Dependency(id: u32, name: string, version: Version, reqs: seq<Req<Os>>, parent: u32)

  /** Whether a package must be installed under another name: parent id,
      own id, new name. */
  datatype Rename = No | Yes(parentId: u32, selfId: u32, newName: string)

  datatype Package = Package(
    id: u32,
    parent: u32,
    name: string,
    version: Version,
    deps: seq<(u32, string, Version)>,
    rename: Rename)

  /** One exact package to download, with text fields as serialised. */
  datatype LockPackage = LockPackage(
    id: u32,
    name: string,
    version: string,
    source: Option<string>,
    dependencies: Option<seq<string>>,
    rename: Option<string>)

  datatype Lock = Lock(package: Option<seq<LockPackage>>, metadata: map<string, string>)
}
