/** The requirement-parsing cases of the tests of src/dep_types.rs, each
    reduced to the general properties of the parser. */
module ReqExamples {
  import opened Prim
  import opened Text
  import opened Versions
  import opened VersionProofs
  import opened Constraints
  import opened ConstraintProofs
  import opened Reqs
  import opened ReqProofs

  // ---------------------------------------------------------------------
  // One constraint in either dialect

  /** A bare full rendering with no operator parses as an exact constraint. */
  lemma ParseExact(x: string, v: Version)
    requires Valid(v) && x == ToString2(v)
    ensures ConstraintFromStr(x) == Ok(Constraint(Exact, v))
  {
    RenderingShape(v);
    ParseToString2(v);
    ParseWithoutOperator(x);
  }

  /** A constraint text without spaces or commas is the whole list. */
  lemma SingleVersions(x: string, c: Constraint)
    requires ' ' !in x && ',' !in x && ConstraintFromStr(x) == Ok(c)
    ensures ParseAll(Split(RemoveChar(x, ' '), ',')) == Ok([c])
  {
    SplitWord(x, ',');
    ParseAllValues([x], [c]);
  }

  /** `name = "x"` with a single constraint text `x`. */
  lemma ManifestSingle<Os>(name: string, x: string, c: Constraint, osFromStr: string -> Option<Os>)
    requires IsName(name) && ' ' !in x && ',' !in x && '\n' !in x
    requires ConstraintFromStr(x) == Ok(c)
    ensures FromStrDefined(name + " = \"" + x + "\"", false, osFromStr)
    ensures ReqFromStr(name + " = \"" + x + "\"", false, osFromStr) == Ok(NewReq(name, [c]))
  {
    ManifestLine(name, x);
    SingleVersions(x, c);
  }

  /** `name (x1,x2,...)` with constraint texts `xi` and no markers. */
  lemma IndexMany<Os>(name: string, parts: seq<string>, cs: seq<Constraint>, osFromStr: string -> Option<Os>)
    requires |name| > 0 && IsName(name) && |parts| > 0 && |cs| == |parts|
    requires forall i :: 0 <= i < |parts| ==>
      ' ' !in parts[i] && ',' !in parts[i] && ')' !in parts[i] && '\n' !in parts[i]
    requires forall i :: 0 <= i < |parts| ==> ConstraintFromStr(parts[i]) == Ok(cs[i])
    ensures FromStrDefined(name + " (" + Join(parts, ",") + ")", true, osFromStr)
    ensures ReqFromStr(name + " (" + Join(parts, ",") + ")", true, osFromStr) == Ok(NewReq(name, cs))
  {
    JoinedList(parts, cs);
    IndexLine(name, Join(parts, ","), "");
    assert name + " (" + Join(parts, ",") + ")" + "" == name + " (" + Join(parts, ",") + ")";
  }

  /** The comma-join of constraint texts holds no `)` or line feed and
      reads back as their constraints. */
  lemma JoinedList(parts: seq<string>, cs: seq<Constraint>)
    requires |parts| > 0 && |cs| == |parts|
    requires forall i :: 0 <= i < |parts| ==>
      ' ' !in parts[i] && ',' !in parts[i] && ')' !in parts[i] && '\n' !in parts[i]
    requires forall i :: 0 <= i < |parts| ==> ConstraintFromStr(parts[i]) == Ok(cs[i])
    ensures ')' !in Join(parts, ",") && '\n' !in Join(parts, ",")
    ensures ParseAll(Split(RemoveChar(Join(parts, ","), ' '), ',')) == Ok(cs)
  {
    JoinedChars(parts);
    SplitJoin(parts, ',');
    ParseAllValues(parts, cs);
  }

  lemma JoinedChars(parts: seq<string>)
    requires forall i :: 0 <= i < |parts| ==>
      ' ' !in parts[i] && ',' !in parts[i] && ')' !in parts[i] && '\n' !in parts[i]
    ensures ')' !in Join(parts, ",") && '\n' !in Join(parts, ",") && ' ' !in Join(parts, ",")
  {
    JoinExcludes(parts, ",", ')');
    JoinExcludes(parts, ",", '\n');
    JoinExcludes(parts, ",", ' ');
  }

  /** `name (x)` with a single constraint text `x` and no markers. */
  lemma IndexSingle<Os>(name: string, x: string, c: Constraint, osFromStr: string -> Option<Os>)
    requires |name| > 0 && IsName(name) && ' ' !in x && ',' !in x && ')' !in x && '\n' !in x
    requires ConstraintFromStr(x) == Ok(c)
    ensures FromStrDefined(name + " (" + x + ")", true, osFromStr)
    ensures ReqFromStr(name + " (" + x + ")", true, osFromStr) == Ok(NewReq(name, [c]))
  {
    assert Join([x], ",") == x;
    IndexMany(name, [x], [c], osFromStr);
  }

  /** `Req::from_str` once the versioned pattern has matched and its
      constraint list has parsed. */
  lemma FromCaptures<Os>(s: string, indexFmt: bool, caps: ReqCaptures, cs: seq<Constraint>, osFromStr: string -> Option<Os>)
    requires MatchVersioned(s, indexFmt) == Some(caps) && ParseVersions(caps) == Ok(cs)
    requires ClauseReadable(caps.clause, osFromStr)
    ensures FromStrDefined(s, indexFmt, osFromStr)
    ensures var e := ExtrasFrom(caps.clause, osFromStr);
      ReqFromStr(s, indexFmt, osFromStr) == Ok(Req(caps.name, cs, e.0, e.1, e.2, None))
  {
  }

  /** The tail ` ; clause` with a single space on each side. */
  lemma SemicolonTail(clause: string)
    requires (|clause| == 0 || !IsSpace(clause[0])) && '\n' !in clause
    ensures MarkerTail(" ; " + clause) == Some(Some(clause))
  {
    var t := " ; " + clause;
    assert t[1] == ';';
    SpacesLenExact(t, 1);
    var u := t[2..];
    assert u == " " + clause;
    SpacesLenExact(u, 1);
    assert u[1..] == clause;
  }

  /** `name (x) ; clause`: one constraint text, then a marker clause whose
      markers can be read; the fields come from the clause. */
  lemma IndexSingleClause<Os>(name: string, x: string, c: Constraint, clause: string, osFromStr: string -> Option<Os>)
    requires |name| > 0 && IsName(name) && ' ' !in x && ',' !in x && ')' !in x && '\n' !in x
    requires ConstraintFromStr(x) == Ok(c)
    requires (|clause| == 0 || !IsSpace(clause[0])) && '\n' !in clause
    requires Readable(Markers(clause), osFromStr)
    ensures FromStrDefined(name + " (" + x + ")" + (" ; " + clause), true, osFromStr)
    ensures var e := ExtrasOf(Markers(clause), osFromStr);
      ReqFromStr(name + " (" + x + ")" + (" ; " + clause), true, osFromStr) ==
      Ok(Req(name, [c], e.0, e.1, e.2, None))
  {
    SemicolonTail(clause);
    IndexLine(name, x, " ; " + clause);
    SingleVersions(x, c);
    FromCaptures(name + " (" + x + ")" + (" ; " + clause), true, ReqCaptures(name, x, Some(clause)), [c], osFromStr);
  }

  /** A clause that is one marker and nothing after it: the closing quote
      at `d` is its last character. */
  lemma SingleMarker(k: MarkerKey, x: string, a: nat, n: nat, b: nat, d: nat)
    requires a + n <= b < d && d + 1 == |x|
    requires forall i :: 0 <= i < a ==> IsSpace(x[i])
    requires !IsSpace(x[a]) && 0 < n == OperatorLen(x[a..])
    requires forall i :: a + n <= i < b ==> IsSpace(x[i])
    requires IsQuote(x[b]) && IsQuote(x[d])
    requires forall i :: b < i < d ==> !IsQuote(x[i]) && x[i] != '\n'
    ensures Markers(KeyName(k) + x) == [Marker(k, x[a..a + n], x[b + 1..d], |KeyName(k)| + d + 1)]
  {
    MarkerAtLayout(k, x, a, n, b, d);
    WholeMatch(KeyName(k) + x, Marker(k, x[a..a + n], x[b + 1..d], |KeyName(k)| + d + 1));
  }

  /** A match that spans the whole text is the only one. */
  lemma WholeMatch(s: string, m: Marker)
    requires MarkerAt(s) == Some(m) && m.len == |s|
    ensures Markers(s) == [m]
  {
    MarkersFirst(s, m);
    assert s[m.len..] == [];
  }

  lemma MarkersFirst(s: string, m: Marker)
    requires |s| > 0 && MarkerAt(s) == Some(m)
    ensures Markers(s) == [m] + Markers(s[m.len..])
  {
  }

  /** A clause with a single `extra` marker sets only `extra`. */
  lemma OneExtraMarker<Os>(m: Marker, osFromStr: string -> Option<Os>)
    requires m.key == Extra
    ensures Readable([m], osFromStr)
    ensures ExtrasOf([m], osFromStr) == (Some(m.value), None, None)
  {
  }

  /** A clause that is a single `extra` marker sets `extra` to its value
      and nothing else. */
  lemma ExtraClause<Os>(key: string, x: string, a: nat, n: nat, b: nat, d: nat, osFromStr: string -> Option<Os>)
    requires key == KeyName(Extra)
    requires a + n <= b < d && d + 1 == |x|
    requires forall i :: 0 <= i < a ==> IsSpace(x[i])
    requires !IsSpace(x[a]) && 0 < n == OperatorLen(x[a..])
    requires forall i :: a + n <= i < b ==> IsSpace(x[i])
    requires IsQuote(x[b]) && IsQuote(x[d])
    requires forall i :: b < i < d ==> !IsQuote(x[i]) && x[i] != '\n'
    ensures Readable(Markers(key + x), osFromStr)
    ensures ExtrasOf(Markers(key + x), osFromStr) == (Some(x[b + 1..d]), None, None)
  {
    SingleMarker(Extra, x, a, n, b, d);
    OneExtraMarker(Marker(Extra, x[a..a + n], x[b + 1..d], |KeyName(Extra)| + d + 1), osFromStr);
  }

  /** A clause `extra == '<v>'` sets `extra` to `v` and nothing else. */
  lemma ExtraEquals<Os>(key: string, rest: string, v: string, osFromStr: string -> Option<Os>)
    requires key == KeyName(Extra) && rest == " == '" + v + "'"
    requires forall i :: 0 <= i < |v| ==> !IsQuote(v[i]) && v[i] != '\n'
    ensures !IsSpace((key + rest)[0]) && '\n' !in key + rest
    ensures Readable(Markers(key + rest), osFromStr)
    ensures ExtrasOf(Markers(key + rest), osFromStr) == (Some(v), None, None)
  {
    EqualsQuotedLayout(rest, v);
    EqualsQuotedLine(key, rest, v);
    ExtraClause(key, rest, 1, 2, 4, |v| + 5, osFromStr);
  }

  lemma EqualsQuotedLayout(rest: string, v: string)
    requires rest == " == '" + v + "'"
    requires forall i :: 0 <= i < |v| ==> !IsQuote(v[i]) && v[i] != '\n'
    ensures |rest| == |v| + 6
    ensures IsSpace(rest[0]) && !IsSpace(rest[1]) && OperatorLen(rest[1..]) == 2 && IsSpace(rest[3])
    ensures IsQuote(rest[4]) && IsQuote(rest[|v| + 5])
    ensures forall i :: 4 < i < |v| + 5 ==> !IsQuote(rest[i]) && rest[i] != '\n'
    ensures rest[5..|v| + 5] == v
  {
    assert rest[1..][0] == '=' && rest[1..][1] == '=';
    assert forall i :: 4 < i < |v| + 5 ==> rest[i] == v[i - 5];
  }

  lemma EqualsQuotedLine(key: string, rest: string, v: string)
    requires key == KeyName(Extra) && rest == " == '" + v + "'"
    requires forall i :: 0 <= i < |v| ==> v[i] != '\n'
    ensures !IsSpace((key + rest)[0]) && '\n' !in key + rest
  {
    assert '\n' !in v by {
      assert forall i :: 0 <= i < |v| ==> v[i] != '\n';
    }
    assert '\n' !in " == '" && '\n' !in "'" && '\n' !in key;
  }

  // ---------------------------------------------------------------------
  // The tests

  /** Test `parse_req_novers`, both dialects. */
  lemma NoVersExample<Os>(s: string, indexFmt: bool, osFromStr: string -> Option<Os>)
    requires s == "saturn"
    ensures FromStrDefined(s, indexFmt, osFromStr)
    ensures ReqFromStr(s, indexFmt, osFromStr) == Ok(NewReq("saturn", []))
  {
    BareNameReq(s, indexFmt, osFromStr);
  }

  /** Test `parse_req_pypi_dot`, the name alone: a dot is a name character. */
  lemma DottedNameExample<Os>(s: string, osFromStr: string -> Option<Os>)
    requires s == "zc.lockfile"
    ensures FromStrDefined(s, true, osFromStr)
    ensures ReqFromStr(s, true, osFromStr) == Ok(NewReq("zc.lockfile", []))
  {
    BareNameReq(s, true, osFromStr);
  }

  /** Test `parse_req_withvers`: the line `bolt = "3.1.4"`, written as its
      name and its quoted text. */
  lemma WithVersExample<Os>(name: string, x: string, osFromStr: string -> Option<Os>)
    requires name == "bolt" && x == "3.1.4"
    ensures FromStrDefined(name + " = \"" + x + "\"", false, osFromStr)
    ensures ReqFromStr(name + " = \"" + x + "\"", false, osFromStr) ==
      Ok(NewReq(name, [Constraint(Exact, New(3, 1, 4))]))
  {
    BoltName(name);
    Text314(x);
    RenderingShape(New(3, 1, 4));
    ParseExact(x, New(3, 1, 4));
    ManifestSingle(name, x, Constraint(Exact, New(3, 1, 4)), osFromStr);
  }

  lemma BoltName(name: string)
    requires name == "bolt"
    ensures IsName(name)
  {
  }

  lemma Text314(lit: string)
    requires lit == "3.1.4"
    ensures ToString2(New(3, 1, 4)) == lit
  {
  }

  /** Test `parse_req_caret`: the line `chord = "^2.7.18"`. */
  lemma CaretExample<Os>(name: string, x: string, osFromStr: string -> Option<Os>)
    requires name == "chord" && x == "^2.7.18"
    ensures FromStrDefined(name + " = \"" + x + "\"", false, osFromStr)
    ensures ReqFromStr(name + " = \"" + x + "\"", false, osFromStr) ==
      Ok(NewReq(name, [Constraint(Caret, New(2, 7, 18))]))
  {
    ChordName(name);
    CaretText(x);
    ConstraintRenderingShape(Constraint(Caret, New(2, 7, 18)));
    ParseOperatorFull(x, Caret, New(2, 7, 18));
    ManifestSingle(name, x, Constraint(Caret, New(2, 7, 18)), osFromStr);
  }

  lemma ChordName(name: string)
    requires name == "chord"
    ensures IsName(name)
  {
  }

  lemma CaretText(x: string)
    requires x == "^2.7.18"
    ensures x == ReqTypeToString(Caret) + ToString2(New(2, 7, 18))
    ensures x == ConstraintToString(Constraint(Caret, New(2, 7, 18)), true, false)
  {
    assert NatToString(18) == "18" by {
      assert 18 / 10 == 1 && 18 % 10 == 8;
    }
  }

  /** Test `parse_req_tilde_short`: the line `sphere = "~6.7"`. */
  lemma TildeShortExample<Os>(name: string, x: string, osFromStr: string -> Option<Os>)
    requires name == "sphere" && x == "~6.7"
    ensures FromStrDefined(name + " = \"" + x + "\"", false, osFromStr)
    ensures ReqFromStr(name + " = \"" + x + "\"", false, osFromStr) ==
      Ok(NewReq(name, [Constraint(Tilde, New(6, 7, 0))]))
  {
    SphereName(name);
    TildeText(x);
    ParseOperatorMed(x, Tilde, New(6, 7, 0));
    ManifestSingle(name, x, Constraint(Tilde, New(6, 7, 0)), osFromStr);
  }

  lemma SphereName(name: string)
    requires name == "sphere"
    ensures IsName(name)
  {
  }

  lemma TildeText(x: string)
    requires x == "~6.7"
    ensures x == ReqTypeToString(Tilde) + ToStringMed(New(6, 7, 0))
    ensures ' ' !in x && ',' !in x && '\n' !in x
  {
  }

  /** Test `parse_req_pip`: `Django>=2.22` in the pip form. */
  lemma PipExample<Os>(name: string, x: string)
    requires name == "Django" && x == ">=2.22"
    ensures FromPipStr<Os>(name + x) == Ok(Some(NewReq(name, [Constraint(Gte, New(2, 22, 0))])))
  {
    DjangoName(name);
    PipText(x);
    ParseOperatorMed(x, Gte, New(2, 22, 0));
    PipLine<Os>(name, x);
  }

  lemma DjangoName(name: string)
    requires name == "Django"
    ensures NoOperatorChar(name) && '\n' !in name
  {
  }

  lemma PipText(x: string)
    requires x == ">=2.22"
    ensures x == ReqTypeToString(Gte) + ToStringMed(New(2, 22, 0))
    ensures '\n' !in x && OperatorLen(x) == 2
  {
    assert NatToString(22) == "22" by {
      assert 22 / 10 == 2 && 22 % 10 == 2;
    }
  }

  /** Test `parse_req_pypi`: the index line `pytz (>=2016.3)`. */
  lemma IndexExample<Os>(name: string, x: string, osFromStr: string -> Option<Os>)
    requires name == "pytz" && x == ">=2016.3"
    ensures FromStrDefined(name + " (" + x + ")", true, osFromStr)
    ensures ReqFromStr(name + " (" + x + ")", true, osFromStr) ==
      Ok(NewReq(name, [Constraint(Gte, New(2016, 3, 0))]))
  {
    PytzName(name);
    PytzText(x);
    ParseOperatorMed(x, Gte, New(2016, 3, 0));
    IndexSingle(name, x, Constraint(Gte, New(2016, 3, 0)), osFromStr);
  }

  lemma PytzName(name: string)
    requires name == "pytz"
    ensures |name| > 0 && IsName(name)
  {
  }

  lemma PytzText(x: string)
    requires x == ">=2016.3"
    ensures x == ReqTypeToString(Gte) + ToStringMed(New(2016, 3, 0))
    ensures ' ' !in x && ',' !in x && ')' !in x && '\n' !in x
  {
    assert NatToString(2016) == "2016" by {
      assert 2016 / 10 == 201 && 2016 % 10 == 6;
      assert 201 / 10 == 20 && 201 % 10 == 1;
      assert 20 / 10 == 2 && 20 % 10 == 0;
    }
  }

  /** Test `parse_req_pypi_dot`: the index line `zc.lockfile (>=0.2.3)`. */
  lemma DottedIndexExample<Os>(name: string, x: string, osFromStr: string -> Option<Os>)
    requires name == "zc.lockfile" && x == ">=0.2.3"
    ensures FromStrDefined(name + " (" + x + ")", true, osFromStr)
    ensures ReqFromStr(name + " (" + x + ")", true, osFromStr) ==
      Ok(NewReq(name, [Constraint(Gte, New(0, 2, 3))]))
  {
    LockfileName(name);
    LockfileText(x);
    ParseOperatorFull(x, Gte, New(0, 2, 3));
    IndexSingle(name, x, Constraint(Gte, New(0, 2, 3)), osFromStr);
  }

  lemma LockfileName(name: string)
    requires name == "zc.lockfile"
    ensures |name| > 0 && IsName(name)
  {
  }

  lemma LockfileText(x: string)
    requires x == ">=0.2.3"
    ensures x == ReqTypeToString(Gte) + ToString2(New(0, 2, 3))
    ensures ' ' !in x && ',' !in x && ')' !in x && '\n' !in x
  {
  }

  /** Test `parse_req_pypi_cplx`: `urllib3 (!=1.25.0,!=1.25.1,<=1.26)`, the
      constraint list written as the comma-join of its parts. */
  lemma IndexListExample<Os>(name: string, parts: seq<string>, osFromStr: string -> Option<Os>)
    requires name == "urllib3"
    requires |parts| == 3 && parts[0] == "!=1.25.0" && parts[1] == "!=1.25.1" && parts[2] == "<=1.26"
    ensures FromStrDefined(name + " (" + Join(parts, ",") + ")", true, osFromStr)
    ensures ReqFromStr(name + " (" + Join(parts, ",") + ")", true, osFromStr) ==
      Ok(NewReq(name, [
        Constraint(Ne, New(1, 25, 0)),
        Constraint(Ne, New(1, 25, 1)),
        Constraint(Lte, New(1, 26, 0))]))
  {
    var cs := [Constraint(Ne, New(1, 25, 0)), Constraint(Ne, New(1, 25, 1)), Constraint(Lte, New(1, 26, 0))];
    Urllib3Name(name);
    Urllib3Part0(parts[0]);
    Urllib3Part1(parts[1]);
    Urllib3Part2(parts[2]);
    ParseOperatorFull(parts[0], Ne, New(1, 25, 0));
    ParseOperatorFull(parts[1], Ne, New(1, 25, 1));
    ParseOperatorMed(parts[2], Lte, New(1, 26, 0));
    forall i | 0 <= i < |parts|
      ensures ' ' !in parts[i] && ',' !in parts[i] && ')' !in parts[i] && '\n' !in parts[i]
      ensures ConstraintFromStr(parts[i]) == Ok(cs[i])
    {
      assert i == 0 || i == 1 || i == 2;
    }
    IndexMany(name, parts, cs, osFromStr);
  }

  lemma Urllib3Name(name: string)
    requires name == "urllib3"
    ensures |name| > 0 && IsName(name)
  {
  }

  lemma Urllib3Part0(x: string)
    requires x == "!=1.25.0"
    ensures x == ReqTypeToString(Ne) + ToString2(New(1, 25, 0))
    ensures ' ' !in x && ',' !in x && ')' !in x && '\n' !in x
  {
    Text1250("1.25.0");
    RenderingShape(New(1, 25, 0));
  }

  lemma Urllib3Part1(x: string)
    requires x == "!=1.25.1"
    ensures x == ReqTypeToString(Ne) + ToString2(New(1, 25, 1))
    ensures ' ' !in x && ',' !in x && ')' !in x && '\n' !in x
  {
    Text1251("1.25.1");
    RenderingShape(New(1, 25, 1));
  }

  lemma Urllib3Part2(x: string)
    requires x == "<=1.26"
    ensures x == ReqTypeToString(Lte) + ToStringMed(New(1, 26, 0))
    ensures ' ' !in x && ',' !in x && ')' !in x && '\n' !in x
  {
    Text126("1.26");
    assert x == ReqTypeToString(Lte) + "1.26";
    Urllib3Chars2(x);
  }

  lemma Urllib3Chars2(x: string)
    requires x == "<=1.26"
    ensures ' ' !in x && ',' !in x && ')' !in x && '\n' !in x
  {
  }

  lemma Text1250(lit: string)
    requires lit == "1.25.0"
    ensures ToString2(New(1, 25, 0)) == lit
  {
    assert NatToString(25) == "25" by {
      assert 25 / 10 == 2 && 25 % 10 == 5;
    }
  }

  lemma Text1251(lit: string)
    requires lit == "1.25.1"
    ensures ToString2(New(1, 25, 1)) == lit
  {
    assert NatToString(25) == "25" by {
      assert 25 / 10 == 2 && 25 % 10 == 5;
    }
  }

  lemma Text126(lit: string)
    requires lit == "1.26"
    ensures ToStringMed(New(1, 26, 0)) == lit
  {
    assert NatToString(26) == "26" by {
      assert 26 / 10 == 2 && 26 % 10 == 6;
    }
  }

  /** Test `parse_req_pypi_w_extras`, first case: the index line
      `pyOpenSSL (>=0.14) ; extra == 'security'`, with the marker's value
      `v` given on its own. */
  lemma ExtraMarkerExample<Os>(name: string, x: string, key: string, v: string, osFromStr: string -> Option<Os>)
    requires name == "pyOpenSSL" && x == ">=0.14" && key == "extra" && v == "security"
    ensures FromStrDefined(name + " (" + x + ")" + (" ; " + (key + (" == '" + v + "'"))), true, osFromStr)
    ensures ReqFromStr(name + " (" + x + ")" + (" ; " + (key + (" == '" + v + "'"))), true, osFromStr) ==
      Ok(Req(name, [Constraint(Gte, New(0, 14, 0))], Some(v), None, None, None))
  {
    OpenSslName(name);
    OpenSslText(x);
    ParseOperatorMed(x, Gte, New(0, 14, 0));
    SecurityValue(v);
    ExtraEquals(key, " == '" + v + "'", v, osFromStr);
    IndexSingleClause(name, x, Constraint(Gte, New(0, 14, 0)), key + (" == '" + v + "'"), osFromStr);
  }

  lemma SecurityValue(v: string)
    requires v == "security"
    ensures forall i :: 0 <= i < |v| ==> !IsQuote(v[i]) && v[i] != '\n'
  {
  }

  lemma OpenSslName(name: string)
    requires name == "pyOpenSSL"
    ensures |name| > 0 && IsName(name)
  {
  }

  lemma OpenSslText(x: string)
    requires x == ">=0.14"
    ensures x == ReqTypeToString(Gte) + ToStringMed(New(0, 14, 0))
    ensures ' ' !in x && ',' !in x && ')' !in x && '\n' !in x
  {
    assert NatToString(14) == "14" by {
      assert 14 / 10 == 1 && 14 % 10 == 4;
    }
  }

  // ---------------------------------------------------------------------
  // Req::to_cfg_string

  /** Test `req_tostring_single_reqs`: an exact constraint is written
      without `==`. */
  lemma CfgSingleExample<Os>(name: string, x: string)
    requires name == "package" && x == "3.3.6"
    ensures ToCfgString(NewReq<Os>(name, [Constraint(Exact, New(3, 3, 6))])) == name + " = \"" + x + "\""
  {
    Text336(x);
    assert Renderings([Constraint(Exact, New(3, 3, 6))]) == [x];
    assert Join([x], ", ") == x;
  }

  lemma Text336(lit: string)
    requires lit == "3.3.6"
    ensures ConstraintToString(Constraint(Exact, New(3, 3, 6)), true, false) == lit
  {
    assert ToString2(New(3, 3, 6)) == lit;
  }

  /** Test `req_tostring_multiple_reqs`: the constraints are joined with
      `", "`, each with its operator and its full version. */
  lemma CfgMultipleExample<Os>(name: string, x: string, y: string)
    requires name == "package" && x == "!=2.7.4" && y == ">=3.7.0"
    ensures ToCfgString(NewReq<Os>(name, [Constraint(Ne, New(2, 7, 4)), Constraint(Gte, New(3, 7, 0))])) ==
      name + " = \"" + x + ", " + y + "\""
  {
    CfgTexts(x, y);
    var cs := [Constraint(Ne, New(2, 7, 4)), Constraint(Gte, New(3, 7, 0))];
    assert Renderings(cs) == [x, y];
    assert Join([x, y], ", ") == x + ", " + y;
  }

  lemma CfgTexts(x: string, y: string)
    requires x == "!=2.7.4" && y == ">=3.7.0"
    ensures x == ConstraintToString(Constraint(Ne, New(2, 7, 4)), true, false)
    ensures y == ConstraintToString(Constraint(Gte, New(3, 7, 0)), true, false)
  {
    Text274("2.7.4");
    Text370("3.7.0");
    assert x == "!=" + "" + "2.7.4";
    assert y == ">=" + "" + "3.7.0";
  }

  lemma Text274(lit: string)
    requires lit == "2.7.4"
    ensures ToString2(New(2, 7, 4)) == lit
  {
  }

  lemma Text370(lit: string)
    requires lit == "3.7.0"
    ensures ToString2(New(3, 7, 0)) == lit
  {
  }
}
