/** Properties of requirement parsing and rendering: the marker scan keeps
    the last match per key, the scanner reads back what a marker looks
    like, bare names give no constraints, the manifest line and the pip
    form parse back, and the cases of the source's tests. */
module ReqProofs {
  import opened Prim
  import opened Text
  import opened Versions
  import opened Constraints
  import opened ConstraintProofs
  import opened Reqs

  // ---------------------------------------------------------------------
  // parse_extras: a later match overwrites an earlier one

  /** `LastOf` finds a marker with the key after which no marker has it,
      and finds nothing exactly when no marker has the key. */
  lemma {:induction false} LastOfIsLast(ms: seq<Marker>, k: MarkerKey)
    ensures LastOf(ms, k).None? <==> forall i :: 0 <= i < |ms| ==> ms[i].key != k
    ensures LastOf(ms, k).Some? ==>
      exists i :: (0 <= i < |ms| && ms[i] == LastOf(ms, k).value &&
        forall j :: i < j < |ms| ==> ms[j].key != k)
  {
    if |ms| > 0 {
      var n := |ms| - 1;
      var init := ms[..n];
      if ms[n].key != k {
        LastOfIsLast(init, k);
        if LastOf(init, k).Some? {
          var i :| 0 <= i < |init| && init[i] == LastOf(init, k).value &&
            forall j :: i < j < |init| ==> init[j].key != k;
          assert ms[i] == init[i];
          forall j | i < j < |ms|
            ensures ms[j].key != k
          {
            if j < n { assert ms[j] == init[j]; }
          }
        } else {
          forall i | 0 <= i < |ms|
            ensures ms[i].key != k
          {
            if i < n { assert ms[i] == init[i]; }
          }
        }
      }
    }
  }

  // ---------------------------------------------------------------------
  // The marker scanner reads back a marker

  lemma {:induction false} QuotedLenExact(s: string, q: nat)
    requires q < |s| && IsQuote(s[q])
    requires forall i :: 0 <= i < q ==> !IsQuote(s[i]) && s[i] != '\n'
    ensures QuotedLen(s) == Some(q)
  {
    if q > 0 {
      QuotedLenExact(s[1..], q - 1);
    }
  }

  /** An operator spelling followed by anything but `=` is taken whole. */
  lemma OperatorTaken(t: ReqType, s: string)
    requires |s| > 0 && s[0] != '='
    ensures OperatorLen(ReqTypeToString(t) + s) == |ReqTypeToString(t)|
  {
    var o := ReqTypeToString(t);
    var x := o + s;
    assert x[0] == o[0];
    assert x[|o|] == s[0];
    assert |o| == 2 ==> x[..2] == o;
  }

  lemma StartsWithFirst(s: string, p: string)
    requires |p| > 0
    ensures StartsWith(s, p) ==> s[0] == p[0]
  {
    if StartsWith(s, p) {
      assert s[..|p|][0] == s[0];
    }
  }

  lemma KeyTaken(k: MarkerKey, s: string)
    requires StartsWith(s, KeyName(k))
    ensures KeyAt(s) == Some(k)
  {
    StartsWithFirst(s, KeyName(k));
    StartsWithFirst(s, "extra");
    StartsWithFirst(s, "sys_platform");
  }

  /** The quoted value after the operator: spaces up to a quote at `b`,
      then a value without quotes or line feeds up to a quote at `d`. */
  lemma QuotedAfterAt(x: string, e: nat, b: nat, d: nat)
    requires e <= b < d < |x|
    requires forall i :: e <= i < b ==> IsSpace(x[i])
    requires IsQuote(x[b]) && IsQuote(x[d])
    requires forall i :: b < i < d ==> !IsQuote(x[i]) && x[i] != '\n'
    ensures QuotedAfter(x, e) == Some((b + 1, d))
  {
    assert x[e..][b - e] == x[b];
    SpacesLenExact(x[e..], b - e);
    assert x[b + 1..][d - b - 1] == x[d];
    QuotedLenExact(x[b + 1..], d - b - 1);
  }

  /** The pattern after the key, one layer at a time. */
  lemma MarkerAfterKeyStep(x: string, a: nat, n: nat, c: nat, d: nat)
    requires a == SpacesLen(x) && 0 < n && n == OperatorLen(x[a..])
    requires QuotedAfter(x, a + n) == Some((c, d))
    ensures MarkerAfterKey(x) == Some((a, a + n, c, d))
  {
  }

  /** The pattern after the key matches spaces up to `a`, an operator of
      length `n` the alternation takes whole, spaces up to a quote at `b`
      and a value without quotes or line feeds up to a quote at `d`. */
  lemma MarkerAfterKeyAt(x: string, a: nat, n: nat, b: nat, d: nat)
    requires a + n <= b < d < |x|
    requires forall i :: 0 <= i < a ==> IsSpace(x[i])
    requires !IsSpace(x[a]) && 0 < n == OperatorLen(x[a..])
    requires forall i :: a + n <= i < b ==> IsSpace(x[i])
    requires IsQuote(x[b]) && IsQuote(x[d])
    requires forall i :: b < i < d ==> !IsQuote(x[i]) && x[i] != '\n'
    ensures MarkerAfterKey(x) == Some((a, a + n, b + 1, d))
  {
    SpacesLenExact(x, a);
    QuotedAfterAt(x, a + n, b, d);
    MarkerAfterKeyStep(x, a, n, b + 1, d);
  }

  /** A key followed by text in which the rest of the pattern matches. */
  lemma MarkerAtKey(k: MarkerKey, x: string, a: nat, e: nat, c: nat, d: nat)
    requires MarkerAfterKey(x) == Some((a, e, c, d))
    ensures MarkerAt(KeyName(k) + x) == Some(Marker(k, x[a..e], x[c..d], |KeyName(k)| + d + 1))
  {
    var s := KeyName(k) + x;
    assert s[..|KeyName(k)|] == KeyName(k);
    KeyTaken(k, s);
    assert s[|KeyName(k)|..] == x;
    MarkerAtTaken(s, k, x);
    MarkerOfSome(k, x, MarkerAfterKey(x), a, e, c, d);
  }

  lemma MarkerOfSome(k: MarkerKey, x: string, p: Option<(nat, nat, nat, nat)>, a: nat, e: nat, c: nat, d: nat)
    requires p == Some((a, e, c, d)) && a <= e <= c <= d < |x|
    ensures MarkerOf(k, x, p) == Some(Marker(k, x[a..e], x[c..d], |KeyName(k)| + d + 1))
  {
  }

  lemma MarkerAtTaken(s: string, k: MarkerKey, x: string)
    requires KeyAt(s) == Some(k) && |KeyName(k)| <= |s| && s[|KeyName(k)|..] == x
    ensures MarkerAt(s) == MarkerOf(k, x, MarkerAfterKey(x))
  {
  }

  /** What the marker pattern reads: a key, spaces, an operator the
      alternation takes whole, spaces, and a value between quotes that
      holds no quote or line feed are matched as that key, operator and
      value, and the match ends after the closing quote. */
  lemma MarkerAtLayout(k: MarkerKey, x: string, a: nat, n: nat, b: nat, d: nat)
    requires a + n <= b < d < |x|
    requires forall i :: 0 <= i < a ==> IsSpace(x[i])
    requires !IsSpace(x[a]) && 0 < n == OperatorLen(x[a..])
    requires forall i :: a + n <= i < b ==> IsSpace(x[i])
    requires IsQuote(x[b]) && IsQuote(x[d])
    requires forall i :: b < i < d ==> !IsQuote(x[i]) && x[i] != '\n'
    ensures MarkerAt(KeyName(k) + x) == Some(Marker(k, x[a..a + n], x[b + 1..d], |KeyName(k)| + d + 1))
  {
    MarkerAfterKeyAt(x, a, n, b, d);
    MarkerAtKey(k, x, a, a + n, b + 1, d);
  }

  /** No match starts where there is no `e`, `s` or `p`. */
  lemma {:induction false} MarkersSkip(s: string, n: nat)
    requires n <= |s|
    requires forall j :: 0 <= j < n ==> s[j] != 'e' && s[j] != 's' && s[j] != 'p'
    ensures Markers(s) == Markers(s[n..])
  {
    if n > 0 {
      StartsWithFirst(s, "extra");
      StartsWithFirst(s, "sys_platform");
      StartsWithFirst(s, "python_version");
      MarkersSkip(s[1..], n - 1);
      assert s[1..][n - 1..] == s[n..];
    }
  }

  // ---------------------------------------------------------------------
  // The requirement patterns

  lemma {:induction false} NameLenExact(s: string, k: nat)
    requires k <= |s| && (forall i :: 0 <= i < k ==> IsNameChar(s[i]))
    requires k == |s| || !IsNameChar(s[k])
    ensures NameLen(s) == k
  {
    if k > 0 {
      NameLenExact(s[1..], k - 1);
    }
  }

  lemma CharsOfName(c: char)
    requires IsNameChar(c)
    ensures !IsSpace(c) && c != '=' && c != '\n' && !IsQuote(c) && c != ';' && c != '('
  {
  }

  /** The tail `\s*;\s*clause`. */
  lemma MarkerTailClause(sp1: string, sp2: string, clause: string)
    requires forall i :: 0 <= i < |sp1| ==> IsSpace(sp1[i])
    requires forall i :: 0 <= i < |sp2| ==> IsSpace(sp2[i])
    requires (|clause| == 0 || !IsSpace(clause[0])) && '\n' !in clause
    ensures MarkerTail(sp1 + ";" + sp2 + clause) == Some(Some(clause))
  {
    var t := sp1 + ";" + sp2 + clause;
    assert t[|sp1|] == ';';
    SpacesLenExact(t, |sp1|);
    var u := t[|sp1| + 1..];
    assert u == sp2 + clause;
    SpacesLenExact(u, |sp2|);
    assert u[|sp2|..] == clause;
  }

  lemma {:induction false} CloseParenFirst(u: string, k: nat, p: nat, clause: Option<string>)
    requires k <= p < |u| && u[p] == ')' && MarkerTail(u[p + 1..]) == Some(clause)
    requires forall i :: k <= i < p ==> u[i] != ')' && u[i] != '\n'
    ensures CloseParen(u, k) == Some((p, clause))
    decreases p - k
  {
    if k < p {
      CloseParenFirst(u, k + 1, p, clause);
    }
  }

  lemma AfterIndexName(vers: string, tail: string)
    requires ')' !in vers && '\n' !in vers && MarkerTail(tail).Some?
    ensures var t := " (" + vers + ")" + tail;
      SpacesLen(t) == 1 && t[1] == '(' &&
      CloseParen(t[2..], 0) == Some((|vers|, MarkerTail(tail).value)) &&
      t[2..][..|vers|] == vers
  {
    var t := " (" + vers + ")" + tail;
    OpenParen(t, vers + ")" + tail);
    CloseAfterVersions(vers, tail);
  }

  lemma OpenParen(t: string, u: string)
    requires t == " (" + u
    ensures SpacesLen(t) == 1 && t[1] == '(' && t[2..] == u
  {
    SpacesLenExact(t, 1);
  }

  lemma CloseAfterVersions(vers: string, tail: string)
    requires ')' !in vers && '\n' !in vers && MarkerTail(tail).Some?
    ensures var u := vers + ")" + tail;
      CloseParen(u, 0) == Some((|vers|, MarkerTail(tail).value)) && u[..|vers|] == vers
  {
    var u := vers + ")" + tail;
    assert u[|vers| + 1..] == tail;
    CloseParenFirst(u, 0, |vers|, MarkerTail(tail).value);
    assert u[..|vers|] == vers;
  }

  /** The index dialect reads back `name (versions)` followed by a tail. */
  lemma IndexLine(name: string, vers: string, tail: string)
    requires |name| > 0 && IsName(name)
    requires ')' !in vers && '\n' !in vers && MarkerTail(tail).Some?
    ensures MatchIndexReq(name + " (" + vers + ")" + tail) ==
      Some(ReqCaptures(name, vers, MarkerTail(tail).value))
  {
    var t := " (" + vers + ")" + tail;
    var s := name + t;
    assert s == name + " (" + vers + ")" + tail;
    assert s[..|name|] == name;
    assert s[|name|] == ' ';
    NameLenExact(s, |name|);
    assert s[|name|..] == t;
    AfterIndexName(vers, tail);
  }

  lemma QuotedValueLine(value: string)
    requires '\n' !in value
    ensures QuotedValue(" = \"" + value + "\"") == Some(value)
  {
    var r := " = \"" + value + "\"";
    SpacesLenExact(r, 1);
    var u := r[2..];
    assert u == " \"" + value + "\"";
    SpacesLenExact(u, 1);
    var w := u[2..];
    assert w == value + "\"";
    assert w[..|w| - 1] == value;
  }

  /** Text that starts with a name character does not continue the pattern
      after the lazy name. */
  lemma NotManifestRest(r: string)
    requires |r| > 0 && IsNameChar(r[0])
    ensures QuotedValue(r).None?
  {
    SpacesLenExact(r, 0);
  }

  lemma {:induction false} ManifestNameSkip(s: string, k: nat, n: nat)
    requires k <= n <= |s|
    requires forall i :: k <= i < n ==> IsNameChar(s[i])
    requires QuotedValue(s[n..]).Some?
    ensures ManifestNameLen(s, k) == Some(n)
    decreases n - k
  {
    if k < n {
      NotManifestRest(s[k..]);
      ManifestNameSkip(s, k + 1, n);
    }
  }

  /** The manifest dialect reads back `name = "value"`. */
  lemma ManifestLine(name: string, value: string)
    requires IsName(name) && '\n' !in value
    ensures MatchManifestReq(name + " = \"" + value + "\"") == Some(ReqCaptures(name, value, None))
  {
    var s := name + " = \"" + value + "\"";
    assert s[|name|..] == " = \"" + value + "\"";
    QuotedValueLine(value);
    ManifestNameSkip(s, 0, |name|);
    assert s[..|name|] == name;
  }

  lemma {:induction false} NoManifestName(s: string, k: nat)
    requires k <= |s| && IsName(s)
    ensures ManifestNameLen(s, k).None?
    decreases |s| - k
  {
    if k < |s| {
      NotManifestRest(s[k..]);
      NoManifestName(s, k + 1);
    }
  }

  /** In either dialect, a bare name is a requirement on that name with no
      constraints and no markers. */
  lemma BareNameReq<Os>(s: string, indexFmt: bool, osFromStr: string -> Option<Os>)
    requires |s| > 0 && IsName(s)
    ensures FromStrDefined(s, indexFmt, osFromStr)
    ensures ReqFromStr(s, indexFmt, osFromStr) == Ok(NewReq(s, []))
  {
    NameLenExact(s, |s|);
    assert s[..|s|] == s;
    if indexFmt {
      assert s[|s|..] == [];
    } else {
      NoManifestName(s, 0);
    }
  }

  lemma NoQuoteNoValue(r: string)
    requires '"' !in r && '\'' !in r
    ensures QuotedValue(r).None?
  {
    var a := SpacesLen(r);
    if a < |r| && r[a] == '=' {
      var u := r[a + 1..];
      var b := SpacesLen(u);
      if b < |u| {
        assert u[b] == r[a + 1 + b];
      }
    }
  }

  lemma {:induction false} NoQuoteNoName(s: string, k: nat)
    requires k <= |s| && '"' !in s && '\'' !in s
    ensures ManifestNameLen(s, k).None?
    decreases |s| - k
  {
    NoQuoteNoValue(s[k..]);
    if k < |s| {
      NoQuoteNoName(s, k + 1);
    }
  }

  /** A manifest line without quotes that is not a bare name is rejected,
      and the error names the line. */
  lemma ManifestNeedsQuotes<Os>(s: string, osFromStr: string -> Option<Os>)
    requires '"' !in s && '\'' !in s
    requires !(|s| > 0 && IsName(s))
    ensures FromStrDefined(s, false, osFromStr)
    ensures ReqFromStr(s, false, osFromStr) == Err("Problem parsing version requirement: " + s)
  {
    NoQuoteNoName(s, 0);
    if NameLen(s) == |s| {
      assert s[..|s|] == s;
    }
  }

  // ---------------------------------------------------------------------
  // Req::from_str accepts exactly the two layouts

  /** A tail laid out as a clause is accepted by the tail pattern. */
  lemma ClauseLayoutAccepted(tail: string, clause: Option<string>)
    requires ClauseLayout(tail, clause)
    ensures MarkerTail(tail).Some?
  {
    if clause.Some? {
      var w1, w2 :| AllSpace(w1) && AllSpace(w2) && tail == w1 + ";" + w2 + clause.value;
      ClausePartsAccepted(w1, w2, clause.value);
    }
  }

  lemma ClausePartsAccepted(w1: string, w2: string, x: string)
    requires AllSpace(w1) && AllSpace(w2) && '\n' !in x
    ensures MarkerTail(w1 + ";" + w2 + x).Some?
  {
    var tail := w1 + ";" + w2 + x;
    var u := w2 + x;
    assert tail == w1 + [';'] + u;
    CharAfter(tail, w1, ';', u);
    SpacesLenExact(tail, |w1|);
    assert u[..|w2|] == w2;
    SpacesLenAtLeast(u, |w2|);
    var b := SpacesLen(u);
    assert u[b..] == x[b - |w2|..];
  }

  /** The lazy `(.*?)\)` finds a `)` whenever some `)` with an accepted
      tail follows and no line feed comes before it. */
  lemma {:induction false} CloseParenReaches(u: string, k: nat, p: nat)
    requires k <= p < |u| && u[p] == ')' && MarkerTail(u[p + 1..]).Some?
    requires forall i :: k <= i < p ==> u[i] != '\n'
    ensures CloseParen(u, k).Some?
    decreases p - k
  {
    if k < p && !(u[k] == ')' && MarkerTail(u[k + 1..]).Some?) {
      CloseParenReaches(u, k + 1, p);
    }
  }

  /** The index pattern matches every line laid out as its captures. */
  lemma IndexLayoutMatched(s: string, caps: ReqCaptures)
    requires IndexLayout(s, caps)
    ensures MatchIndexReq(s).Some?
  {
    var ws, tail :| |ws| > 0 && AllSpace(ws) && ClauseLayout(tail, caps.clause) &&
      s == caps.name + ws + "(" + caps.versions + ")" + tail;
    IndexPartsAccepted(caps.name, ws, caps.versions, tail, caps.clause);
  }

  lemma IndexPartsAccepted(name: string, ws: string, v: string, tail: string, clause: Option<string>)
    requires |name| > 0 && IsName(name) && '\n' !in v
    requires |ws| > 0 && AllSpace(ws) && ClauseLayout(tail, clause)
    ensures MatchIndexReq(name + ws + "(" + v + ")" + tail).Some?
  {
    var s := name + ws + "(" + v + ")" + tail;
    var u := v + ")" + tail;
    var t := ws + "(" + u;
    Glue(name + t, name, t, ws, u, v, tail);
    assert s[..|name|] == name && s[|name|..] == t;
    CharAfter(t, ws, '(', u);
    CharAfter(u, v, ')', tail);
    forall i | 0 <= i < |name| ensures IsNameChar(s[i]) {
      assert s[i] == name[i];
    }
    NameLenExact(s, |name|);
    SpacesLenExact(t, |ws|);
    ClauseLayoutAccepted(tail, clause);
    forall i | 0 <= i < |v| ensures u[i] != '\n' {
      assert u[i] == v[i];
    }
    CloseParenReaches(u, 0, |v|);
    IndexAccepted(s, |name|, t, |ws|, u);
  }

  lemma IndexAccepted(s: string, n: nat, t: string, a: nat, u: string)
    requires 0 < n <= |s| && NameLen(s) == n && t == s[n..]
    requires SpacesLen(t) == a && 0 < a < |t| && t[a] == '(' && u == t[a + 1..]
    requires CloseParen(u, 0).Some?
    ensures MatchIndexReq(s).Some?
  {
  }

  /** After a manifest name, the quoted layout is read back as its value. */
  lemma QuotedLayoutAccepted(r: string, v: string)
    requires QuotedLayout(r, v)
    ensures QuotedValue(r) == Some(v)
  {
    var w1, w2, q1, q2 :| AllSpace(w1) && AllSpace(w2) && IsQuote(q1) && IsQuote(q2) &&
      r == w1 + "=" + w2 + [q1] + v + [q2];
    QuotedPartsAccepted(w1, w2, q1, q2, v);
  }

  lemma QuotedPartsAccepted(w1: string, w2: string, q1: char, q2: char, v: string)
    requires AllSpace(w1) && AllSpace(w2) && IsQuote(q1) && IsQuote(q2) && '\n' !in v
    ensures QuotedValue(w1 + "=" + w2 + [q1] + v + [q2]) == Some(v)
  {
    var r := w1 + "=" + w2 + [q1] + v + [q2];
    var w := v + [q2];
    var u := w2 + [q1] + w;
    assert r == w1 + ['='] + u;
    CharAfter(r, w1, '=', u);
    CharAfter(u, w2, q1, w);
    SpacesLenExact(r, |w1|);
    SpacesLenExact(u, |w2|);
    assert w[..|w| - 1] == v;
  }

  lemma CharAfter(x: string, pre: string, c: char, post: string)
    requires x == pre + [c] + post
    ensures x[..|pre|] == pre && x[|pre|] == c && x[|pre| + 1..] == post
  {
  }

  /** The lazy `^(.*?)` stops at the latest where the quoted rest starts. */
  lemma {:induction false} ManifestNameReaches(s: string, k: nat, n: nat)
    requires k <= n <= |s| && QuotedValue(s[n..]).Some?
    requires forall i :: k <= i < n ==> s[i] != '\n'
    ensures ManifestNameLen(s, k).Some?
    decreases n - k
  {
    if k < n && QuotedValue(s[k..]).None? {
      ManifestNameReaches(s, k + 1, n);
    }
  }

  /** The manifest pattern matches every line laid out as its captures. */
  lemma ManifestLayoutMatched(s: string, caps: ReqCaptures)
    requires ManifestLayout(s, caps)
    ensures MatchManifestReq(s).Some?
  {
    var n := |caps.name|;
    QuotedLayoutAccepted(s[n..], caps.versions);
    assert forall i :: 0 <= i < n ==> s[i] == caps.name[i];
    ManifestNameReaches(s, 0, n);
  }

  /** The bare-name pattern matches every line laid out as its captures. */
  lemma BareLayoutMatched(s: string, indexFmt: bool, nc: (string, Option<string>))
    requires BareLayout(s, indexFmt, nc)
    ensures MatchBareName(s, indexFmt).Some?
  {
    var n := |nc.0|;
    assert s[..n] == nc.0;
    if n < |s| {
      var w1, w2 :| AllSpace(w1) && AllSpace(w2) && s[n..] == w1 + ";" + w2 + nc.1.value;
      assert s[n] == if |w1| > 0 then w1[0] else ';';
    }
    NameLenExact(s, n);
    if indexFmt {
      ClauseLayoutAccepted(s[n..], nc.1);
    }
  }

  /** Whether `s` has the layout of the version-bearing pattern of the dialect. */
  ghost predicate VersionedLayout(s: string, indexFmt: bool)
  {
    || (indexFmt && exists caps :: IndexLayout(s, caps))
    || (!indexFmt && exists caps :: ManifestLayout(s, caps))
  }

  /** Whether `s` has the layout of the bare-name pattern of the dialect. */
  ghost predicate BareNameLayout(s: string, indexFmt: bool)
  {
    exists nc :: BareLayout(s, indexFmt, nc)
  }

  lemma MatchVersionedExact(s: string, indexFmt: bool)
    ensures MatchVersioned(s, indexFmt).Some? <==> VersionedLayout(s, indexFmt)
  {
    if indexFmt {
      if caps :| IndexLayout(s, caps) {
        IndexLayoutMatched(s, caps);
      }
    } else {
      if caps :| ManifestLayout(s, caps) {
        ManifestLayoutMatched(s, caps);
      }
    }
  }

  lemma MatchBareNameExact(s: string, indexFmt: bool)
    ensures MatchBareName(s, indexFmt).Some? <==> BareNameLayout(s, indexFmt)
  {
    if nc :| BareLayout(s, indexFmt, nc) {
      BareLayoutMatched(s, indexFmt, nc);
    }
  }

  /** `Req::from_str` succeeds exactly on the version-bearing layout of the
      dialect with a readable constraint list, and on the bare-name layout
      when the first does not apply; a bad constraint list is reported as
      such, and any other line as a requirement that cannot be parsed. */
  lemma ReqFromStrExact<Os>(s: string, indexFmt: bool, osFromStr: string -> Option<Os>)
    requires FromStrDefined(s, indexFmt, osFromStr)
    ensures MatchVersioned(s, indexFmt).Some? <==> VersionedLayout(s, indexFmt)
    ensures ReqFromStr(s, indexFmt, osFromStr).Ok? <==>
      || (VersionedLayout(s, indexFmt) && ParseVersions(MatchVersioned(s, indexFmt).value).Ok?)
      || (!VersionedLayout(s, indexFmt) && BareNameLayout(s, indexFmt))
    ensures VersionedLayout(s, indexFmt) && ParseVersions(MatchVersioned(s, indexFmt).value).Err? ==>
      ReqFromStr(s, indexFmt, osFromStr) == Err(ParseVersions(MatchVersioned(s, indexFmt).value).details)
    ensures !VersionedLayout(s, indexFmt) && !BareNameLayout(s, indexFmt) ==>
      ReqFromStr(s, indexFmt, osFromStr) == Err("Problem parsing version requirement: " + s)
  {
    MatchVersionedExact(s, indexFmt);
    MatchBareNameExact(s, indexFmt);
  }

  // ---------------------------------------------------------------------
  // Req::to_cfg_string against Req::from_str

  lemma ConstraintRenderingShape(c: Constraint)
    requires Valid(c.version)
    ensures '\n' !in ConstraintToString(c, true, false)
    ensures ' ' !in ConstraintToString(c, true, false)
    ensures ',' !in ConstraintToString(c, true, false)
  {
    RenderingShape(c.version);
    OperatorSpelling(c.typ);
    var o := if c.typ == Exact then "" else ReqTypeToString(c.typ);
    var r := ToString2(c.version);
    assert '\n' !in o + "" + r && ' ' !in o + "" + r && ',' !in o + "" + r;
  }

  lemma OperatorSpelling(t: ReqType)
    ensures '\n' !in ReqTypeToString(t) && ' ' !in ReqTypeToString(t) && ',' !in ReqTypeToString(t)
  {
  }

  lemma {:induction false} JoinExcludes(parts: seq<string>, sep: string, ch: char)
    requires ch !in sep && forall i :: 0 <= i < |parts| ==> ch !in parts[i]
    ensures ch !in Join(parts, sep)
  {
    if |parts| > 1 {
      JoinExcludes(parts[1..], sep, ch);
    }
  }

  /** The quoted constraint list of a manifest line reads back as the
      constraints it was rendered from. */
  lemma RenderingsParse(cs: seq<Constraint>)
    requires |cs| > 0 && forall c :: c in cs ==> Valid(c.version)
    ensures ParseAll(Split(RemoveChar(Join(Renderings(cs), ", "), ' '), ',')) == Ok(cs)
    ensures '\n' !in Join(Renderings(cs), ", ")
  {
    var rs := Renderings(cs);
    forall i | 0 <= i < |rs|
      ensures ' ' !in rs[i] && ',' !in rs[i] && '\n' !in rs[i]
      ensures ConstraintFromStr(rs[i]) == Ok(cs[i])
    {
      assert cs[i] in cs;
      ConstraintRenderingShape(cs[i]);
      ParseToString(cs[i], true);
    }
    RemoveSpacesFromJoin(rs);
    SplitJoin(rs, ',');
    ParseAllValues(rs, cs);
    JoinExcludes(rs, ", ", '\n');
  }

  /** Round trip: the manifest line of a requirement with constraints and a
      plain name parses back to that name and those constraints (markers
      are not written, so they are not read back). */
  lemma ToCfgStringParses<Os>(r: Req<Os>, osFromStr: string -> Option<Os>)
    requires |r.constraints| > 0 && forall c :: c in r.constraints ==> Valid(c.version)
    requires IsName(r.name)
    ensures FromStrDefined(ToCfgString(r), false, osFromStr)
    ensures ReqFromStr(ToCfgString(r), false, osFromStr) == Ok(NewReq(r.name, r.constraints))
  {
    RenderingsParse(r.constraints);
    ManifestLine(r.name, Join(Renderings(r.constraints), ", "));
  }

  // ---------------------------------------------------------------------
  // Req::from_pip_str

  predicate NoOperatorChar(s: string)
  {
    forall i :: 0 <= i < |s| ==> s[i] !in "^~<>=!"
  }

  lemma {:induction false} FirstOperatorAt(s: string, k: nat, p: nat)
    requires k <= p < |s| && OperatorLen(s[p..]) > 0
    requires forall j :: k <= j < p ==> s[j] !in "^~<>=!"
    ensures FirstOperator(s, k) == Some(p)
    decreases p - k
  {
    if k < p {
      var x := s[k..];
      assert x[0] == s[k];
      if |x| >= 2 { assert x[..2][0] == x[0]; }
      FirstOperatorAt(s, k + 1, p);
    }
  }

  /** A name without operator characters followed by text that starts
      with an operator: the name is cut at the operator and the rest is
      read as one constraint, or reported as an error. */
  lemma PipLine<Os>(name: string, x: string)
    requires NoOperatorChar(name) && '\n' !in name && '\n' !in x && OperatorLen(x) > 0
    ensures FromPipStr<Os>(name + x) ==
      match ConstraintFromStr(x)
      case Err(_) => Err("Problem parsing requirement")
      case Ok(c) => Ok(Some(NewReq(name, [c])))
  {
    var s := name + x;
    assert s[|name|] == x[0];
    if |x| >= 2 { assert x[..2][0] == x[0]; }
    assert !IsPipNameChar(s[|name|]);
    assert '\n' !in s;
    assert s[|name|..] == x;
    FirstOperatorAt(s, 0, |name|);
    assert s[..|name|] == name;
  }

  /** Round trip of the pip form: a name and a rendered constraint (with
      `==` written out) read back as that name and constraint. */
  lemma PipRoundTrip<Os>(name: string, c: Constraint)
    requires NoOperatorChar(name) && '\n' !in name && Valid(c.version)
    ensures FromPipStr<Os>(name + ConstraintToString(c, false, false)) == Ok(Some(NewReq(name, [c])))
  {
    var v := ToString2(c.version);
    var x := ConstraintToString(c, false, false);
    RenderingShape(c.version);
    assert x == ReqTypeToString(c.typ) + v;
    OperatorPrefix(c.typ, v);
    ParseToString(c, false);
    assert '\n' !in ReqTypeToString(c.typ);
    PipLine<Os>(name, x);
  }
}
