/** Package-name normalisation and the merging of requirements given on
    the command line with those of the manifest (src/util.rs). The
    lookup of a package's latest version is an oracle `latest`. */
module Util {
  import opened Prim
  import opened Text
  import opened Versions
  import opened Constraints
  import opened Reqs

  // ---------------------------------------------------------------------
  // standardize_name and compare_names

  /** What `standardize_name` makes of one character: lower case, and
      `_` for `-`. */
  function StandardChar(c: char): char
  {
    if c == '-' then '_' else LowerChar(c)
  }

  /** `standardize_name`: lower-case the name, then replace every `-` by `_`. */
  function StandardizeName(name: string): (r: string)
    ensures |r| == |name|
    ensures forall i :: 0 <= i < |name| ==> r[i] == StandardChar(name[i])
  {
    ReplaceChar(ToLower(name), '-', '_')
  }

  /** A standardized name has no upper-case ASCII letter and no `-`, and
      its dots are exactly those of the original name. */
  lemma StandardizedShape(name: string)
    ensures forall i :: 0 <= i < |name| ==> !('A' <= StandardizeName(name)[i] <= 'Z')
    ensures '-' !in StandardizeName(name)
    ensures forall i :: 0 <= i < |name| ==> (StandardizeName(name)[i] == '.' <==> name[i] == '.')
  {
    var r := StandardizeName(name);
    forall i | 0 <= i < |r|
      ensures r[i] != '-'
    {
      assert r[i] == StandardChar(name[i]);
    }
  }

  /** Standardizing twice is standardizing once. */
  lemma StandardizeIdempotent(name: string)
    ensures StandardizeName(StandardizeName(name)) == StandardizeName(name)
  {
    var r := StandardizeName(name);
    var rr := StandardizeName(r);
    forall i | 0 <= i < |r|
      ensures rr[i] == r[i]
    {
      assert StandardChar(StandardChar(name[i])) == StandardChar(name[i]);
    }
  }

  /** `compare_names`: the standardized names are equal. */
  predicate CompareNames(a: string, b: string)
  {
    StandardizeName(a) == StandardizeName(b)
  }

  /** Two characters a name comparison does not tell apart: equal, the
      same ASCII letter in either case, or `-` and `_` in either order. */
  predicate SameNameChar(x: char, y: char)
  {
    x == y ||
    (('A' <= x <= 'Z' || 'a' <= x <= 'z') && ('A' <= y <= 'Z' || 'a' <= y <= 'z') &&
      (x as int - y as int == 32 || y as int - x as int == 32)) ||
    (x in "-_" && y in "-_")
  }

  lemma SameNameCharStandard(x: char, y: char)
    ensures SameNameChar(x, y) <==> StandardChar(x) == StandardChar(y)
  {
  }

  /** Two names compare equal exactly when they have the same length and
      agree character by character up to ASCII case and `-` against `_`. */
  lemma CompareNamesIff(a: string, b: string)
    ensures CompareNames(a, b) <==>
      |a| == |b| && forall i :: 0 <= i < |a| ==> SameNameChar(a[i], b[i])
  {
    var sa, sb := StandardizeName(a), StandardizeName(b);
    if CompareNames(a, b) {
      forall i | 0 <= i < |a|
        ensures SameNameChar(a[i], b[i])
      {
        assert sa[i] == sb[i];
        SameNameCharStandard(a[i], b[i]);
      }
    }
    if |a| == |b| && forall i :: 0 <= i < |a| ==> SameNameChar(a[i], b[i]) {
      forall i | 0 <= i < |a|
        ensures sa[i] == sb[i]
      {
        SameNameCharStandard(a[i], b[i]);
      }
    }
  }

  /** `compare_names` is an equivalence relation. */
  lemma CompareNamesEquivalence(a: string, b: string, c: string)
    ensures CompareNames(a, a)
    ensures CompareNames(a, b) ==> CompareNames(b, a)
    ensures CompareNames(a, b) && CompareNames(b, c) ==> CompareNames(a, c)
  {
  }

  // ---------------------------------------------------------------------
  // merge_reqs: which added requirements are kept

  /** A manifest requirement that makes an added one redundant: the same
      requirement, or the same name after `to_lowercase` (no `-`/`_`
      mapping here) when the added one names no constraints. */
  predicate Blocks<Os(==)>(cr: Req<Os>, ar: Req<Os>)
  {
    cr == ar || (ToLower(cr.name) == ToLower(ar.name) && |ar.constraints| == 0)
  }

  predicate AlreadyListed<Os(==)>(ar: Req<Os>, cfgReqs: seq<Req<Os>>)
  {
    exists i :: 0 <= i < |cfgReqs| && Blocks(cfgReqs[i], ar)
  }

  /** The added requirements that survive the filter, in their order. */
  function Survivors<Os(==)>(added: seq<Req<Os>>, cfgReqs: seq<Req<Os>>): (u: seq<Req<Os>>)
    ensures |u| <= |added|
    ensures forall i :: 0 <= i < |u| ==> u[i] in added && !AlreadyListed(u[i], cfgReqs)
    ensures forall i :: 0 <= i < |added| && !AlreadyListed(added[i], cfgReqs) ==> added[i] in u
  {
    if |added| == 0 then []
    else
      var last := added[|added| - 1];
      var init := added[..|added| - 1];
      var u := Survivors(init, cfgReqs) + (if AlreadyListed(last, cfgReqs) then [] else [last]);
      assert forall i :: 0 <= i < |init| ==> init[i] == added[i];
      u
  }

  // ---------------------------------------------------------------------
  // merge_reqs: a caret constraint for requirements without one

  /** A requirement with no constraints gets a caret constraint at the
      latest version of its package; only the constraints change. */
  function WithCaret<Os>(r: Req<Os>, latest: string -> Version): (f: Req<Os>)
    ensures |f.constraints| > 0
    ensures f.(constraints := r.constraints) == r
    ensures |r.constraints| > 0 ==> f == r
  {
    if |r.constraints| == 0 then r.(constraints := r.constraints + [Constraint(Caret, latest(r.name))]) else r
  }

  function WithCarets<Os>(rs: seq<Req<Os>>, latest: string -> Version): (fs: seq<Req<Os>>)
    ensures |fs| == |rs|
    ensures forall i :: 0 <= i < |rs| ==> fs[i] == WithCaret(rs[i], latest)
  {
    seq(|rs|, i requires 0 <= i < |rs| => WithCaret(rs[i], latest))
  }

  /** The requirements `merge_reqs` adds to the manifest. */
  function AddedUnique<Os(==)>(added: seq<Req<Os>>, cfgReqs: seq<Req<Os>>, latest: string -> Version): seq<Req<Os>>
  {
    WithCarets(Survivors(added, cfgReqs), latest)
  }

  // ---------------------------------------------------------------------
  // merge_reqs: the merged list

  /** An added requirement that replaces a manifest one: the names compare
      equal and the constraints differ. */
  predicate Replaces<Os(==)>(ar: Req<Os>, cr: Req<Os>)
  {
    CompareNames(ar.name, cr.name) && ar.constraints != cr.constraints
  }

  /** Where the search from index `j` stops: at the first requirement of
      `u` that replaces `cr`, or at the end. */
  function FirstReplacing<Os(==)>(cr: Req<Os>, u: seq<Req<Os>>, j: nat): (m: nat)
    requires j <= |u|
    ensures j <= m <= |u|
    ensures forall l :: j <= l < m ==> !Replaces(u[l], cr)
    ensures m < |u| ==> Replaces(u[m], cr)
    decreases |u| - j
  {
    if j == |u| || Replaces(u[j], cr) then j else FirstReplacing(cr, u, j + 1)
  }

  /** What stands in the merged list for a manifest requirement. */
  function MergedEntry<Os(==)>(cr: Req<Os>, u: seq<Req<Os>>): Req<Os>
  {
    var m := FirstReplacing(cr, u, 0);
    if m < |u| then u[m] else cr
  }

  function Merged<Os(==)>(cfgReqs: seq<Req<Os>>, u: seq<Req<Os>>): (m: seq<Req<Os>>)
    ensures |m| == |cfgReqs|
    ensures forall i :: 0 <= i < |cfgReqs| ==> m[i] == MergedEntry(cfgReqs[i], u)
  {
    if |cfgReqs| == 0 then []
    else
      var init := cfgReqs[..|cfgReqs| - 1];
      assert forall i :: 0 <= i < |init| ==> init[i] == cfgReqs[i];
      Merged(init, u) + [MergedEntry(cfgReqs[|cfgReqs| - 1], u)]
  }

  /** What `merge_reqs` returns. */
  function MergeResult<Os(==)>(added: seq<Req<Os>>, cfgReqs: seq<Req<Os>>, latest: string -> Version): seq<Req<Os>>
  {
    var u := AddedUnique(added, cfgReqs, latest);
    Merged(cfgReqs, u) + u
  }

  /** The filter closure of `merge_reqs`: keep an added requirement unless
      a manifest requirement blocks it. */
  method KeepAdded<Os(==)>(ar: Req<Os>, cfgReqs: seq<Req<Os>>) returns (add: bool)
    ensures add <==> !AlreadyListed(ar, cfgReqs)
  {
    add := true;
    var j := 0;
    while j < |cfgReqs|
      invariant 0 <= j <= |cfgReqs| && add
      invariant forall i :: 0 <= i < j ==> !Blocks(cfgReqs[i], ar)
    {
      if Blocks(cfgReqs[j], ar) {
        add := false;
        break;
      }
      j := j + 1;
    }
  }

  /** The inner loop of the merge: the first kept added requirement that
      replaces `cr`, or `cr` itself. */
  method MergedEntryOf<Os(==)>(cr: Req<Os>, addedUnique: seq<Req<Os>>) returns (entry: Req<Os>)
    ensures entry == MergedEntry(cr, addedUnique)
  {
    var j := 0;
    while j < |addedUnique|
      invariant 0 <= j <= |addedUnique|
      invariant FirstReplacing(cr, addedUnique, 0) == FirstReplacing(cr, addedUnique, j)
    {
      if Replaces(addedUnique[j], cr) {
        return addedUnique[j];
      }
      j := j + 1;
    }
    entry := cr;
  }

  /** The filter of `merge_reqs`: the added requirements no manifest
      requirement blocks, in their order. */
  method FilterAdded<Os(==)>(added: seq<Req<Os>>, cfgReqs: seq<Req<Os>>) returns (kept: seq<Req<Os>>)
    ensures kept == Survivors(added, cfgReqs)
  {
    kept := [];
    var k := 0;
    while k < |added|
      invariant 0 <= k <= |added|
      invariant kept == Survivors(added[..k], cfgReqs)
    {
      var ar := added[k];
      var add := KeepAdded(ar, cfgReqs);
      if add {
        kept := kept + [ar];
      }
      assert added[..k + 1][..k] == added[..k];
      k := k + 1;
    }
    assert added[..k] == added;
  }

  /** The `iter_mut` loop of `merge_reqs`: every requirement without
      constraints gets a caret constraint at the latest version. */
  method FillCarets<Os>(kept: seq<Req<Os>>, latest: string -> Version) returns (filled: seq<Req<Os>>)
    ensures filled == WithCarets(kept, latest)
  {
    filled := kept;
    var i := 0;
    while i < |filled|
      invariant 0 <= i <= |filled| == |kept|
      invariant forall m :: 0 <= m < i ==> filled[m] == WithCaret(kept[m], latest)
      invariant forall m :: i <= m < |filled| ==> filled[m] == kept[m]
    {
      if |filled[i].constraints| == 0 {
        var r := filled[i];
        filled := filled[i := r.(constraints := r.constraints + [Constraint(Caret, latest(r.name))])];
      }
      i := i + 1;
    }
  }

  /** The merge loop of `merge_reqs`: each manifest requirement, or the
      added requirement that replaces it. */
  method MergeInto<Os(==)>(cfgReqs: seq<Req<Os>>, addedUnique: seq<Req<Os>>) returns (result: seq<Req<Os>>)
    ensures result == Merged(cfgReqs, addedUnique)
  {
    result := [];
    var c := 0;
    while c < |cfgReqs|
      invariant 0 <= c <= |cfgReqs|
      invariant result == Merged(cfgReqs[..c], addedUnique)
    {
      var entry := MergedEntryOf(cfgReqs[c], addedUnique);
      result := result + [entry];
      assert cfgReqs[..c + 1][..c] == cfgReqs[..c];
      c := c + 1;
    }
    assert cfgReqs[..c] == cfgReqs;
  }

  /** `merge_reqs` once the command-line requirements are parsed: filter,
      fill in caret constraints, merge, append. */
  method MergeParsed<Os(==)>(added: seq<Req<Os>>, cfgReqs: seq<Req<Os>>, latest: string -> Version)
    returns (result: seq<Req<Os>>)
    ensures result == MergeResult(added, cfgReqs, latest)
  {
    var kept := FilterAdded(added, cfgReqs);
    var addedUnique := FillCarets(kept, latest);
    result := MergeInto(cfgReqs, addedUnique);
    result := result + addedUnique;
  }

  // ---------------------------------------------------------------------
  // merge_reqs: reading the command-line requirements

  /** The manifest dialect hands no marker clause to `parse_extras`, so
      reading a requirement in it never panics. */
  lemma ManifestDialectDefined<Os>(s: string, osFromStr: string -> Option<Os>)
    ensures FromStrDefined(s, false, osFromStr)
  {
  }

  /** One command-line requirement, read as `Req::from_str(p, false)`. */
  function ReadAdded<Os>(p: string, osFromStr: string -> Option<Os>): Result<Req<Os>>
  {
    ManifestDialectDefined(p, osFromStr);
    ReqFromStr(p, false, osFromStr)
  }

  /** What `abort` reports for a requirement that does not parse. */
  function AbortMessage(p: string): string
  {
    "Unable to parse this package: " + p +
    ". Note that installing a specific version via the CLI is currently unsupported. " +
    "If you need to specify a version,edit `pyproject.toml`"
  }

  /** `Req::from_str(_, false)` as a function value. */
  function Reader<Os>(osFromStr: string -> Option<Os>): string -> Result<Req<Os>>
  {
    p => ReadAdded(p, osFromStr)
  }

  /** `added[k]` is the first text that `read` rejects. */
  predicate FirstUnreadable<Os>(added: seq<string>, k: int, read: string -> Result<Req<Os>>)
  {
    0 <= k < |added| && read(added[k]).Err? &&
    forall j :: 0 <= j < k ==> read(added[j]).Ok?
  }

  /** The first loop of `merge_reqs`: every text read in order with `read`;
      the first one that does not parse aborts, reporting that text. */
  method ParseAdded<Os>(added: seq<string>, read: string -> Result<Req<Os>>) returns (r: Result<seq<Req<Os>>>)
    ensures r.Ok? <==> forall i :: 0 <= i < |added| ==> read(added[i]).Ok?
    ensures r.Ok? ==> (|r.value| == |added| &&
      forall i :: 0 <= i < |added| ==> read(added[i]) == Ok(r.value[i]))
    ensures r.Err? ==> exists k :: FirstUnreadable(added, k, read) && r.details == AbortMessage(added[k])
  {
    var reqs: seq<Req<Os>> := [];
    for i := 0 to |added|
      invariant |reqs| == i
      invariant forall j :: 0 <= j < i ==> read(added[j]) == Ok(reqs[j])
    {
      var req := read(added[i]);
      if req.Err? {
        assert FirstUnreadable(added, i, read);
        return Err(AbortMessage(added[i]));
      }
      reqs := reqs + [req.value];
    }
    return Ok(reqs);
  }

  /** `merge_reqs`: read the command-line requirements with
      `Req::from_str(_, false)`, aborting on the first that does not parse,
      then merge them with the manifest's. */
  method MergeReqs<Os(==)>(added: seq<string>, cfgReqs: seq<Req<Os>>, latest: string -> Version,
                           osFromStr: string -> Option<Os>)
    returns (r: Result<seq<Req<Os>>>)
    ensures r.Ok? <==> forall i :: 0 <= i < |added| ==> Reader(osFromStr)(added[i]).Ok?
    ensures r.Ok? ==> exists parsed :: (|parsed| == |added| &&
      (forall i :: 0 <= i < |added| ==> Reader(osFromStr)(added[i]) == Ok(parsed[i])) &&
      r.value == MergeResult(parsed, cfgReqs, latest))
    ensures r.Err? ==> exists k :: FirstUnreadable(added, k, Reader(osFromStr)) && r.details == AbortMessage(added[k])
  {
    var parsed := ParseAdded(added, Reader(osFromStr));
    if parsed.Err? {
      return Err(parsed.details);
    }
    var merged := MergeParsed(parsed.value, cfgReqs, latest);
    return Ok(merged);
  }

  // ---------------------------------------------------------------------
  // Properties of the merge

  /** One entry per manifest requirement, then every kept added one. */
  lemma MergeLength<Os>(added: seq<Req<Os>>, cfgReqs: seq<Req<Os>>, latest: string -> Version)
    ensures |MergeResult(added, cfgReqs, latest)| == |cfgReqs| + |Survivors(added, cfgReqs)|
    ensures |MergeResult(added, cfgReqs, latest)| <= |cfgReqs| + |added|
  {
  }

  /** Every kept added requirement has constraints: its own, or a single
      caret constraint at the latest version when it had none. */
  lemma AddedConstraints<Os>(added: seq<Req<Os>>, cfgReqs: seq<Req<Os>>, latest: string -> Version, k: nat)
    requires k < |Survivors(added, cfgReqs)|
    ensures var s := Survivors(added, cfgReqs)[k];
      var a := AddedUnique(added, cfgReqs, latest)[k];
      (|s.constraints| == 0 ==> a == s.(constraints := [Constraint(Caret, latest(s.name))])) &&
      (|s.constraints| > 0 ==> a == s)
  {
    var s := Survivors(added, cfgReqs)[k];
    assert s.constraints == [] ==> s.constraints + [Constraint(Caret, latest(s.name))] == [Constraint(Caret, latest(s.name))];
  }

  /** The entry of a manifest requirement is the requirement itself when
      no kept added requirement replaces it, and otherwise the first one
      that does. */
  lemma MergedEntries<Os>(added: seq<Req<Os>>, cfgReqs: seq<Req<Os>>, latest: string -> Version, i: nat)
    requires i < |cfgReqs|
    ensures var u := AddedUnique(added, cfgReqs, latest);
      var m := FirstReplacing(cfgReqs[i], u, 0);
      MergeResult(added, cfgReqs, latest)[i] == (if m < |u| then u[m] else cfgReqs[i]) &&
      (m < |u| ==> Replaces(u[m], cfgReqs[i])) &&
      (forall l :: 0 <= l < m ==> !Replaces(u[l], cfgReqs[i]))
  {
    var u := AddedUnique(added, cfgReqs, latest);
    assert MergeResult(added, cfgReqs, latest)[i] == Merged(cfgReqs, u)[i];
  }

  /** A replacing requirement appears twice: in the place of the manifest
      requirement it replaces, and again among the appended ones. */
  lemma ReplacementAppearsTwice<Os>(added: seq<Req<Os>>, cfgReqs: seq<Req<Os>>, latest: string -> Version, i: nat)
    requires i < |cfgReqs|
    requires MergeResult(added, cfgReqs, latest)[i] != cfgReqs[i]
    ensures exists k :: (|cfgReqs| <= k < |MergeResult(added, cfgReqs, latest)| &&
      MergeResult(added, cfgReqs, latest)[k] == MergeResult(added, cfgReqs, latest)[i])
  {
    var u := AddedUnique(added, cfgReqs, latest);
    var res := MergeResult(added, cfgReqs, latest);
    MergedEntries(added, cfgReqs, latest, i);
    var m := FirstReplacing(cfgReqs[i], u, 0);
    assert res[|cfgReqs| + m] == u[m];
  }
}
