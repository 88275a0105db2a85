/** The range algebra of src/dep_types.rs: pairwise intersection of two
    lists of inclusive ranges, the fold over many ranges, and the
    translation of a list of constraints into ranges. */
module Ranges {
  import opened Prim
  import opened Versions
  import opened VersionProofs
  import opened Constraints

  /** `cmp::max(a, b)`: `b` unless `a` is greater (ties go to `b`). */
  function MaxV(a: Version, b: Version): (r: Version)
    ensures r == a || r == b
    ensures AtMost(a, r) && AtMost(b, r)
    ensures Cmp(a, b) == Equal ==> r == b
  {
    CmpReflexive(a);
    CmpReflexive(b);
    CmpFlip(a, b);
    if Cmp(a, b) == Greater then a else b
  }

  /** `cmp::min(a, b)`: `a` unless `a` is greater (ties go to `a`). */
  function MinV(a: Version, b: Version): (r: Version)
    ensures r == a || r == b
    ensures AtMost(r, a) && AtMost(r, b)
    ensures Cmp(a, b) == Equal ==> r == a
  {
    CmpReflexive(a);
    CmpReflexive(b);
    CmpFlip(a, b);
    if Cmp(a, b) == Greater then b else a
  }

  /** The test of `intersection`: `rng2.1 >= rng1.0 && rng1.1 >= rng2.0`. */
  predicate Overlap(rng1: Range, rng2: Range)
  {
    Cmp(rng2.1, rng1.0) != Less && Cmp(rng1.1, rng2.0) != Less
  }

  /** The range pushed for an overlapping pair: the larger minimum and the
      smaller maximum, so it lies inside both ranges. */
  function Meet(rng1: Range, rng2: Range): (r: Range)
    ensures r.0 in {rng1.0, rng2.0} && r.1 in {rng1.1, rng2.1}
    ensures AtMost(rng1.0, r.0) && AtMost(rng2.0, r.0)
    ensures AtMost(r.1, rng1.1) && AtMost(r.1, rng2.1)
  {
    (MaxV(rng2.0, rng1.0), MinV(rng1.1, rng2.1))
  }

  /** The inner loop of `intersection` for one `rng1`: the meets with the
      overlapping ranges of `ranges2`, in order. */
  function Row(rng1: Range, ranges2: seq<Range>): seq<Range>
  {
    if |ranges2| == 0 then []
    else
      var rng2 := ranges2[|ranges2| - 1];
      Row(rng1, ranges2[..|ranges2| - 1]) + (if Overlap(rng1, rng2) then [Meet(rng1, rng2)] else [])
  }

  /** What `intersection` returns: the rows of all of `ranges1`, in order. */
  function Intersect(ranges1: seq<Range>, ranges2: seq<Range>): seq<Range>
  {
    if |ranges1| == 0 then []
    else Intersect(ranges1[..|ranges1| - 1], ranges2) + Row(ranges1[|ranges1| - 1], ranges2)
  }

  /** `intersection`, with its nested loops. */
  method Intersection(ranges1: seq<Range>, ranges2: seq<Range>) returns (result: seq<Range>)
    ensures result == Intersect(ranges1, ranges2)
  {
    result := [];
    for i := 0 to |ranges1|
      invariant result == Intersect(ranges1[..i], ranges2)
    {
      var rng1 := ranges1[i];
      ghost var before := result;
      for j := 0 to |ranges2|
        invariant result == before + Row(rng1, ranges2[..j])
      {
        var rng2 := ranges2[j];
        assert ranges2[..j + 1][..j] == ranges2[..j];
        if Cmp(rng2.1, rng1.0) != Less && Cmp(rng1.1, rng2.0) != Less {
          result := result + [(MaxV(rng2.0, rng1.0), MinV(rng1.1, rng2.1))];
        }
      }
      assert ranges2[..|ranges2|] == ranges2;
      assert ranges1[..i + 1][..i] == ranges1[..i];
    }
    assert ranges1[..|ranges1|] == ranges1;
  }

  /** The range the fold starts from: 0.0.0 to `MAX_VER`.0.0. */
  function Full(): Range { (Zero(), Max()) }

  /** `intersection_many2`: fold the ranges, each intersected with the
      accumulator, starting from the full range. */
  function IntersectionMany2(reqs: seq<Range>): seq<Range>
  {
    if |reqs| == 0 then [Full()]
    else Intersect([reqs[|reqs| - 1]], IntersectionMany2(reqs[..|reqs| - 1]))
  }

  /** The range one constraint adds in `intersection_many`: `!=` is
      replaced by the full range; every other operator has one range. */
  function Contribution(c: Constraint): Range
    requires NoOverflow(c)
  {
    if c.typ == Ne then Full() else CompatibleRange(c)[0]
  }

  predicate AllNoOverflow(constrs: seq<Constraint>)
  {
    forall i :: 0 <= i < |constrs| ==> NoOverflow(constrs[i])
  }

  function Contributions(constrs: seq<Constraint>): (rs: seq<Range>)
    requires AllNoOverflow(constrs)
    ensures |rs| == |constrs|
    ensures forall i :: 0 <= i < |constrs| ==> rs[i] == Contribution(constrs[i])
  {
    seq(|constrs|, i requires 0 <= i < |constrs| && AllNoOverflow(constrs) => Contribution(constrs[i]))
  }

  /** `intersection_many`: one range per constraint (the `!=` versions are
      collected but not used), then the fold. */
  method IntersectionMany(constrs: seq<Constraint>) returns (result: seq<Range>)
    requires AllNoOverflow(constrs)
    ensures result == IntersectionMany2(Contributions(constrs))
  {
    var nes: seq<Version> := [];
    var ranges: seq<Range> := [];
    for i := 0 to |constrs|
      invariant ranges == Contributions(constrs)[..i]
    {
      var constr := constrs[i];
      var rng := CompatibleRange(constr);
      var rng2;
      if constr.typ == Ne {
        rng2 := (New(0, 0, 0), Max());
        nes := nes + [constr.version];
      } else {
        rng2 := rng[0];
      }
      assert rng2 == Contribution(constr);
      assert Contributions(constrs)[..i + 1] == Contributions(constrs)[..i] + [Contribution(constrs[i])];
      ranges := ranges + [rng2];
    }
    assert Contributions(constrs)[..|constrs|] == Contributions(constrs);
    result := IntersectionMany2(ranges);
  }
}

/** What the range algebra guarantees. */
module RangeProofs {
  import opened Prim
  import opened Versions
  import opened VersionProofs
  import opened Constraints
  import opened ConstraintProofs
  import opened Ranges

  // ---------------------------------------------------------------------
  // max and min

  lemma MaxVBounds(a: Version, b: Version, w: Version)
    ensures MaxV(a, b) == a || MaxV(a, b) == b
    ensures AtMost(MaxV(a, b), w) <==> AtMost(a, w) && AtMost(b, w)
  {
    CmpFlip(a, b);
    CmpTransitive(a, b, w);
    CmpTransitive(b, a, w);
  }

  lemma MinVBounds(a: Version, b: Version, w: Version)
    ensures MinV(a, b) == a || MinV(a, b) == b
    ensures AtMost(w, MinV(a, b)) <==> AtMost(w, a) && AtMost(w, b)
  {
    CmpFlip(a, b);
    CmpTransitive(w, a, b);
    CmpTransitive(w, b, a);
  }

  /** The overlap test is the usual one on inclusive ranges. */
  lemma OverlapIff(rng1: Range, rng2: Range)
    ensures Overlap(rng1, rng2) <==> AtMost(rng1.0, rng2.1) && AtMost(rng2.0, rng1.1)
  {
    CmpFlip(rng2.1, rng1.0);
    CmpFlip(rng1.1, rng2.0);
  }

  /** A version lies in the meet exactly when it lies in both ranges. */
  lemma MeetMembership(rng1: Range, rng2: Range, w: Version)
    ensures InRange(w, Meet(rng1, rng2)) <==> InRange(w, rng1) && InRange(w, rng2)
  {
    MaxVBounds(rng2.0, rng1.0, w);
    MinVBounds(rng1.1, rng2.1, w);
  }

  /** A version in both ranges makes them overlap. */
  lemma CommonMemberOverlaps(rng1: Range, rng2: Range, w: Version)
    requires InRange(w, rng1) && InRange(w, rng2)
    ensures Overlap(rng1, rng2)
  {
    OverlapIff(rng1, rng2);
    CmpTransitive(rng1.0, w, rng2.1);
    CmpTransitive(rng2.0, w, rng1.1);
  }

  // ---------------------------------------------------------------------
  // intersection

  lemma {:induction false} RowMembership(rng1: Range, ranges2: seq<Range>, w: Version)
    ensures InAny(w, Row(rng1, ranges2)) <==> InRange(w, rng1) && InAny(w, ranges2)
  {
    if |ranges2| > 0 {
      var front := ranges2[..|ranges2| - 1];
      var rng2 := ranges2[|ranges2| - 1];
      var extra := if Overlap(rng1, rng2) then [Meet(rng1, rng2)] else [];
      RowMembership(rng1, front, w);
      AnyAppend(Row(rng1, front), extra, w);
      AnyAppend(front, [rng2], w);
      assert front + [rng2] == ranges2;
      MeetMembership(rng1, rng2, w);
      assert InAny(w, [rng2]) <==> InRange(w, rng2) by { assert [rng2][0] == rng2; }
      if Overlap(rng1, rng2) {
        assert InAny(w, extra) <==> InRange(w, Meet(rng1, rng2)) by { assert extra[0] == Meet(rng1, rng2); }
      }
      if InRange(w, rng1) && InRange(w, rng2) {
        CommonMemberOverlaps(rng1, rng2, w);
      }
    }
  }

  /** Membership in a concatenation. */
  lemma AnyAppend(a: seq<Range>, b: seq<Range>, w: Version)
    ensures InAny(w, a + b) <==> InAny(w, a) || InAny(w, b)
  {
    if InAny(w, a + b) {
      var i :| 0 <= i < |a + b| && InRange(w, (a + b)[i]);
      if i < |a| { assert InRange(w, a[i]); } else { assert InRange(w, b[i - |a|]); }
    }
    if InAny(w, a) {
      var i :| 0 <= i < |a| && InRange(w, a[i]);
      assert InRange(w, (a + b)[i]);
    }
    if InAny(w, b) {
      var i :| 0 <= i < |b| && InRange(w, b[i]);
      assert InRange(w, (a + b)[|a| + i]);
    }
  }

  /** `intersection` is "and": a version is in the result exactly when it is
      in some range of each list. */
  lemma {:induction false} IntersectMembership(ranges1: seq<Range>, ranges2: seq<Range>, w: Version)
    ensures InAny(w, Intersect(ranges1, ranges2)) <==> InAny(w, ranges1) && InAny(w, ranges2)
  {
    if |ranges1| > 0 {
      var front := ranges1[..|ranges1| - 1];
      var last := ranges1[|ranges1| - 1];
      IntersectMembership(front, ranges2, w);
      RowMembership(last, ranges2, w);
      AnyAppend(Intersect(front, ranges2), Row(last, ranges2), w);
      AnyAppend(front, [last], w);
      assert front + [last] == ranges1;
    }
  }

  lemma {:induction false} RowLength(rng1: Range, ranges2: seq<Range>)
    ensures |Row(rng1, ranges2)| <= |ranges2|
  {
    if |ranges2| > 0 { RowLength(rng1, ranges2[..|ranges2| - 1]); }
  }

  /** At most one range per pair. */
  lemma {:induction false} IntersectLength(ranges1: seq<Range>, ranges2: seq<Range>)
    ensures |Intersect(ranges1, ranges2)| <= |ranges1| * |ranges2|
  {
    if |ranges1| > 0 {
      var n, m := |ranges1|, |ranges2|;
      IntersectLength(ranges1[..n - 1], ranges2);
      RowLength(ranges1[n - 1], ranges2);
      assert (n - 1) * m + m == n * m;
    }
  }

  /** `r` lies inside `outer`. */
  predicate Inside(r: Range, outer: Range)
  {
    AtMost(outer.0, r.0) && AtMost(r.1, outer.1)
  }

  /** A range with its minimum at most its maximum. */
  predicate WellFormed(r: Range) { AtMost(r.0, r.1) }

  lemma MeetInside(rng1: Range, rng2: Range)
    requires Overlap(rng1, rng2) && WellFormed(rng1) && WellFormed(rng2)
    ensures Inside(Meet(rng1, rng2), rng1) && Inside(Meet(rng1, rng2), rng2)
    ensures WellFormed(Meet(rng1, rng2))
  {
    var m := Meet(rng1, rng2);
    OverlapIff(rng1, rng2);
    CmpReflexive(rng1.0); CmpReflexive(rng2.0); CmpReflexive(rng1.1); CmpReflexive(rng2.1);
    MaxVBounds(rng2.0, rng1.0, m.0);
    MinVBounds(rng1.1, rng2.1, m.1);
    MaxVBounds(rng2.0, rng1.0, m.1);
    MinVBounds(rng1.1, rng2.1, rng1.0);
    MinVBounds(rng1.1, rng2.1, rng2.0);
  }

  lemma {:induction false} RowInside(rng1: Range, ranges2: seq<Range>)
    requires WellFormed(rng1) && forall j :: 0 <= j < |ranges2| ==> WellFormed(ranges2[j])
    ensures forall k :: 0 <= k < |Row(rng1, ranges2)| ==>
      WellFormed(Row(rng1, ranges2)[k]) && Inside(Row(rng1, ranges2)[k], rng1) &&
      exists j :: 0 <= j < |ranges2| && Inside(Row(rng1, ranges2)[k], ranges2[j])
  {
    if |ranges2| > 0 {
      var front := ranges2[..|ranges2| - 1];
      var rng2 := ranges2[|ranges2| - 1];
      RowInside(rng1, front);
      if Overlap(rng1, rng2) { MeetInside(rng1, rng2); }
      var row := Row(rng1, ranges2);
      forall k | 0 <= k < |row|
        ensures WellFormed(row[k]) && Inside(row[k], rng1) &&
          exists j :: 0 <= j < |ranges2| && Inside(row[k], ranges2[j])
      {
        if k < |Row(rng1, front)| {
          assert row[k] == Row(rng1, front)[k];
          var j :| 0 <= j < |front| && Inside(row[k], front[j]);
          assert ranges2[j] == front[j];
        } else {
          assert row[k] == Meet(rng1, rng2);
          assert Inside(row[k], ranges2[|ranges2| - 1]);
        }
      }
    }
  }

  /** For well-formed inputs every range of the result is well formed and
      lies inside a range of each list. */
  lemma {:induction false} IntersectInside(ranges1: seq<Range>, ranges2: seq<Range>)
    requires forall i :: 0 <= i < |ranges1| ==> WellFormed(ranges1[i])
    requires forall j :: 0 <= j < |ranges2| ==> WellFormed(ranges2[j])
    ensures forall k :: 0 <= k < |Intersect(ranges1, ranges2)| ==>
      WellFormed(Intersect(ranges1, ranges2)[k]) &&
      (exists i :: 0 <= i < |ranges1| && Inside(Intersect(ranges1, ranges2)[k], ranges1[i])) &&
      (exists j :: 0 <= j < |ranges2| && Inside(Intersect(ranges1, ranges2)[k], ranges2[j]))
  {
    if |ranges1| > 0 {
      var front := ranges1[..|ranges1| - 1];
      var last := ranges1[|ranges1| - 1];
      IntersectInside(front, ranges2);
      RowInside(last, ranges2);
      var res := Intersect(ranges1, ranges2);
      forall k | 0 <= k < |res|
        ensures WellFormed(res[k]) &&
          (exists i :: 0 <= i < |ranges1| && Inside(res[k], ranges1[i])) &&
          (exists j :: 0 <= j < |ranges2| && Inside(res[k], ranges2[j]))
      {
        if k < |Intersect(front, ranges2)| {
          assert res[k] == Intersect(front, ranges2)[k];
          var i :| 0 <= i < |front| && Inside(res[k], front[i]);
          assert ranges1[i] == front[i];
        } else {
          assert res[k] == Row(last, ranges2)[k - |Intersect(front, ranges2)|];
          assert Inside(res[k], ranges1[|ranges1| - 1]);
        }
      }
    }
  }

  // ---------------------------------------------------------------------
  // intersection_many2

  /** The fold yields at most one range. */
  lemma {:induction false} IntersectionMany2AtMostOne(reqs: seq<Range>)
    ensures |IntersectionMany2(reqs)| <= 1
  {
    if |reqs| > 0 {
      var front := reqs[..|reqs| - 1];
      IntersectionMany2AtMostOne(front);
      IntersectLength([reqs[|reqs| - 1]], IntersectionMany2(front));
    }
  }

  /** The fold is "and" over all ranges, within the full range. */
  lemma {:induction false} IntersectionMany2Membership(reqs: seq<Range>, w: Version)
    ensures InAny(w, IntersectionMany2(reqs)) <==>
      InRange(w, Full()) && forall i :: 0 <= i < |reqs| ==> InRange(w, reqs[i])
  {
    if |reqs| == 0 {
      assert InAny(w, [Full()]) <==> InRange(w, [Full()][0]);
    } else {
      var front := reqs[..|reqs| - 1];
      var last := reqs[|reqs| - 1];
      IntersectionMany2Membership(front, w);
      IntersectMembership([last], IntersectionMany2(front), w);
      assert InAny(w, [last]) <==> InRange(w, [last][0]);
      if forall i :: 0 <= i < |front| ==> InRange(w, front[i]) {
        if InRange(w, last) {
          forall i | 0 <= i < |reqs| ensures InRange(w, reqs[i]) {
            if i < |front| { assert reqs[i] == front[i]; }
          }
        }
      }
      if forall i :: 0 <= i < |reqs| ==> InRange(w, reqs[i]) {
        forall i | 0 <= i < |front| ensures InRange(w, front[i]) {
          assert front[i] == reqs[i];
        }
      }
    }
  }

  /** The order of the ranges does not change which versions are admitted. */
  lemma IntersectionMany2OrderFree(a: seq<Range>, b: seq<Range>, w: Version)
    requires multiset(a) == multiset(b)
    ensures InAny(w, IntersectionMany2(a)) <==> InAny(w, IntersectionMany2(b))
  {
    IntersectionMany2Membership(a, w);
    IntersectionMany2Membership(b, w);
    forall i | 0 <= i < |a| ensures a[i] in multiset(b) { assert a[i] in multiset(a); }
    forall i | 0 <= i < |b| ensures b[i] in multiset(a) { assert b[i] in multiset(b); }
    if forall i :: 0 <= i < |a| ==> InRange(w, a[i]) {
      forall i | 0 <= i < |b| ensures InRange(w, b[i]) {
        var k :| 0 <= k < |a| && a[k] == b[i];
      }
    }
    if forall i :: 0 <= i < |b| ==> InRange(w, b[i]) {
      forall i | 0 <= i < |a| ensures InRange(w, a[i]) {
        var k :| 0 <= k < |b| && b[k] == a[i];
      }
    }
  }

  /** The bounds the fold reaches: the larger of the lower bounds and the
      smaller of the upper bounds, chosen as `intersection` chooses them. */
  function Bounds(reqs: seq<Range>): Range
  {
    if |reqs| == 0 then Full()
    else
      var acc := Bounds(reqs[..|reqs| - 1]);
      var last := reqs[|reqs| - 1];
      (MaxV(acc.0, last.0), MinV(last.1, acc.1))
  }

  /** For well-formed ranges the fold is empty exactly when the largest lower
      bound exceeds the smallest upper bound, and otherwise that one range. */
  lemma {:induction false} IntersectionMany2Exact(reqs: seq<Range>)
    requires forall i :: 0 <= i < |reqs| ==> WellFormed(reqs[i])
    ensures IntersectionMany2(reqs) == if WellFormed(Bounds(reqs)) then [Bounds(reqs)] else []
  {
    if |reqs| == 0 {
      assert Cmp(Zero(), Max()) == Less;
    } else {
      var front := reqs[..|reqs| - 1];
      var last := reqs[|reqs| - 1];
      IntersectionMany2Exact(front);
      var acc := Bounds(front);
      var b := Bounds(reqs);
      MaxVBounds(acc.0, last.0, b.1);
      MinVBounds(last.1, acc.1, b.0);
      MaxVBounds(acc.0, last.0, acc.1);
      MinVBounds(last.1, acc.1, acc.0);
      MaxVBounds(acc.0, last.0, last.1);
      MinVBounds(last.1, acc.1, last.0);
      CmpReflexive(acc.0); CmpReflexive(acc.1); CmpReflexive(last.0); CmpReflexive(last.1);
      OverlapIff(last, acc);
      if WellFormed(acc) {
        assert Intersect([last], [acc]) == Intersect([], [acc]) + Row(last, [acc]);
        assert Row(last, [acc]) == Row(last, []) + (if Overlap(last, acc) then [Meet(last, acc)] else []);
        if WellFormed(b) {
          CmpTransitive(last.0, b.0, b.1);
          CmpTransitive(last.0, b.1, acc.1);
          CmpTransitive(acc.0, b.0, b.1);
          CmpTransitive(acc.0, b.1, last.1);
        } else {
          CmpTotal(b.0, b.1);
        }
      } else {
        assert Intersect([last], []) == [];
        CmpTotal(acc.0, acc.1);
        CmpTransitive(acc.1, acc.0, b.0);
        CmpTransitive(b.1, acc.1, acc.0);
        CmpTransitive(b.1, acc.0, b.0);
      }
    }
  }

  // ---------------------------------------------------------------------
  // intersection_many

  /** A `!=` constraint never narrows the result: only the other constraints'
      ranges count. */
  lemma IntersectionManyMembership(constrs: seq<Constraint>, w: Version)
    requires AllNoOverflow(constrs)
    ensures InAny(w, IntersectionMany2(Contributions(constrs))) <==>
      InRange(w, Full()) &&
      forall i :: 0 <= i < |constrs| && constrs[i].typ != Ne ==> InRange(w, CompatibleRange(constrs[i])[0])
  {
    var rs := Contributions(constrs);
    IntersectionMany2Membership(rs, w);
  }

  /** `intersection_many` gives at most one range. */
  lemma IntersectionManyAtMostOne(constrs: seq<Constraint>)
    requires AllNoOverflow(constrs)
    ensures |IntersectionMany2(Contributions(constrs))| <= 1
  {
    IntersectionMany2AtMostOne(Contributions(constrs));
  }

  /** `!=` constraints alone admit everything in the full range. */
  lemma OnlyNotEquals(constrs: seq<Constraint>)
    requires AllNoOverflow(constrs)
    requires forall i :: 0 <= i < |constrs| ==> constrs[i].typ == Ne
    ensures IntersectionMany2(Contributions(constrs)) == [Full()]
  {
    var rs := Contributions(constrs);
    assert forall i :: 0 <= i < |rs| ==> rs[i] == Full();
    assert Cmp(Zero(), Max()) == Less;
    IntersectionMany2Exact(rs);
    FullBounds(rs);
  }

  lemma {:induction false} FullBounds(rs: seq<Range>)
    requires forall i :: 0 <= i < |rs| ==> rs[i] == Full()
    ensures Bounds(rs) == Full()
  {
    if |rs| > 0 { FullBounds(rs[..|rs| - 1]); }
  }

  /** For plain constraints and bounded versions, a version is admitted by
      the result exactly when every non-`!=` constraint's direct test
      accepts it, apart from the tilde base and `<0.0.0` quirks. */
  lemma IntersectionManyCompatible(constrs: seq<Constraint>, w: Version)
    requires AllNoOverflow(constrs) && Bounded(w)
    requires forall i :: 0 <= i < |constrs| ==> IsPlain(constrs[i].version)
    requires forall i :: 0 <= i < |constrs| ==>
      !(constrs[i].typ == Tilde && w == constrs[i].version) &&
      !(constrs[i].typ == Lt && constrs[i].version == Zero() && w == Zero())
    ensures InAny(w, IntersectionMany2(Contributions(constrs))) <==>
      forall i :: 0 <= i < |constrs| && constrs[i].typ != Ne ==> IsCompatible(constrs[i], w)
  {
    IntersectionManyMembership(constrs, w);
    assert InRange(w, Full()) by { assert Cmp(Zero(), w) != Greater; }
    forall i | 0 <= i < |constrs| && constrs[i].typ != Ne
      ensures InRange(w, CompatibleRange(constrs[i])[0]) <==> IsCompatible(constrs[i], w)
    {
      CompatibleRangeAgreement(constrs[i], w);
      assert InAny(w, CompatibleRange(constrs[i])) <==> InRange(w, CompatibleRange(constrs[i])[0]);
    }
  }

  // ---------------------------------------------------------------------
  // Unit-test cases

  /** With `Version::cmp` as written, which calls a = 1.0.0rc1 and
      b = 1.0.0.0a1 equal, `cmp::max(a, b)` is b and `cmp::min(a, b)` is a.
      The model ranks rc above a: `MaxV(a, b)` is a and `MinV(a, b)` is b. */
  lemma AsWrittenMaxMinDiffer()
    ensures var a := Version(1, 0, 0, None, Some((ReleaseCandidate, 1)));
            var b := Version(1, 0, 0, Some(0), Some((Alpha, 1)));
            CmpAsWritten(a, b) == Equal && MaxV(a, b) == a && MinV(a, b) == b
  {
  }

  /** Test `intersections_simple` and `intersection_contained`. */
  lemma IntersectionExamples()
    ensures Intersect([(New(4, 9, 4), Max())], [(New(4, 3, 1), Max())]) == [(New(4, 9, 4), Max())]
    ensures Intersect([(New(3, 0, 0), New(3, 9, 0))], [(New(3, 3, 6), New(3, 3, 6))]) == [(New(3, 3, 6), New(3, 3, 6))]
    ensures Intersect([(New(4, 9, 2), Max())], [(New(4, 9, 4), New(5, 5, 4))]) == [(New(4, 9, 4), New(5, 5, 4))]
  {
  }

  /** The contributions of two constraints, one each. */
  lemma ContributionsTwo(c1: Constraint, c2: Constraint)
    requires NoOverflow(c1) && NoOverflow(c2)
    ensures Contributions([c1, c2]) == [Contribution(c1), Contribution(c2)]
  {
  }

  lemma ContributionsThree(c1: Constraint, c2: Constraint, c3: Constraint)
    requires NoOverflow(c1) && NoOverflow(c2) && NoOverflow(c3)
    ensures Contributions([c1, c2, c3]) == [Contribution(c1), Contribution(c2), Contribution(c3)]
  {
  }

  /** The bounds of two ranges, folded from the full range. */
  lemma BoundsTwo(r1: Range, r2: Range)
    ensures Bounds([r1, r2]) == (MaxV(MaxV(Zero(), r1.0), r2.0), MinV(r2.1, MinV(r1.1, Max())))
  {
    assert [r1, r2][..1] == [r1] && [r1][..0] == [];
    assert Bounds([r1]) == (MaxV(Zero(), r1.0), MinV(r1.1, Max()));
  }

  lemma BoundsThree(r1: Range, r2: Range, r3: Range)
    ensures Bounds([r1, r2, r3]) == (MaxV(Bounds([r1, r2]).0, r3.0), MinV(r3.1, Bounds([r1, r2]).1))
  {
    assert [r1, r2, r3][..2] == [r1, r2];
  }

  /** Test `intersections_empty`: `==4.9.4, >=4.9.7`. */
  lemma IntersectionManyEmptyExample1()
    ensures IntersectionMany2(Contributions([Constraint(Exact, New(4, 9, 4)), Constraint(Gte, New(4, 9, 7))])) == []
  {
    var c1, c2 := Constraint(Exact, New(4, 9, 4)), Constraint(Gte, New(4, 9, 7));
    ContributionsTwo(c1, c2);
    var r1, r2 := (New(4, 9, 4), New(4, 9, 4)), (New(4, 9, 7), Max());
    assert Contribution(c1) == r1 && Contribution(c2) == r2;
    BoundsTwo(r1, r2);
    IntersectionMany2Exact([r1, r2]);
  }

  /** Test `intersections_empty`: `<=4.9.6, >=4.9.7`. */
  lemma IntersectionManyEmptyExample2()
    ensures IntersectionMany2(Contributions([Constraint(Lte, New(4, 9, 6)), Constraint(Gte, New(4, 9, 7))])) == []
  {
    var c1, c2 := Constraint(Lte, New(4, 9, 6)), Constraint(Gte, New(4, 9, 7));
    ContributionsTwo(c1, c2);
    var r1, r2 := (Zero(), New(4, 9, 6)), (New(4, 9, 7), Max());
    assert Contribution(c1) == r1 && Contribution(c2) == r2;
    BoundsTwo(r1, r2);
    IntersectionMany2Exact([r1, r2]);
  }

  /** Test `intersections_simple_many`. */
  lemma IntersectionManyExample1()
    ensures IntersectionMany2(Contributions([Constraint(Gte, New(4, 9, 4)), Constraint(Gte, New(4, 3, 1))])) ==
      [(New(4, 9, 4), Max())]
  {
    var c1, c2 := Constraint(Gte, New(4, 9, 4)), Constraint(Gte, New(4, 3, 1));
    ContributionsTwo(c1, c2);
    var r1, r2 := (New(4, 9, 4), Max()), (New(4, 3, 1), Max());
    assert Contribution(c1) == r1 && Contribution(c2) == r2;
    BoundsTwo(r1, r2);
    IntersectionMany2Exact([r1, r2]);
  }

  /** Test `intersections_simple_many`. */
  lemma IntersectionManyExample2()
    ensures IntersectionMany2(Contributions([Constraint(Caret, New(3, 0, 0)), Constraint(Exact, New(3, 3, 6))])) ==
      [(New(3, 3, 6), New(3, 3, 6))]
  {
    var c1, c2 := Constraint(Caret, New(3, 0, 0)), Constraint(Exact, New(3, 3, 6));
    ContributionsTwo(c1, c2);
    var r1, r2 := (New(3, 0, 0), New(3, MAX_VER, MAX_VER)), (New(3, 3, 6), New(3, 3, 6));
    assert Contribution(c1) == r1 && Contribution(c2) == r2;
    BoundsTwo(r1, r2);
    IntersectionMany2Exact([r1, r2]);
  }

  /** Test `intersection_contained_many`. */
  lemma IntersectionManyExample3()
    ensures IntersectionMany2(Contributions([
      Constraint(Gte, New(4, 9, 2)), Constraint(Gte, New(4, 9, 4)), Constraint(Lt, New(5, 5, 5))])) ==
      [(New(4, 9, 4), New(5, 5, 4))]
  {
    var c1, c2, c3 := Constraint(Gte, New(4, 9, 2)), Constraint(Gte, New(4, 9, 4)), Constraint(Lt, New(5, 5, 5));
    ContributionsThree(c1, c2, c3);
    var r1, r2, r3 := (New(4, 9, 2), Max()), (New(4, 9, 4), Max()), (Zero(), New(5, 5, 4));
    assert Contribution(c1) == r1 && Contribution(c2) == r2 && Contribution(c3) == r3;
    BoundsTwo(r1, r2);
    BoundsThree(r1, r2, r3);
    IntersectionMany2Exact([r1, r2, r3]);
  }

  /** Test `intersection_contained_many_w_ne`: the `!=` constraints are ignored. */
  lemma IntersectionManyNotEqualExample()
    ensures IntersectionMany2(Contributions([
      Constraint(Ne, New(2, 0, 4)), Constraint(Ne, New(2, 1, 2)), Constraint(Ne, New(2, 1, 6)),
      Constraint(Gte, New(2, 0, 1)), Constraint(Gte, New(2, 0, 2))])) ==
      [(New(2, 0, 2), Max())]
  {
    var rs := Contributions([
      Constraint(Ne, New(2, 0, 4)), Constraint(Ne, New(2, 1, 2)), Constraint(Ne, New(2, 1, 6)),
      Constraint(Gte, New(2, 0, 1)), Constraint(Gte, New(2, 0, 2))]);
    assert rs == [Full(), Full(), Full(), (New(2, 0, 1), Max()), (New(2, 0, 2), Max())];
    assert rs[..4] == [Full(), Full(), Full(), (New(2, 0, 1), Max())];
    assert rs[..4][..3] == [Full(), Full(), Full()];
    FullBounds(rs[..4][..3]);
    assert Bounds(rs[..4]) == (New(2, 0, 1), Max());
    assert Bounds(rs) == (New(2, 0, 2), Max());
    IntersectionMany2Exact(rs);
  }
}
