/** The language of version text, stated twice independently of the scanner
    `Versions.MatchVersion`: once as the regular expression
    `^(\d+)\.?(\d+)?\.?(\d+)?\.?(\d+)?(?:(a|b|rc|dep)(\d+))?$` of
    src/dep_types.rs transcribed group by group, once character by
    character. The scanner accepts exactly this language, so
    `Version::from_str` fails with "Problem parsing version" exactly outside
    it. */
module VersionGrammar {
  import opened Prim
  import opened Text
  import opened Versions
  import VersionProofs

  // ---------------------------------------------------------------------
  // The two descriptions of the language

  /** The group shapes of the pattern: `(\d+)` for the major number,
      `(\d+)?` for the optional numbers, `(a|b|rc|dep)(\d+)` for the tag. */
  predicate PatternCaptures(c: VersionCaptures) {
    && |c.major| > 0 && AllDigits(c.major)
    && (c.minor.Some? ==> |c.minor.value| > 0 && AllDigits(c.minor.value))
    && (c.patch.Some? ==> |c.patch.value| > 0 && AllDigits(c.patch.value))
    && (c.extra.Some? ==> |c.extra.value| > 0 && AllDigits(c.extra.value))
    && (c.tag.Some? ==>
          c.tag.value.0 in {"a", "b", "rc", "dep"} &&
          |c.tag.value.1| > 0 && AllDigits(c.tag.value.1))
  }

  /** The text matches the pattern: it is laid out as some captures of the
      right shapes with an optional dot before each optional number. */
  ghost predicate PatternText(t: string) {
    exists c, d1, d2, d3 :: PatternCaptures(c) && t == CapturedText(c, d1, d2, d3)
  }

  predicate DigitOrDot(ch: char) { IsDigit(ch) || ch == '.' }

  /** The numeric part: a digit, then digits and at most three dots. */
  predicate NumberPart(b: string) {
    && |b| > 0 && IsDigit(b[0])
    && (forall i :: 0 <= i < |b| ==> DigitOrDot(b[i]))
    && multiset(b)['.'] <= 3
  }

  /** The tag part: nothing, or a known tag and a non-empty digit run. */
  predicate TagPart(u: string) {
    u == [] || exists j :: 0 < j < |u| && u[..j] in {"a", "b", "rc", "dep"} && AllDigits(u[j..])
  }

  /** Version text, character by character. */
  predicate InGrammar(t: string) {
    exists k :: 0 < k <= |t| && NumberPart(t[..k]) && TagPart(t[k..])
  }

  // ---------------------------------------------------------------------
  // The scanner accepts exactly the language

  /** Every text the scanner accepts has the pattern's layout. */
  lemma MatchedIsPattern(t: string)
    requires MatchVersion(t).Some?
    ensures PatternText(t)
  {
    var c := MatchVersion(t).value;
    var d1, d2, d3 :| t == CapturedText(c, d1, d2, d3);
    if c.tag.Some? {
      var tag := c.tag.value.0;
      assert ModifierFromStr(tag).Ok?;
      assert tag in {"a", "b", "rc", "dep"};
    }
    assert PatternCaptures(c);
  }

  /** Every text with the pattern's layout is version text. */
  lemma PatternInGrammar(t: string)
    requires PatternText(t)
    ensures InGrammar(t)
  {
    var c, d1, d2, d3 :| PatternCaptures(c) && t == CapturedText(c, d1, d2, d3);
    var b := NumberText(c, d1, d2, d3);
    var u := TagText(c.tag);
    assert t == b + u;
    assert t[..|b|] == b && t[|b|..] == u;
    TagTextPart(c);
  }

  /** The numbers and dots of a pattern match form the numeric part. */
  lemma NumberText(c: VersionCaptures, d1: bool, d2: bool, d3: bool) returns (b: string)
    requires PatternCaptures(c)
    ensures b == c.major + DotText(d1) + GroupText(c.minor) + DotText(d2) + GroupText(c.patch)
                 + DotText(d3) + GroupText(c.extra)
    ensures NumberPart(b)
  {
    var b1 := NumberSlot(c.major, d1, c.minor);
    var b2 := NumberSlot(b1, d2, c.patch);
    b := NumberSlot(b2, d3, c.extra);
    NoDotInDigits(c.major);
  }

  lemma TagTextPart(c: VersionCaptures)
    requires PatternCaptures(c)
    ensures TagPart(TagText(c.tag))
  {
    if c.tag.Some? {
      var u := TagText(c.tag);
      var j := |c.tag.value.0|;
      assert u[..j] == c.tag.value.0 && u[j..] == c.tag.value.1;
    }
  }

  /** Every version text is accepted by the scanner. */
  lemma GrammarMatched(t: string)
    requires InGrammar(t)
    ensures MatchVersion(t).Some?
  {
    var k :| 0 < k <= |t| && NumberPart(t[..k]) && TagPart(t[k..]);
    var u := t[k..];
    NumberAhead(t, k, u);
    var x1 := SlotsStart(t, k, u);
    ThreeSlots(x1, u);
    TagPartMatches(u);
    ScannerReachesTag(t, u);
  }

  /** Version text is a numeric stretch followed by its tag part. */
  lemma NumberAhead(t: string, k: nat, u: string)
    requires 0 < k <= |t| && NumberPart(t[..k]) && u == t[k..] && TagPart(u)
    ensures AheadOf(t, k, u, 3) && IsDigit(t[0])
  {
    assert t[..k][0] == t[0];
    assert forall i :: 0 <= i < k ==> t[i] == t[..k][i];
    TagPartStart(u);
  }

  /** The leading digit run leaves the rest of the numeric stretch. */
  lemma SlotsStart(t: string, k: nat, u: string) returns (x1: string)
    requires AheadOf(t, k, u, 3) && 0 < |t| && IsDigit(t[0])
    ensures DigitsLen(t) > 0 && x1 == t[DigitsLen(t)..]
    ensures exists q0: nat :: AheadOf(x1, q0, u, 3) && (q0 > 0 ==> x1[0] == '.')
  {
    var q0 := TakeDigits(t, k, u, 3);
    x1 := t[DigitsLen(t)..];
    assert AheadOf(x1, q0, u, 3);
  }

  /** The scanner accepts once its three slots end at a tag part. */
  lemma ScannerReachesTag(t: string, u: string)
    requires DigitsLen(t) > 0 && MatchTag(u).Some?
    requires OptDigits(SkipDot(OptDigits(SkipDot(OptDigits(SkipDot(t[DigitsLen(t)..])).1)).1)).1 == u
    ensures MatchVersion(t).Some?
  {
  }

  /** The three `\.?(\d+)?` slots use up the numeric stretch. */
  lemma ThreeSlots(x1: string, u: string)
    requires exists q0: nat :: AheadOf(x1, q0, u, 3) && (q0 > 0 ==> x1[0] == '.')
    ensures OptDigits(SkipDot(OptDigits(SkipDot(OptDigits(SkipDot(x1)).1)).1)).1 == u
  {
    var q0: nat :| AheadOf(x1, q0, u, 3) && (q0 > 0 ==> x1[0] == '.');
    var q1 := SlotStep(x1, q0, u, 3);
    var x2 := OptDigits(SkipDot(x1)).1;
    var q2 := SlotStep(x2, q1, u, 2);
    var x3 := OptDigits(SkipDot(x2)).1;
    var q3 := SlotStep(x3, q2, u, 1);
    NothingAhead(OptDigits(SkipDot(x3)).1, q3, u);
  }

  /** The three descriptions of version text agree. */
  lemma MatchVersionExact(t: string)
    ensures MatchVersion(t).Some? <==> PatternText(t)
    ensures MatchVersion(t).Some? <==> InGrammar(t)
  {
    if MatchVersion(t).Some? {
      MatchedIsPattern(t);
      PatternInGrammar(t);
    } else {
      if PatternText(t) {
        PatternInGrammar(t);
        GrammarMatched(t);
      }
      if InGrammar(t) {
        GrammarMatched(t);
      }
    }
  }

  /** `Version::from_str` succeeds or overflows exactly on version text
      (after `*` is read as `0`), and otherwise reports the text. */
  lemma VersionFromStrExact(s0: string)
    ensures var s := ReplaceChar(s0, '*', '0');
      && (InGrammar(s) <==> VersionFromStr(s0).Ok? || VersionFromStr(s0) == Err("Pare int error"))
      && (!InGrammar(s) <==> VersionFromStr(s0) == Err("Problem parsing version: " + s))
  {
    MatchVersionExact(ReplaceChar(s0, '*', '0'));
  }

  /** Version text holds at most three dots. */
  lemma GrammarDots(t: string)
    requires InGrammar(t)
    ensures multiset(t)['.'] <= 3
  {
    var k :| 0 < k <= |t| && NumberPart(t[..k]) && TagPart(t[k..]);
    TagPartNoDot(t[k..]);
    assert t == t[..k] + t[k..];
  }

  /** Text with more than three dots is never version text. */
  lemma TooManyDots(t: string)
    requires multiset(t)['.'] > 3
    ensures !InGrammar(t)
  {
    if InGrammar(t) {
      GrammarDots(t);
    }
  }

  /** Version text ends with a digit or a dot, so a tag needs its number. */
  lemma EndsWithDigitOrDot(t: string)
    requires InGrammar(t)
    ensures |t| > 0 && DigitOrDot(t[|t| - 1])
  {
    var k :| 0 < k <= |t| && NumberPart(t[..k]) && TagPart(t[k..]);
    var u := t[k..];
    if u == [] {
      assert t[|t| - 1] == t[..k][k - 1];
    } else {
      var j :| 0 < j < |u| && u[..j] in {"a", "b", "rc", "dep"} && AllDigits(u[j..]);
      assert t[|t| - 1] == u[j..][|u| - j - 1];
    }
  }

  /** "1.2.3.4.5" has a fifth number: a "Problem parsing version" error. */
  lemma FifthNumberRejected(x: string)
    requires x == "1.2.3.4.5"
    ensures VersionFromStr(x) == Err("Problem parsing version: " + x)
  {
    VersionProofs.ReplaceAbsent(x);
    FourDots(x);
    TooManyDots(x);
    VersionFromStrExact(x);
  }

  lemma FourDots(x: string)
    requires x == "1.2.3.4.5"
    ensures multiset(x)['.'] == 4
  {
  }

  /** "1.2a" has a tag without its number: a "Problem parsing version" error. */
  lemma BareTagRejected(y: string)
    requires y == "1.2a"
    ensures VersionFromStr(y) == Err("Problem parsing version: " + y)
  {
    VersionProofs.ReplaceAbsent(y);
    if InGrammar(y) {
      EndsWithDigitOrDot(y);
    }
    VersionFromStrExact(y);
  }

  // ---------------------------------------------------------------------
  // Helpers for the two directions

  lemma NoDotInDigits(g: string)
    requires AllDigits(g)
    ensures multiset(g)['.'] == 0
  {
    assert '.' !in g;
  }

  /** Appending `\.?(\d+)?` to digits and dots keeps them so, with one more
      dot at most. */
  lemma NumberSlot(b: string, d: bool, g: Option<string>) returns (b': string)
    requires |b| > 0 && IsDigit(b[0]) && forall i :: 0 <= i < |b| ==> DigitOrDot(b[i])
    requires g.Some? ==> AllDigits(g.value)
    ensures b' == b + DotText(d) + GroupText(g)
    ensures |b'| > 0 && b'[0] == b[0] && forall i :: 0 <= i < |b'| ==> DigitOrDot(b'[i])
    ensures multiset(b')['.'] <= multiset(b)['.'] + 1
  {
    b' := b + DotText(d) + GroupText(g);
    NoDotInDigits(GroupText(g));
    forall i | 0 <= i < |b'|
      ensures DigitOrDot(b'[i])
    {
      if i >= |b| + |DotText(d)| {
        assert b'[i] == GroupText(g)[i - |b| - |DotText(d)|];
      }
    }
  }

  lemma TagPartStart(u: string)
    requires TagPart(u)
    ensures u == [] || !DigitOrDot(u[0])
  {
    if u != [] {
      var j :| 0 < j < |u| && u[..j] in {"a", "b", "rc", "dep"} && AllDigits(u[j..]);
      assert u[0] == u[..j][0];
    }
  }

  lemma TagPartNoDot(u: string)
    requires TagPart(u)
    ensures multiset(u)['.'] == 0
  {
    if u != [] {
      var j :| 0 < j < |u| && u[..j] in {"a", "b", "rc", "dep"} && AllDigits(u[j..]);
      assert u == u[..j] + u[j..];
      assert '.' !in u[..j];
      NoDotInDigits(u[j..]);
    }
  }

  lemma TagPartMatches(u: string)
    requires TagPart(u)
    ensures MatchTag(u).Some?
  {
    if u != [] {
      var j :| 0 < j < |u| && u[..j] in {"a", "b", "rc", "dep"} && AllDigits(u[j..]);
      assert u[0] == u[..j][0];
      if j >= 2 {
        assert u[..2] == u[..j][..2];
      }
      if j >= 3 {
        assert u[..3] == u[..j][..3];
      }
      assert TagLen(u) == j;
      DigitsLenExact(u[j..], |u[j..]|);
    }
  }

  /** `x` is a stretch of `p` digits and dots holding at most `m` dots,
      followed by the tag part `u`, which starts with neither. */
  predicate AheadOf(x: string, p: nat, u: string, m: nat) {
    && p <= |x| && x[p..] == u
    && (forall i :: 0 <= i < p ==> DigitOrDot(x[i]))
    && multiset(x[..p])['.'] <= m
    && (u == [] || !DigitOrDot(u[0]))
  }

  /** A greedy digit run stays inside the numeric stretch and leaves it
      empty or starting with a dot. */
  lemma TakeDigits(x: string, p: nat, u: string, m: nat) returns (q: nat)
    requires AheadOf(x, p, u, m)
    ensures q == p - DigitsLen(x) && DigitsLen(x) <= p
    ensures AheadOf(x[DigitsLen(x)..], q, u, m)
    ensures q > 0 ==> x[DigitsLen(x)] == '.'
  {
    var n := DigitsLen(x);
    q := p - n;
    assert x[..p] == x[..n] + x[n..p];
    NoDotInDigits(x[..n]);
    assert x[n..][..q] == x[n..p];
    assert x[n..][q..] == x[p..];
  }

  /** One `\.?(\d+)?` slot uses up one of the dots allowed. */
  lemma SlotStep(x: string, p: nat, u: string, m: nat) returns (q: nat)
    requires m > 0 && AheadOf(x, p, u, m) && (p > 0 ==> x[0] == '.')
    ensures var y := OptDigits(SkipDot(x)).1;
      AheadOf(y, q, u, m - 1) && (q > 0 ==> y[0] == '.')
  {
    if p == 0 {
      assert x == u;
      q := 0;
    } else {
      var y := x[1..];
      assert x[..p] == [x[0]] + y[..p - 1];
      assert y[p - 1..] == x[p..];
      assert AheadOf(y, p - 1, u, m - 1);
      q := TakeDigits(y, p - 1, u, m - 1);
    }
  }

  /** With no dot left the numeric stretch is used up. */
  lemma NothingAhead(x: string, q: nat, u: string)
    requires AheadOf(x, q, u, 0) && (q > 0 ==> x[0] == '.')
    ensures x == u
  {
  }
}
