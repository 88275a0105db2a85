/** Character and string primitives the source takes from Rust's standard
    library: decimal digits and `u32` parsing/rendering, `str::split`,
    `join`, `replace`, the `\s` class of the `regex` crate and ASCII
    lower-casing. */
module Text {
  import opened Prim

  predicate IsDigit(c: char) { '0' <= c <= '9' }

  predicate AllDigits(s: string) { forall i :: 0 <= i < |s| ==> IsDigit(s[i]) }

  /** The `\s` class: the characters with the Unicode White_Space property. */
  predicate IsSpace(c: char) {
    var n := c as int;
    (0x09 <= n <= 0x0D) || n == 0x20 || n == 0x85 || n == 0xA0 || n == 0x1680 ||
    (0x2000 <= n <= 0x200A) || n == 0x2028 || n == 0x2029 || n == 0x202F ||
    n == 0x205F || n == 0x3000
  }

  /** Length of the longest prefix of `s` made of digits: what a greedy `\d+` takes. */
  function DigitsLen(s: string): (n: nat)
    ensures n <= |s|
    ensures AllDigits(s[..n])
    ensures n < |s| ==> !IsDigit(s[n])
  {
    if |s| == 0 || !IsDigit(s[0]) then 0
    else
      var k := DigitsLen(s[1..]);
      assert s[..k + 1] == [s[0]] + s[1..][..k];
      k + 1
  }

  /** Length of the longest prefix of `s` made of `\s` characters. */
  function SpacesLen(s: string): (n: nat)
    ensures n <= |s|
  {
    if |s| == 0 || !IsSpace(s[0]) then 0 else SpacesLen(s[1..]) + 1
  }

  predicate AllSpace(s: string) { forall i :: 0 <= i < |s| ==> IsSpace(s[i]) }

  /** What `SpacesLen` takes are spaces, and what follows is not one. */
  lemma {:induction false} SpacesLenPrefix(s: string)
    ensures AllSpace(s[..SpacesLen(s)])
    ensures SpacesLen(s) < |s| ==> !IsSpace(s[SpacesLen(s)])
  {
    if |s| > 0 && IsSpace(s[0]) {
      SpacesLenPrefix(s[1..]);
      assert s[..SpacesLen(s)] == [s[0]] + s[1..][..SpacesLen(s[1..])];
    }
  }

  /** A run of `k` spaces at the front is taken whole, whatever follows it. */
  lemma {:induction false} SpacesLenAtLeast(s: string, k: nat)
    requires k <= |s| && AllSpace(s[..k])
    ensures k <= SpacesLen(s)
  {
    if k > 0 {
      assert s[0] == s[..k][0];
      assert s[1..][..k - 1] == s[..k][1..];
      SpacesLenAtLeast(s[1..], k - 1);
    }
  }

  lemma {:induction false} SpacesLenExact(s: string, k: nat)
    requires k <= |s| && forall i :: 0 <= i < k ==> IsSpace(s[i])
    requires k == |s| || !IsSpace(s[k])
    ensures SpacesLen(s) == k
  {
    if k > 0 {
      SpacesLenExact(s[1..], k - 1);
    }
  }

  function DigitValue(c: char): nat
    requires IsDigit(c)
  {
    c as int - '0' as int
  }

  function DigitChar(d: nat): (c: char)
    requires d < 10
    ensures IsDigit(c) && DigitValue(c) == d
  {
    (d + '0' as int) as char
  }

  /** The value of a string of decimal digits (leading zeros allowed). */
  function DecimalValue(s: string): nat
    requires AllDigits(s)
  {
    if |s| == 0 then 0
    else DecimalValue(s[..|s| - 1]) * 10 + DigitValue(s[|s| - 1])
  }

  /** `str::parse::<u32>` on a non-empty run of decimal digits: fails exactly on overflow. */
  function ParseU32(s: string): (r: Option<u32>)
    requires AllDigits(s)
    ensures r.Some? <==> DecimalValue(s) <= U32_MAX
    ensures r.Some? ==> r.value == DecimalValue(s)
  {
    if DecimalValue(s) <= U32_MAX then Some(DecimalValue(s)) else None
  }

  /** `u32::to_string`: decimal, no leading zeros. */
  function NatToString(n: nat): (s: string)
    ensures |s| > 0 && AllDigits(s)
    decreases n
  {
    if n < 10 then [DigitChar(n)] else NatToString(n / 10) + [DigitChar(n % 10)]
  }

  lemma {:induction false} DecimalRoundTrip(n: nat)
    ensures DecimalValue(NatToString(n)) == n
    decreases n
  {
    if n >= 10 {
      var s := NatToString(n);
      assert s[..|s| - 1] == NatToString(n / 10);
      DecimalRoundTrip(n / 10);
    }
  }

  /** A rendered number followed by something that does not start with a
      digit is cut back out exactly by a greedy digit run. */
  lemma DigitsLenAfterNumber(n: nat, t: string)
    requires |t| == 0 || !IsDigit(t[0])
    ensures DigitsLen(NatToString(n) + t) == |NatToString(n)|
    ensures (NatToString(n) + t)[..|NatToString(n)|] == NatToString(n)
    ensures (NatToString(n) + t)[|NatToString(n)|..] == t
  {
    var s := NatToString(n) + t;
    var k := |NatToString(n)|;
    assert AllDigits(s[..k]) by { assert s[..k] == NatToString(n); }
    DigitsLenExact(s, k);
  }

  lemma {:induction false} DigitsLenExact(s: string, k: nat)
    requires k <= |s| && AllDigits(s[..k])
    requires k == |s| || !IsDigit(s[k])
    ensures DigitsLen(s) == k
  {
    if k > 0 {
      assert IsDigit(s[..k][0]);
      assert s[1..][..k - 1] == s[..k][1..];
      DigitsLenExact(s[1..], k - 1);
    }
  }

  /** `s.replace(from, to)` for single characters. */
  function ReplaceChar(s: string, from: char, to: char): (r: string)
    ensures |r| == |s|
    ensures forall i :: 0 <= i < |s| ==> r[i] == if s[i] == from then to else s[i]
  {
    if |s| == 0 then [] else [if s[0] == from then to else s[0]] + ReplaceChar(s[1..], from, to)
  }

  /** `s.replace(c, "")`: every occurrence of `c` removed. */
  function RemoveChar(s: string, c: char): (r: string)
    ensures c !in r
    ensures c !in s ==> r == s
  {
    if |s| == 0 then []
    else
      assert s == [s[0]] + s[1..];
      (if s[0] == c then [] else [s[0]]) + RemoveChar(s[1..], c)
  }

  /** Removing `c` keeps every other character, as often as it occurs. */
  lemma {:induction false} RemoveCharCounts(s: string, c: char)
    ensures multiset(RemoveChar(s, c)) == multiset(s)[c := 0]
  {
    if |s| > 0 {
      RemoveCharCounts(s[1..], c);
      assert s == [s[0]] + s[1..];
    }
  }

  lemma {:induction false} RemoveCharAppend(a: string, b: string, c: char)
    ensures RemoveChar(a + b, c) == RemoveChar(a, c) + RemoveChar(b, c)
  {
    if |a| > 0 {
      assert (a + b)[1..] == a[1..] + b;
      RemoveCharAppend(a[1..], b, c);
    } else {
      assert a + b == b;
    }
  }

  /** `s.split(sep)` for a character separator: always at least one part,
      an empty part between adjacent separators. */
  function Split(s: string, sep: char): (parts: seq<string>)
    ensures |parts| >= 1
    ensures forall i :: 0 <= i < |parts| ==> sep !in parts[i]
  {
    if |s| == 0 then [""]
    else
      var rest := Split(s[1..], sep);
      if s[0] == sep then [""] + rest else [[s[0]] + rest[0]] + rest[1..]
  }

  /** `parts.join(sep)`. */
  function Join(parts: seq<string>, sep: string): string
  {
    if |parts| == 0 then ""
    else if |parts| == 1 then parts[0]
    else parts[0] + sep + Join(parts[1..], sep)
  }

  lemma {:induction false} SplitWordThenSep(a: string, t: string, sep: char)
    requires sep !in a
    ensures Split(a + [sep] + t, sep) == [a] + Split(t, sep)
  {
    if |a| == 0 {
      assert a + [sep] + t == [sep] + t;
      assert ([sep] + t)[1..] == t;
    } else {
      assert (a + [sep] + t)[1..] == a[1..] + [sep] + t;
      SplitWordThenSep(a[1..], t, sep);
      assert [a[0]] + a[1..] == a;
    }
  }

  lemma {:induction false} SplitWord(a: string, sep: char)
    requires sep !in a
    ensures Split(a, sep) == [a]
  {
    if |a| > 0 {
      SplitWord(a[1..], sep);
      assert [a[0]] + a[1..] == a;
    }
  }

  /** Splitting a join on a separator that no part contains gives the parts back. */
  lemma {:induction false} SplitJoin(parts: seq<string>, sep: char)
    requires |parts| >= 1
    requires forall i :: 0 <= i < |parts| ==> sep !in parts[i]
    ensures Split(Join(parts, [sep]), sep) == parts
  {
    if |parts| == 1 {
      SplitWord(parts[0], sep);
    } else {
      SplitJoin(parts[1..], sep);
      SplitWordThenSep(parts[0], Join(parts[1..], [sep]), sep);
      assert [parts[0]] + parts[1..] == parts;
    }
  }

  /** Removing spaces from a `", "`-join of space-free parts gives their `","`-join. */
  lemma {:induction false} RemoveSpacesFromJoin(parts: seq<string>)
    requires forall i :: 0 <= i < |parts| ==> ' ' !in parts[i]
    ensures RemoveChar(Join(parts, ", "), ' ') == Join(parts, ",")
  {
    if |parts| > 1 {
      var rest := Join(parts[1..], ", ");
      RemoveSpacesFromJoin(parts[1..]);
      calc {
        RemoveChar(Join(parts, ", "), ' ');
        RemoveChar(parts[0] + ", " + rest, ' ');
        { RemoveCharAppend(parts[0] + ", ", rest, ' ');
          RemoveCharAppend(parts[0], ", ", ' '); }
        RemoveChar(parts[0], ' ') + RemoveChar(", ", ' ') + RemoveChar(rest, ' ');
        { assert RemoveChar(", ", ' ') == "," by { assert ", "[1..][1..] == []; } }
        parts[0] + "," + Join(parts[1..], ",");
      }
    }
  }

  function LowerChar(c: char): char
  {
    if 'A' <= c <= 'Z' then (c as int + 32) as char else c
  }

  /** `str::to_lowercase`, on the ASCII letters. */
  function ToLower(s: string): (r: string)
    ensures |r| == |s|
    ensures forall i :: 0 <= i < |s| ==> r[i] == LowerChar(s[i])
  {
    if |s| == 0 then [] else [LowerChar(s[0])] + ToLower(s[1..])
  }
}
