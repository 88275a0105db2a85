/** The Python-literal serialisers of src/build.rs, which write the lists
    and dictionaries that go into the generated `setup.py`. Nothing is
    escaped: items and keys are copied between double quotes as they are. */
module Build {
  import opened Prim

  // ---------------------------------------------------------------------
  // Rendering a sequence line by line

  /** The renderings of `xs` by `line`, one after the other, in order. */
  function Lines<T>(xs: seq<T>, line: T -> string): string
  {
    if |xs| == 0 then "" else Lines(xs[..|xs| - 1], line) + line(xs[|xs| - 1])
  }

  lemma {:induction false} LinesAppend<T>(a: seq<T>, b: seq<T>, line: T -> string)
    ensures Lines(a + b, line) == Lines(a, line) + Lines(b, line)
    decreases |b|
  {
    if |b| == 0 {
      assert a + b == a;
    } else {
      var d := |b| - 1;
      assert (a + b)[..|a + b| - 1] == a + b[..d];
      LinesAppend(a, b[..d], line);
      assert b[..d] + [b[d]] == b;
    }
  }

  lemma LinesCons<T>(x: T, rest: seq<T>, line: T -> string)
    ensures Lines([x] + rest, line) == line(x) + Lines(rest, line)
  {
    LinesAppend([x], rest, line);
    assert [x][..0] == [];
  }

  lemma Reassociate(a: string, b: string, c: string)
    ensures a + b + c == a + (b + c)
  {
  }

  /** The rendering of element `k` sits, verbatim, right after the
      renderings of the elements before it. */
  lemma LineAt<T>(xs: seq<T>, k: nat, line: T -> string)
    requires k < |xs|
    ensures var off := |Lines(xs[..k], line)|;
      off + |line(xs[k])| <= |Lines(xs, line)| &&
      Lines(xs, line)[off..off + |line(xs[k])|] == line(xs[k])
  {
    assert xs == xs[..k] + ([xs[k]] + xs[k + 1..]);
    LinesAppend(xs[..k], [xs[k]] + xs[k + 1..], line);
    LinesAppend([xs[k]], xs[k + 1..], line);
    assert [xs[k]][..0] == [];
  }

  // ---------------------------------------------------------------------
  // serialize_py_list

  /** One line of a serialised list: four spaces, the item in double
      quotes, a comma and a newline. */
  function PyItem(item: string): string
  {
    "    \"" + item + "\",\n"
  }

  /** The Python list literal `serialize_py_list` writes: an opening
      bracket and a newline, one line per item, a closing bracket. */
  function PyList(items: seq<string>): string
  {
    "[\n" + Lines(items, PyItem) + "]"
  }

  /** `serialize_py_list`: push the opening bracket, one line per item in
      the given order, then the closing bracket. */
  method SerializePyList(items: seq<string>) returns (result: string)
    ensures result == PyList(items)
  {
    result := "[\n";
    for k := 0 to |items|
      invariant result == "[\n" + Lines(items[..k], PyItem)
    {
      assert items[..k + 1][..k] == items[..k];
      result := result + PyItem(items[k]);
    }
    assert items[..|items|] == items;
    result := result + "]";
  }

  /** The length of the lines of `items`: each item plus eight characters. */
  function ItemsLen(items: seq<string>): nat
  {
    if |items| == 0 then 0 else ItemsLen(items[..|items| - 1]) + |items[|items| - 1]| + 8
  }

  lemma {:induction false} LinesLength(items: seq<string>)
    ensures |Lines(items, PyItem)| == ItemsLen(items)
  {
    if |items| > 0 {
      LinesLength(items[..|items| - 1]);
    }
  }

  /** The list starts with `[` and a newline and ends with `]`; its length
      is three plus, for each item, the item and eight characters. */
  lemma PyListShape(items: seq<string>)
    ensures |PyList(items)| == 3 + ItemsLen(items)
    ensures PyList(items)[..2] == "[\n"
    ensures PyList(items)[|PyList(items)| - 1] == ']'
  {
    LinesLength(items);
  }

  /** The empty list is written as `[`, a newline and `]`. */
  lemma PyListEmpty()
    ensures PyList([]) == "[\n]"
  {
  }

  /** What lies between a prefix and a suffix, read at its own offsets. */
  lemma SliceBetween(a: string, m: string, c: string, i: nat, n: nat)
    requires i + n <= |m|
    ensures |a| + i + n <= |a + m + c|
    ensures (a + m + c)[|a| + i..|a| + i + n] == m[i..i + n]
  {
  }

  lemma SliceOfSlice(s: string, o: nat, n: nat, i: nat, l: nat)
    requires o + n <= |s| && i + l <= n
    ensures s[o..o + n][i..i + l] == s[o + i..o + i + l]
  {
    var a, b := s[o..o + n][i..i + l], s[o + i..o + i + l];
    forall t | 0 <= t < l
      ensures a[t] == b[t]
    {
    }
  }

  /** A piece of a piece of `d` is a piece of `d`. */
  lemma Nested(d: string, off: nat, e: string, j: nat, m: string)
    requires off + |e| <= |d| && d[off..off + |e|] == e
    requires j + |m| <= |e| && e[j..j + |m|] == m
    ensures d[off + j..off + j + |m|] == m
  {
    SliceOfSlice(d, off, |e|, j, |m|);
  }

  /** Between an opening and a closing text, the rendering of element `k`
      sits right after the opening and the renderings before it. */
  lemma BracketedLineAt<T>(open: string, xs: seq<T>, close: string, k: nat, line: T -> string)
    requires k < |xs|
    ensures var off := |open| + |Lines(xs[..k], line)|;
      off + |line(xs[k])| <= |open + Lines(xs, line) + close| &&
      (open + Lines(xs, line) + close)[off..off + |line(xs[k])|] == line(xs[k])
  {
    LineAt(xs, k, line);
    SliceBetween(open, Lines(xs, line), close, |Lines(xs[..k], line)|, |line(xs[k])|);
  }

  /** Item `k` is written verbatim, whatever it contains, inside its own
      line, right after the lines of the items before it. */
  lemma PyListItemAt(items: seq<string>, k: nat)
    requires k < |items|
    ensures var off := 2 + ItemsLen(items[..k]);
      off + |items[k]| + 8 <= |PyList(items)| &&
      PyList(items)[off..off + |items[k]| + 8] == PyItem(items[k]) &&
      PyList(items)[off + 5..off + 5 + |items[k]|] == items[k]
  {
    var ls := Lines(items, PyItem);
    var o := ItemsLen(items[..k]);
    var n := |items[k]| + 8;
    LineAt(items, k, PyItem);
    LinesLength(items[..k]);
    SliceBetween("[\n", ls, "]", o, n);
    SliceBetween("[\n", ls, "]", o + 5, n - 8);
    SliceOfSlice(ls, o, n, 5, n - 8);
  }

  /** Because quotes are not escaped, an item holding a quote, a comma, a
      newline and the next line's indentation is written exactly as two
      items would be. */
  lemma PyListNotInjective(a: string, b: string)
    ensures PyList([a + "\",\n    \"" + b]) == PyList([a, b])
  {
    var c := a + "\",\n    \"" + b;
    assert [c][..0] == [] && [a, b][..1] == [a] && [a][..0] == [];
    assert Lines([c], PyItem) == PyItem(c);
    assert Lines([a, b], PyItem) == PyItem(a) + PyItem(b);
    ItemSplit(a, b, "    \"", "\",\n");
  }

  lemma ItemSplit(a: string, b: string, open: string, close: string)
    requires open == "    \"" && close == "\",\n"
    ensures PyItem(a + "\",\n    \"" + b) == PyItem(a) + PyItem(b)
  {
    assert "\",\n    \"" == close + open;
    assert PyItem(a + (close + open) + b) == open + a + close + open + b + close;
  }

  // ---------------------------------------------------------------------
  // Reading a list back

  /** The index of the first `"` in `s`, or `|s|` when there is none. */
  function QuoteIndex(s: string): (q: nat)
    ensures q <= |s|
    ensures forall i :: 0 <= i < q ==> s[i] != '"'
    ensures q < |s| ==> s[q] == '"'
  {
    if |s| == 0 || s[0] == '"' then 0 else 1 + QuoteIndex(s[1..])
  }

  /** Read the lines of a serialised list up to and including its closing
      bracket: each item runs to the first quote. */
  function ParseItems(s: string): (r: Option<seq<string>>)
    decreases |s|
  {
    if s == "]" then Some([])
    else if |s| < 5 || s[..5] != "    \"" then None
    else
      var q := QuoteIndex(s[5..]);
      if 5 + q + 3 > |s| || s[5 + q..5 + q + 3] != "\",\n" then None
      else match ParseItems(s[5 + q + 3..])
        case None => None
        case Some(rest) => Some([s[5..5 + q]] + rest)
  }

  /** Read a serialised list. */
  function ParseList(s: string): Option<seq<string>>
  {
    if |s| < 2 || s[..2] != "[\n" then None else ParseItems(s[2..])
  }

  predicate NoQuote(item: string)
  {
    '"' !in item
  }

  /** The line of a quote-free item reads back as that item. */
  lemma ParseItemsStep(x: string, tail: string, rest: seq<string>)
    requires NoQuote(x) && ParseItems(tail) == Some(rest)
    ensures ParseItems(PyItem(x) + tail) == Some([x] + rest)
  {
    LineLayout("    \"", x, "\",\n", tail);
    QuoteAfter(x, "\",\n" + tail);
  }

  /** Where the pieces of a line followed by more text lie. */
  lemma LineLayout(p: string, x: string, c: string, tail: string)
    ensures var s := p + x + c + tail;
      s[..|p|] == p && s[|p|..] == x + (c + tail) &&
      s[|p|..|p| + |x|] == x && s[|p| + |x|..|p| + |x| + |c|] == c &&
      s[|p| + |x| + |c|..] == tail
  {
  }

  lemma {:induction false} ParseItemsLines(items: seq<string>)
    requires forall i :: 0 <= i < |items| ==> NoQuote(items[i])
    ensures ParseItems(Lines(items, PyItem) + "]") == Some(items)
  {
    if |items| > 0 {
      var x, rest := items[0], items[1..];
      assert items == [x] + rest;
      LinesCons(x, rest, PyItem);
      ParseItemsLines(rest);
      Reassociate(PyItem(x), Lines(rest, PyItem), "]");
      ParseItemsStep(x, Lines(rest, PyItem) + "]", rest);
    }
  }

  lemma QuoteAfter(x: string, t: string)
    requires NoQuote(x) && |t| > 0 && t[0] == '"'
    ensures QuoteIndex(x + t) == |x|
  {
    assert (x + t)[|x|] == '"';
  }

  lemma DropFront(a: string, b: string)
    ensures (a + b)[|a|..] == b
  {
  }

  /** A list of quote-free items reads back as the same list. */
  lemma ParseListRoundTrip(items: seq<string>)
    requires forall i :: 0 <= i < |items| ==> NoQuote(items[i])
    ensures ParseList(PyList(items)) == Some(items)
  {
    var ls := Lines(items, PyItem);
    ParseItemsLines(items);
    Reassociate("[\n", ls, "]");
    DropFront("[\n", ls + "]");
  }

  // ---------------------------------------------------------------------
  // _serialize_py_dict

  /** One line of a serialised dictionary: four spaces, the key in double
      quotes, a colon and a space, the value as a list, a newline. */
  function PyEntry(entry: (string, seq<string>)): string
  {
    "    \"" + entry.0 + "\": " + PyList(entry.1) + "\n"
  }

  /** The dictionary literal `_serialize_py_dict` writes for the entries
      in the order the map yields them. */
  function PyDict(entries: seq<(string, seq<string>)>): string
  {
    "{\n" + Lines(entries, PyEntry) + "}"
  }

  /** `_serialize_py_dict`, given the map's entries in its iteration order. */
  method SerializePyDict(entries: seq<(string, seq<string>)>) returns (result: string)
    ensures result == PyDict(entries)
  {
    result := "{\n";
    for k := 0 to |entries|
      invariant result == "{\n" + Lines(entries[..k], PyEntry)
    {
      assert entries[..k + 1][..k] == entries[..k];
      var list := SerializePyList(entries[k].1);
      var line := "    \"" + entries[k].0 + "\": " + list + "\n";
      assert line == PyEntry(entries[k]);
      result := result + line;
    }
    assert entries[..|entries|] == entries;
    result := result + "}";
  }

  /** The empty map is written as `{`, a newline and `}`. */
  lemma PyDictEmpty()
    ensures PyDict([]) == "{\n}"
  {
  }

  /** Entry `k` is written as its own line, right after the lines of the
      entries before it. */
  lemma PyDictEntryAt(entries: seq<(string, seq<string>)>, k: nat)
    requires k < |entries|
    ensures var off := 2 + |Lines(entries[..k], PyEntry)|;
      off + |PyEntry(entries[k])| <= |PyDict(entries)| &&
      PyDict(entries)[off..off + |PyEntry(entries[k])|] == PyEntry(entries[k])
  {
    BracketedLineAt("{\n", entries, "}", k, PyEntry);
  }

  /** The value of entry `k` appears as its list, verbatim, after the
      quoted key of the entry's line. */
  lemma PyDictValueAt(entries: seq<(string, seq<string>)>, k: nat)
    requires k < |entries|
    ensures var v := 2 + |Lines(entries[..k], PyEntry)| + 5 + |entries[k].0| + 3;
      v + |PyList(entries[k].1)| <= |PyDict(entries)| &&
      PyDict(entries)[v..v + |PyList(entries[k].1)|] == PyList(entries[k].1)
  {
    var d := PyDict(entries);
    var off := 2 + |Lines(entries[..k], PyEntry)|;
    var e := PyEntry(entries[k]);
    var j, list := 5 + |entries[k].0| + 3, PyList(entries[k].1);
    PyDictEntryAt(entries, k);
    ValueInEntry(entries[k].0, entries[k].1);
    Nested(d, off, e, j, list);
  }

  /** The value's list sits in an entry's line right after the quoted key,
      the colon and the space. */
  lemma ValueInEntry(key: string, val: seq<string>)
    ensures var j := 5 + |key| + 3;
      j + |PyList(val)| <= |PyEntry((key, val))| &&
      PyEntry((key, val))[j..j + |PyList(val)|] == PyList(val)
  {
    var list := PyList(val);
    SliceBetween("    \"" + key + "\": ", list, "\n", 0, |list|);
    assert list[0..|list|] == list;
  }
}
