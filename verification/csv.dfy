/** The data-set page's CSV reader and univariate tabulation (hw2.js
    `parseCSV`, `computeFrequency`). The reader is the page's own naive one:
    lines are split on `\n` (dropping the `\r` of a `\r\n`), fields on every
    comma, quotes are deleted rather than interpreted. */
module Csv {
  import opened JsText
  import opened FrequencyTable

  const Comma: CodeUnit := 0x2C
  const Quote: CodeUnit := 0x22
  const LineFeed: CodeUnit := 0x0A
  const CarriageReturn: CodeUnit := 0x0D

  /** `String.prototype.split` on a one-unit separator: the pieces between
      separators, always at least one. */
  function Split(t: Text, sep: CodeUnit): (parts: seq<Text>)
    ensures parts != []
    decreases |t|
  {
    if t == [] then [[]]
    else
      var init, c := t[..|t| - 1], t[|t| - 1];
      assert t == init + [c];
      var parts := Split(init, sep);
      if c == sep then parts + [[]]
      else parts[..|parts| - 1] + [parts[|parts| - 1] + [c]]
  }

  /** One more piece than there are separators, and no piece holds one. */
  lemma {:induction false} SplitShape(t: Text, sep: CodeUnit)
    ensures |Split(t, sep)| == multiset(t)[sep] + 1
    ensures forall i :: 0 <= i < |Split(t, sep)| ==> sep !in Split(t, sep)[i]
    decreases |t|
  {
    if t != [] {
      var init, c := t[..|t| - 1], t[|t| - 1];
      assert t == init + [c];
      SplitShape(init, sep);
      assert multiset(t) == multiset(init) + multiset{c};
      var parts := Split(init, sep);
      if c != sep {
        var r := parts[..|parts| - 1] + [parts[|parts| - 1] + [c]];
        forall i | 0 <= i < |r|
          ensures sep !in r[i]
        {
          if i < |r| - 1 {
            assert r[i] == parts[i];
          }
        }
      }
    }
  }

  /** The pieces glued back with the separator between them. */
  function Join(parts: seq<Text>, sep: CodeUnit): Text
    requires parts != []
    decreases |parts|
  {
    if |parts| == 1 then parts[0] else Join(parts[..|parts| - 1], sep) + [sep] + parts[|parts| - 1]
  }

  /** Splitting loses nothing: joining the pieces gives the text back. */
  lemma {:induction false} JoinSplit(t: Text, sep: CodeUnit)
    ensures Join(Split(t, sep), sep) == t
    decreases |t|
  {
    if t != [] {
      var init, c := t[..|t| - 1], t[|t| - 1];
      assert t == init + [c];
      JoinSplit(init, sep);
      var parts := Split(init, sep);
      if c != sep {
        var r := parts[..|parts| - 1] + [parts[|parts| - 1] + [c]];
        if |parts| > 1 {
          assert r[..|r| - 1] == parts[..|parts| - 1];
        }
      } else {
        assert (parts + [[]])[..|parts|] == parts;
      }
    }
  }

  /** Text without the separator extends the last piece. */
  lemma {:induction false} SplitExtendLast(a: Text, p: Text, sep: CodeUnit)
    requires sep !in p
    ensures var parts := Split(a, sep);
      Split(a + p, sep) == parts[..|parts| - 1] + [parts[|parts| - 1] + p]
    decreases |p|
  {
    if p == [] {
      SplitExtendNothing(a, sep);
    } else {
      var q, c := p[..|p| - 1], p[|p| - 1];
      assert p == q + [c];
      SplitExtendLast(a, q, sep);
      SplitExtendStep(a, q, c, sep);
    }
  }

  lemma SplitExtendNothing(a: Text, sep: CodeUnit)
    ensures var parts := Split(a, sep);
      Split(a + [], sep) == parts[..|parts| - 1] + [parts[|parts| - 1] + []]
  {
    var parts := Split(a, sep);
    assert a + [] == a;
    assert parts[|parts| - 1] + [] == parts[|parts| - 1];
    assert parts[..|parts| - 1] + [parts[|parts| - 1]] == parts;
  }

  /** The induction step of `SplitExtendLast`: one more unit `c`. */
  lemma SplitExtendStep(a: Text, q: Text, c: CodeUnit, sep: CodeUnit)
    requires c != sep
    requires var parts := Split(a, sep);
      Split(a + q, sep) == parts[..|parts| - 1] + [parts[|parts| - 1] + q]
    ensures var parts := Split(a, sep);
      Split(a + (q + [c]), sep) == parts[..|parts| - 1] + [parts[|parts| - 1] + (q + [c])]
  {
    assert a + (q + [c]) == (a + q) + [c];
    SplitAppendOther(a + q, c, sep);
    ExtendLastTwice(Split(a, sep), Split(a + q, sep), Split((a + q) + [c], sep), q, c);
  }

  /** Extending the last piece by `q` and then by `c` extends it by `q + [c]`. */
  lemma ExtendLastTwice(parts: seq<Text>, mid: seq<Text>, r: seq<Text>, q: Text, c: CodeUnit)
    requires parts != []
    requires mid == parts[..|parts| - 1] + [parts[|parts| - 1] + q]
    requires r == mid[..|mid| - 1] + [mid[|mid| - 1] + [c]]
    ensures r == parts[..|parts| - 1] + [parts[|parts| - 1] + (q + [c])]
  {
    assert mid[..|mid| - 1] == parts[..|parts| - 1];
    assert (parts[|parts| - 1] + q) + [c] == parts[|parts| - 1] + (q + [c]);
  }

  /** Any other unit extends the last piece. */
  lemma SplitAppendOther(t: Text, c: CodeUnit, sep: CodeUnit)
    requires c != sep
    ensures var parts := Split(t, sep);
      Split(t + [c], sep) == parts[..|parts| - 1] + [parts[|parts| - 1] + [c]]
  {
    var u := t + [c];
    assert u[..|u| - 1] == t;
  }

  /** A text ending in the separator splits into its prefix's pieces and
      one empty piece. */
  lemma SplitEndingInSeparator(a: Text, sep: CodeUnit)
    ensures Split(a + [sep], sep) == Split(a, sep) + [[]]
  {
    var t := a + [sep];
    assert t[..|t| - 1] == a;
  }

  /** ... and splitting the joined pieces gives the pieces back, when none of
      them holds the separator. */
  lemma {:induction false} SplitJoin(parts: seq<Text>, sep: CodeUnit)
    requires parts != []
    requires forall i :: 0 <= i < |parts| ==> sep !in parts[i]
    ensures Split(Join(parts, sep), sep) == parts
    decreases |parts|
  {
    var p := parts[|parts| - 1];
    if |parts| == 1 {
      SplitExtendLast([], p, sep);
      assert [] + p == p;
      assert Split([], sep) == [[]];
      assert [[]][..0] + [[] + p] == [p];
      assert parts == [p];
    } else {
      var init := parts[..|parts| - 1];
      assert parts == init + [p];
      SplitJoin(init, sep);
      var a := Join(init, sep) + [sep];
      SplitEndingInSeparator(Join(init, sep), sep);
      assert Split(a, sep) == init + [[]];
      SplitExtendLast(a, p, sep);
      assert (init + [[]])[..|init|] == init;
      assert [] + p == p;
      assert Join(parts, sep) == a + p;
    }
  }

  /** `p` without the `\r` that ends it, if one does. */
  function DropCarriageReturn(p: Text): (r: Text)
    ensures r == p || (p == r + [CarriageReturn])
  {
    if p != [] && p[|p| - 1] == CarriageReturn then p[..|p| - 1] else p
  }

  /** `split(/\r?\n/)`: split on `\n`, each piece followed by one losing its
      trailing `\r`. */
  function Lines(t: Text): (lines: seq<Text>)
    ensures |lines| == multiset(t)[LineFeed] + 1
    ensures forall i :: 0 <= i < |lines| ==> LineFeed !in lines[i]
  {
    SplitShape(t, LineFeed);
    var pieces := Split(t, LineFeed);
    seq(|pieces|, i requires 0 <= i < |pieces| =>
      if i < |pieces| - 1 then DropCarriageReturn(pieces[i]) else pieces[i])
  }

  /** `replace(/"/g, '')`. */
  function RemoveQuotes(t: Text): (r: Text)
    ensures Quote !in r
    ensures forall c :: c != Quote ==> multiset(r)[c] == multiset(t)[c]
    ensures Quote !in t ==> r == t
    decreases |t|
  {
    if t == [] then []
    else
      var init, c := t[..|t| - 1], t[|t| - 1];
      assert t == init + [c];
      if c == Quote then RemoveQuotes(init) else RemoveQuotes(init) + [c]
  }

  /** One header or cell: `v.trim().replace(/"/g, '')`. */
  function Field(raw: Text): (f: Text)
    ensures Quote !in f
  {
    RemoveQuotes(Trim(raw))
  }

  /** The fields of one line, one per comma-separated piece. */
  function Fields(line: Text): (fs: seq<Text>)
    ensures |fs| == multiset(line)[Comma] + 1
    ensures forall i :: 0 <= i < |fs| ==> Quote !in fs[i]
  {
    SplitShape(line, Comma);
    var parts := Split(line, Comma);
    seq(|parts|, i requires 0 <= i < |parts| => Field(parts[i]))
  }

  /** `values[index] || ''`: the field at `index`, or empty past the end. */
  function Cell(values: seq<Text>, index: nat): Text {
    if index < |values| then values[index] else []
  }

  /** Where `h` occurs for the last time. */
  function LastIndex(headers: seq<Text>, h: Text): (i: nat)
    requires h in headers
    ensures i < |headers| && headers[i] == h
    ensures forall k :: i < k < |headers| ==> headers[k] != h
    decreases |headers|
  {
    if headers[|headers| - 1] == h then |headers| - 1
    else
      var init := headers[..|headers| - 1];
      assert h in init by {
        var k :| 0 <= k < |headers| && headers[k] == h;
        assert init[k] == h;
      }
      LastIndex(init, h)
  }

  /** The row object: `obj[header] = values[index] || ''` for every header
      in order, so every header maps to the cell of its last column. */
  function Row(headers: seq<Text>, values: seq<Text>): (row: map<Text, Text>)
    ensures forall h :: h in row <==> h in headers
    ensures forall h :: h in headers ==> row[h] == Cell(values, LastIndex(headers, h))
    decreases |headers|
  {
    if headers == [] then map[]
    else
      var init, h := headers[..|headers| - 1], headers[|headers| - 1];
      assert headers == init + [h];
      Row(init, values)[h := Cell(values, |headers| - 1)]
  }

  /** With headers all different, cell i goes to header i. */
  lemma RowOfDistinctHeaders(headers: seq<Text>, values: seq<Text>)
    requires Distinct(headers)
    ensures forall i :: 0 <= i < |headers| ==> Row(headers, values)[headers[i]] == Cell(values, i)
  {
    forall i | 0 <= i < |headers|
      ensures LastIndex(headers, headers[i]) == i
    {
      var k := LastIndex(headers, headers[i]);
      assert !(k < i) && !(i < k);
    }
  }

  /** Every cell of a row is missing or free of quotes when its fields are. */
  predicate QuoteFree(row: map<Text, Text>) {
    forall h :: h in row ==> Quote !in row[h]
  }

  lemma RowQuoteFree(headers: seq<Text>, values: seq<Text>)
    requires forall i :: 0 <= i < |values| ==> Quote !in values[i]
    ensures QuoteFree(Row(headers, values))
  {
  }

  /** What `parseCSV` returns. */
  datatype Dataset = Dataset(headers: seq<Text>, rows: seq<map<Text, Text>>)

  /** One row per line, each built from the line's fields. */
  function RowsOf(headers: seq<Text>, lines: seq<Text>): (rows: seq<map<Text, Text>>)
    ensures |rows| == |lines|
    ensures forall r :: 0 <= r < |lines| ==> rows[r] == Row(headers, Fields(lines[r]))
  {
    seq(|lines|, r requires 0 <= r < |lines| => Row(headers, Fields(lines[r])))
  }

  /** `parseCSV`: the first line of the trimmed text gives the headers, every
      further line a row. `split` never returns an empty list, so the page's
      guard for one is never taken. */
  function ParseCsv(text: Text): (d: Dataset)
    ensures |d.rows| + 1 == |Lines(Trim(text))|
    ensures d.headers == Fields(Lines(Trim(text))[0])
    ensures forall r :: 0 <= r < |d.rows| ==> d.rows[r] == Row(d.headers, Fields(Lines(Trim(text))[r + 1]))
  {
    var lines := Lines(Trim(text));
    var headers := Fields(lines[0]);
    var rows := RowsOf(headers, lines[1..]);
    assert forall r :: 0 <= r < |rows| ==> lines[1..][r] == lines[r + 1];
    Dataset(headers, rows)
  }

  /** Every row has exactly the headers as keys, and no header and no cell
      holds a double quote. */
  lemma ParseCsvShape(text: Text)
    ensures |ParseCsv(text).headers| == multiset(Lines(Trim(text))[0])[Comma] + 1
    ensures |ParseCsv(text).rows| == multiset(Trim(text))[LineFeed]
    ensures forall i :: 0 <= i < |ParseCsv(text).headers| ==> Quote !in ParseCsv(text).headers[i]
    ensures forall r :: 0 <= r < |ParseCsv(text).rows| ==>
      forall h :: h in ParseCsv(text).rows[r] <==> h in ParseCsv(text).headers
    ensures forall r :: 0 <= r < |ParseCsv(text).rows| ==> QuoteFree(ParseCsv(text).rows[r])
  {
    var d := ParseCsv(text);
    forall r | 0 <= r < |d.rows|
      ensures QuoteFree(d.rows[r])
    {
      RowQuoteFree(d.headers, Fields(Lines(Trim(text))[r + 1]));
    }
  }

  /** Text of nothing but white space yields one empty header and no rows. */
  lemma ParseBlank(text: Text)
    requires forall i :: 0 <= i < |text| ==> IsJsWhitespace(text[i])
    ensures ParseCsv(text) == Dataset([[]], [])
  {
    assert Trim(text) == [];
    assert Lines([]) == [[]];
    assert Trim([]) == [];
    assert Fields([]) == [[]];
  }

  /** The label missing and empty values are counted under. */
  const EmptyLabel: Text := [0x28, 0x65, 0x6D, 0x70, 0x74, 0x79, 0x29]

  lemma EmptyLabelSpellsEmpty()
    ensures EmptyLabel == Units("(empty)")
  {
  }

  /** `row[variable] || '(empty)'`. */
  function ValueOf(row: map<Text, Text>, variable: Text): (v: Text)
    ensures v != []
    ensures variable in row && row[variable] != [] ==> v == row[variable]
    ensures variable !in row || row[variable] == [] ==> v == EmptyLabel
  {
    if variable in row && row[variable] != [] then row[variable] else EmptyLabel
  }

  /** The counted value of every row. */
  function ColumnValues(rows: seq<map<Text, Text>>, variable: Text): (vals: seq<Text>)
    ensures |vals| == |rows| && forall i :: 0 <= i < |rows| ==> vals[i] == ValueOf(rows[i], variable)
  {
    seq(|rows|, i requires 0 <= i < |rows| => ValueOf(rows[i], variable))
  }

  /** The distinct values in order of first appearance: the key order of the
      `frequency` object. */
  function FirstAppearances(xs: seq<Text>): (d: seq<Text>)
    ensures Distinct(d) && |d| <= |xs|
    ensures forall v :: v in d <==> v in xs
    decreases |xs|
  {
    if xs == [] then []
    else
      var init, x := xs[..|xs| - 1], xs[|xs| - 1];
      assert xs == init + [x];
      var d := FirstAppearances(init);
      if x in d then d else d + [x]
  }

  /** One `[value, count]` entry of the table. */
  datatype Count = Count(value: Text, count: nat)

  function Values(es: seq<Count>): (vs: seq<Text>)
    ensures |vs| == |es| && forall i :: 0 <= i < |es| ==> vs[i] == es[i].value
  {
    seq(|es|, i requires 0 <= i < |es| => es[i].value)
  }

  predicate NonIncreasing(es: seq<Count>) {
    forall i, j :: 0 <= i < j < |es| ==> es[i].count >= es[j].count
  }

  /** Where a stable descending sort puts `x` after the sorted `s`: behind
      every entry with a count at least as large. */
  function InsertPosition(x: Count, s: seq<Count>): (k: nat)
    ensures k <= |s|
    ensures k > 0 ==> s[k - 1].count >= x.count
    ensures forall i :: k <= i < |s| ==> s[i].count < x.count
    decreases |s|
  {
    if s == [] then 0
    else if s[|s| - 1].count >= x.count then |s|
    else InsertPosition(x, s[..|s| - 1])
  }

  /** Putting `x` at its position keeps the order non-increasing. */
  lemma InsertKeepsOrder(x: Count, s: seq<Count>)
    requires NonIncreasing(s)
    ensures var k := InsertPosition(x, s); NonIncreasing(s[..k] + [x] + s[k..])
  {
    var k := InsertPosition(x, s);
    var r := s[..k] + [x] + s[k..];
    forall i, j | 0 <= i < j < |r|
      ensures r[i].count >= r[j].count
    {
      if j < k {
        assert r[i] == s[i] && r[j] == s[j];
      } else if j == k {
        assert r[i] == s[i];
      } else if i == k {
        assert r[j] == s[j - 1];
      } else if i < k {
        assert r[i] == s[i] && r[j] == s[j - 1];
      } else {
        assert r[i] == s[i - 1] && r[j] == s[j - 1];
      }
    }
  }

  /** `sort((a, b) => b[1] - a[1])`, which is stable, as an insertion sort
      that inserts each entry behind its equals. */
  function SortByCount(es: seq<Count>): (r: seq<Count>)
    ensures |r| == |es| && NonIncreasing(r)
    ensures multiset(r) == multiset(es)
    decreases |es|
  {
    if es == [] then []
    else
      var init, x := es[..|es| - 1], es[|es| - 1];
      assert es == init + [x];
      var s := SortByCount(init);
      var k := InsertPosition(x, s);
      InsertPermutes(x, s, k);
      InsertKeepsOrder(x, s);
      s[..k] + [x] + s[k..]
  }

  /** Inserting `x` anywhere adds exactly `x`. */
  lemma InsertPermutes(x: Count, s: seq<Count>, k: nat)
    requires k <= |s|
    ensures |s[..k] + [x] + s[k..]| == |s| + 1
    ensures multiset(s[..k] + [x] + s[k..]) == multiset(s) + multiset{x}
  {
    assert s == s[..k] + s[k..];
  }

  /** Inserting an entry whose value is new keeps the values distinct. */
  lemma InsertDistinct(x: Count, s: seq<Count>, k: nat)
    requires k <= |s| && Distinct(Values(s))
    requires forall i :: 0 <= i < |s| ==> s[i].value != x.value
    ensures Distinct(Values(s[..k] + [x] + s[k..]))
  {
    var r := s[..k] + [x] + s[k..];
    forall i, j | 0 <= i < j < |r|
      ensures r[i].value != r[j].value
    {
      if j < k {
        assert r[i] == s[i] && r[j] == s[j];
      } else if j == k {
        assert r[i] == s[i];
      } else if i == k {
        assert r[j] == s[j - 1];
      } else if i < k {
        assert r[i] == s[i] && r[j] == s[j - 1];
      } else {
        assert r[i] == s[i - 1] && r[j] == s[j - 1];
      }
    }
  }

  /** Sorting entries with distinct values keeps them distinct. */
  lemma {:induction false} SortByCountDistinct(es: seq<Count>)
    requires Distinct(Values(es))
    ensures Distinct(Values(SortByCount(es)))
    decreases |es|
  {
    if es != [] {
      var init, x := es[..|es| - 1], es[|es| - 1];
      assert es == init + [x];
      assert Values(init) == Values(es)[..|es| - 1];
      SortByCountDistinct(init);
      var s := SortByCount(init);
      forall i | 0 <= i < |s|
        ensures s[i].value != x.value
      {
        assert s[i] in multiset(init);
        var j :| 0 <= j < |init| && init[j] == s[i];
        assert Values(es)[j] != Values(es)[|es| - 1];
      }
      InsertDistinct(x, s, InsertPosition(x, s));
    }
  }

  /** The entries of `computeFrequency` before the percentages: every
      distinct value with its count, most frequent first. */
  function CountTable(vals: seq<Text>): (table: seq<Count>)
    ensures NonIncreasing(table) && Distinct(Values(table))
    ensures forall v :: v in Values(table) <==> v in vals
    ensures forall i :: 0 <= i < |table| ==> table[i].count == multiset(vals)[table[i].value]
  {
    var d := FirstAppearances(vals);
    var es := seq(|d|, i requires 0 <= i < |d| => Count(d[i], multiset(vals)[d[i]]));
    CountTableFacts(vals, d, es);
    SortByCount(es)
  }

  /** Sorting the first appearances, each with its multiplicity, gives the
      facts `CountTable` promises. */
  lemma CountTableFacts(vals: seq<Text>, d: seq<Text>, es: seq<Count>)
    requires d == FirstAppearances(vals)
    requires |es| == |d| && forall i :: 0 <= i < |d| ==> es[i] == Count(d[i], multiset(vals)[d[i]])
    ensures var table := SortByCount(es);
      && NonIncreasing(table) && Distinct(Values(table))
      && (forall v :: v in Values(table) <==> v in vals)
      && (forall i :: 0 <= i < |table| ==> table[i].count == multiset(vals)[table[i].value])
  {
    assert Values(es) == d;
    SortByCountDistinct(es);
    var table := SortByCount(es);
    SortedEntriesCounted(vals, d, es, table);
    SortedEntriesCover(vals, d, es, table);
  }

  /** Every entry of a reordering of `es` carries a value of `vals` and its
      multiplicity. */
  lemma SortedEntriesCounted(vals: seq<Text>, d: seq<Text>, es: seq<Count>, table: seq<Count>)
    requires forall v :: v in d ==> v in vals
    requires |es| == |d| && forall i :: 0 <= i < |d| ==> es[i] == Count(d[i], multiset(vals)[d[i]])
    requires multiset(table) == multiset(es)
    ensures forall i :: 0 <= i < |table| ==> table[i].count == multiset(vals)[table[i].value]
    ensures forall v :: v in Values(table) ==> v in vals
  {
    forall i | 0 <= i < |table|
      ensures table[i].count == multiset(vals)[table[i].value] && table[i].value in vals
    {
      assert table[i] in multiset(es);
      var j :| 0 <= j < |es| && es[j] == table[i];
    }
  }

  /** Every value of `vals` has its entry in a reordering of `es`. */
  lemma SortedEntriesCover(vals: seq<Text>, d: seq<Text>, es: seq<Count>, table: seq<Count>)
    requires forall v :: v in vals ==> v in d
    requires |es| == |d| && forall i :: 0 <= i < |d| ==> es[i].value == d[i]
    requires multiset(table) == multiset(es)
    ensures forall v :: v in vals ==> v in Values(table)
  {
    forall v | v in vals
      ensures v in Values(table)
    {
      var i :| 0 <= i < |d| && d[i] == v;
      assert es[i] in multiset(table);
      var j :| 0 <= j < |table| && table[j] == es[i];
      assert Values(table)[j] == v;
    }
  }

  /** The counts add up to the number of values. */
  lemma CountTableTotal(vals: seq<Text>)
    ensures SumMultiplicities(Values(CountTable(vals)), multiset(vals)) == |vals|
  {
    SumMultiplicitiesCovering(Values(CountTable(vals)), vals);
  }

  /** One line of the univariate table: the value, how many rows hold it and
      its share of the rows in percent (before `toFixed(1)`). */
  datatype FrequencyRow = FrequencyRow(value: Text, count: nat, percentage: real)

  function Percentage(count: nat, total: nat): real
    requires total > 0
  {
    (count as real / total as real) * 100.0
  }

  function Labels(rs: seq<FrequencyRow>): (vs: seq<Text>)
    ensures |vs| == |rs| && forall i :: 0 <= i < |rs| ==> vs[i] == rs[i].value
  {
    seq(|rs|, i requires 0 <= i < |rs| => rs[i].value)
  }

  function TotalCount(rs: seq<FrequencyRow>): nat
    decreases |rs|
  {
    if rs == [] then 0 else TotalCount(rs[..|rs| - 1]) + rs[|rs| - 1].count
  }

  /** The total of the counts is the total of the multiplicities they
      stand for. */
  lemma {:induction false} TotalCountMultiplicities(rs: seq<FrequencyRow>, ms: multiset<Text>)
    requires forall i :: 0 <= i < |rs| ==> rs[i].count == ms[rs[i].value]
    ensures TotalCount(rs) == SumMultiplicities(Labels(rs), ms)
    decreases |rs|
  {
    if rs != [] {
      var init := rs[..|rs| - 1];
      assert Labels(init) == Labels(rs)[..|rs| - 1];
      TotalCountMultiplicities(init, ms);
    }
  }

  /** `computeFrequency(variable)`: every value of the column (missing or
      empty cells as `'(empty)'`) once, with how many rows hold it and its
      percentage, most frequent first. */
  function ComputeFrequency(rows: seq<map<Text, Text>>, variable: Text): (table: seq<FrequencyRow>)
    ensures forall i, j :: 0 <= i < j < |table| ==> table[i].count >= table[j].count
    ensures Distinct(Labels(table))
    ensures forall v :: v in Labels(table) <==> v in ColumnValues(rows, variable)
    ensures forall i :: 0 <= i < |table| ==> table[i].count == multiset(ColumnValues(rows, variable))[table[i].value]
    ensures table != [] ==> |rows| > 0
    ensures forall i :: 0 <= i < |table| ==> |rows| > 0 && table[i].percentage == Percentage(table[i].count, |rows|)
  {
    var vals := ColumnValues(rows, variable);
    var counts := CountTable(vals);
    assert counts != [] ==> |vals| > 0 by {
      if counts != [] {
        assert Values(counts)[0] in vals;
      }
    }
    WithPercentages(counts, |vals|)
  }

  /** The counted entries with their share of `total` attached. */
  function WithPercentages(counts: seq<Count>, total: nat): (table: seq<FrequencyRow>)
    requires counts != [] ==> total > 0
    ensures |table| == |counts| && Labels(table) == Values(counts)
    ensures forall i :: 0 <= i < |table| ==> table[i].count == counts[i].count
    ensures forall i :: 0 <= i < |table| ==> total > 0 && table[i].percentage == Percentage(table[i].count, total)
  {
    var table := seq(|counts|, i requires 0 <= i < |counts| =>
      FrequencyRow(counts[i].value, counts[i].count, Percentage(counts[i].count, total)));
    assert Labels(table) == Values(counts);
    table
  }

  /** The counts of the table add up to the number of rows. */
  lemma ComputeFrequencyTotal(rows: seq<map<Text, Text>>, variable: Text)
    ensures TotalCount(ComputeFrequency(rows, variable)) == |rows|
  {
    var table := ComputeFrequency(rows, variable);
    var vals := ColumnValues(rows, variable);
    TotalCountMultiplicities(table, multiset(vals));
    SumMultiplicitiesCovering(Labels(table), vals);
  }
}
