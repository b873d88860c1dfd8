/** The dataset summariser: the statistics the auditor sends along with the
    paper. For a table it reports the row count, the column names, the number
    of duplicate rows (exact up to 10,000 rows, an estimate above) and the
    five most frequent values of the last column with their counts. The CSV
    parser is replaced by the table it produces. */
module DataSummary {

  /** One data row: its cells as parsed, in column order. */
  type Row = seq<string>

  datatype Table = Table(columns: seq<string>, rows: seq<Row>)

  /** A parsed CSV has at least one column and every row has one cell per column. */
  predicate WellFormed(t: Table)
  {
    |t.columns| > 0 && forall i :: 0 <= i < |t.rows| ==> |t.rows[i]| == |t.columns|
  }

  /** Above this many rows duplicates are only estimated. */
  const ExactLimit := 10000
  /** How many values of the last column are reported. */
  const TopK := 5

  /** The duplicate figure: an exact count, or the labelled estimate. */
  datatype Duplicates = Exact(count: nat) | Estimated

  datatype ValueCount = ValueCount(value: string, count: nat)

  datatype Summary = Summary(totalRows: nat, columns: seq<string>, duplicates: Duplicates,
                             classBalance: seq<ValueCount>)

  // ---------------------------------------------------------------------------
  // Duplicate rows

  /** The distinct rows of the table. */
  function DistinctRows(rows: seq<Row>): set<Row>
  {
    set r | r in rows
  }

  /** `df.duplicated().sum()` with `keep='first'`: the rows equal to some
      earlier row. Every row is either the first of its kind or counted. */
  function DuplicateCount(rows: seq<Row>): (n: nat)
    ensures n + |DistinctRows(rows)| == |rows|
    ensures n <= if rows == [] then 0 else |rows| - 1
  {
    if rows == [] then 0
    else
      var front, last := rows[..|rows| - 1], rows[|rows| - 1];
      assert rows == front + [last];
      if last in front then
        assert DistinctRows(rows) == DistinctRows(front);
        DuplicateCount(front) + 1
      else
        assert DistinctRows(rows) == DistinctRows(front) + {last};
        assert last !in DistinctRows(front);
        DuplicateCount(front)
  }

  /** Row `i` repeats a row that comes before it. */
  predicate IsRepeat(rows: seq<Row>, i: int)
  {
    0 <= i < |rows| && rows[i] in rows[..i]
  }

  function RepeatIndices(rows: seq<Row>): set<nat>
  {
    set i: nat | i < |rows| && IsRepeat(rows, i)
  }

  /** Adding a row adds its index exactly when it repeats an earlier row. */
  lemma RepeatIndicesSnoc(rows: seq<Row>)
    requires rows != []
    ensures RepeatIndices(rows) == RepeatIndices(rows[..|rows| - 1])
              + (if rows[|rows| - 1] in rows[..|rows| - 1] then {|rows| - 1} else {})
  {
    var n := |rows| - 1;
    var front := rows[..n];
    forall i: nat | i < n
      ensures IsRepeat(rows, i) <==> IsRepeat(front, i)
    {
      assert rows[..i] == front[..i];
    }
  }

  /** The count is exactly the number of indices `i` whose row equals the row
      at some `j < i`. */
  lemma {:induction false} DuplicateCountIsRepeats(rows: seq<Row>)
    ensures DuplicateCount(rows) == |RepeatIndices(rows)|
  {
    if rows != [] {
      var n := |rows| - 1;
      DuplicateCountIsRepeats(rows[..n]);
      RepeatIndicesSnoc(rows);
      assert n !in RepeatIndices(rows[..n]);
    }
  }

  // ---------------------------------------------------------------------------
  // Value counts of the last column

  /** The last column, one cell per row. */
  function LastColumn(t: Table): (col: seq<string>)
    requires WellFormed(t)
    ensures |col| == |t.rows|
    ensures forall i :: 0 <= i < |t.rows| ==> col[i] == t.rows[i][|t.columns| - 1]
  {
    seq(|t.rows|, i requires 0 <= i < |t.rows| => t.rows[i][|t.columns| - 1])
  }

  /** How often `v` occurs in `col`. */
  function Count(col: seq<string>, v: string): nat
  {
    multiset(col)[v]
  }

  /** The distinct values of `col`, in order of first appearance. */
  function Distinct(col: seq<string>): (d: seq<string>)
    ensures forall v :: v in d <==> v in col
    ensures forall i, j :: 0 <= i < j < |d| ==> d[i] != d[j]
  {
    if col == [] then []
    else
      var d := Distinct(col[..|col| - 1]);
      var x := col[|col| - 1];
      assert col == col[..|col| - 1] + [x];
      if x in d then d else d + [x]
  }

  /** Each value paired with its count in `col`. */
  function Tally(vs: seq<string>, col: seq<string>): (r: seq<ValueCount>)
    ensures |r| == |vs|
    ensures forall i :: 0 <= i < |r| ==> r[i] == ValueCount(vs[i], Count(col, vs[i]))
  {
    if vs == [] then [] else [ValueCount(vs[0], Count(col, vs[0]))] + Tally(vs[1..], col)
  }

  predicate SortedByCount(s: seq<ValueCount>)
  {
    forall i, j :: 0 <= i < j < |s| ==> s[i].count >= s[j].count
  }

  /** Inserts `x` in front of the first entry whose count is at most its own. */
  function InsertByCount(x: ValueCount, s: seq<ValueCount>): (r: seq<ValueCount>)
    requires SortedByCount(s)
    ensures SortedByCount(r)
    ensures multiset(r) == multiset(s) + multiset{x}
    ensures |r| == |s| + 1 && (r[0] == x || (s != [] && r[0] == s[0]))
  {
    if s == [] || x.count >= s[0].count then [x] + s
    else
      var rest := InsertByCount(x, s[1..]);
      InsertBehindHead(x, s, rest);
      [s[0]] + rest
  }

  /** The step of `InsertByCount` that keeps the head of `s` in front. */
  lemma InsertBehindHead(x: ValueCount, s: seq<ValueCount>, rest: seq<ValueCount>)
    requires SortedByCount(s) && s != [] && x.count < s[0].count
    requires SortedByCount(rest) && multiset(rest) == multiset(s[1..]) + multiset{x}
    requires |rest| == |s| && (rest[0] == x || (|s| > 1 && rest[0] == s[1]))
    ensures SortedByCount([s[0]] + rest)
    ensures multiset([s[0]] + rest) == multiset(s) + multiset{x}
  {
    var r := [s[0]] + rest;
    assert s == [s[0]] + s[1..];
    assert rest[0].count <= s[0].count;
    forall i, j | 0 <= i < j < |r|
      ensures r[i].count >= r[j].count
    {
      assert r[j] == rest[j - 1];
      if i > 0 {
        assert r[i] == rest[i - 1];
      }
    }
  }

  /** Sorts by non-increasing count; among equal counts the earlier entry
      stays first. */
  function SortByCount(s: seq<ValueCount>): (r: seq<ValueCount>)
    ensures SortedByCount(r)
    ensures multiset(r) == multiset(s)
  {
    if s == [] then []
    else
      assert s == [s[0]] + s[1..];
      InsertByCount(s[0], SortByCount(s[1..]))
  }

  /** The values listed in a tally. */
  function Keys(r: seq<ValueCount>): set<string>
  {
    set i | 0 <= i < |r| :: r[i].value
  }

  /** `value_counts()`: every distinct value of the column exactly once, with
      its number of occurrences, in non-increasing order of count. */
  function ValueCounts(col: seq<string>): (r: seq<ValueCount>)
    ensures SortedByCount(r)
    ensures |r| == |Distinct(col)|
    ensures forall i :: 0 <= i < |r| ==> r[i].value in col && r[i].count == Count(col, r[i].value) >= 1
    ensures forall i, j :: 0 <= i < j < |r| ==> r[i].value != r[j].value
    ensures Keys(r) == set v | v in col
  {
    var r := SortByCount(Tally(Distinct(col), col));
    PermutedTallyEntries(col, r);
    PermutedTallyDistinct(col, r);
    PermutedTallyKeys(col, r);
    r
  }

  /** An entry of a tally is one of the values with its count. */
  lemma TallyMember(vs: seq<string>, col: seq<string>, y: ValueCount)
    requires y in Tally(vs, col)
    ensures y.value in vs && y.count == Count(col, y.value)
  {
    var t := Tally(vs, col);
    var k :| 0 <= k < |t| && t[k] == y;
    assert vs[k] == y.value;
  }

  /** A reordering of the tally lists each value of the column with its count. */
  lemma PermutedTallyEntries(col: seq<string>, r: seq<ValueCount>)
    requires multiset(r) == multiset(Tally(Distinct(col), col))
    ensures |r| == |Distinct(col)|
    ensures forall i :: 0 <= i < |r| ==> r[i].value in col && r[i].count == Count(col, r[i].value) >= 1
  {
    var vs := Distinct(col);
    var t := Tally(vs, col);
    SameEntries(r, t);
    forall i | 0 <= i < |r|
      ensures r[i].value in col && r[i].count == Count(col, r[i].value) >= 1
    {
      TallyMember(vs, col, r[i]);
      assert r[i].value in multiset(col);
    }
  }

  /** A reordering of the tally lists no value twice. */
  lemma PermutedTallyDistinct(col: seq<string>, r: seq<ValueCount>)
    requires multiset(r) == multiset(Tally(Distinct(col), col))
    ensures forall i, j :: 0 <= i < j < |r| ==> r[i].value != r[j].value
  {
    var t := Tally(Distinct(col), col);
    forall y
      ensures multiset(t)[y] <= 1
    {
      TallyOnce(Distinct(col), col, y);
    }
    NoRepeatedEntries(r, t);
    PermutedTallyEntries(col, r);
  }

  /** A reordering of the tally lists every value of the column. */
  lemma PermutedTallyKeys(col: seq<string>, r: seq<ValueCount>)
    requires multiset(r) == multiset(Tally(Distinct(col), col))
    ensures Keys(r) == set v | v in col
  {
    var vs := Distinct(col);
    var t := Tally(vs, col);
    SameEntries(r, t);
    PermutedTallyEntries(col, r);
    forall v | v in col
      ensures v in Keys(r)
    {
      var k :| 0 <= k < |vs| && vs[k] == v;
      assert t[k] in r;
      var i :| 0 <= i < |r| && r[i] == t[k];
    }
  }

  /** Two sequences with the same multiset hold the same entries. */
  lemma SameEntries(r: seq<ValueCount>, t: seq<ValueCount>)
    requires multiset(r) == multiset(t)
    ensures |r| == |t|
    ensures forall i :: 0 <= i < |r| ==> r[i] in t
    ensures forall k :: 0 <= k < |t| ==> t[k] in r
  {
    assert |multiset(r)| == |multiset(t)|;
    forall i | 0 <= i < |r|
      ensures r[i] in t
    {
      assert r[i] in multiset(t);
    }
    forall k | 0 <= k < |t|
      ensures t[k] in r
    {
      assert t[k] in multiset(r);
    }
  }

  /** An entry at two positions occurs twice in the multiset. */
  lemma TwiceCounted(r: seq<ValueCount>, i: nat, j: nat)
    requires i < j < |r| && r[i] == r[j]
    ensures multiset(r)[r[i]] >= 2
  {
    assert r == r[..j] + [r[j]] + r[j + 1..];
    assert r[i] in r[..j];
  }

  /** A permutation of a sequence without repeated entries has none either. */
  lemma NoRepeatedEntries(r: seq<ValueCount>, t: seq<ValueCount>)
    requires multiset(r) == multiset(t)
    requires forall y :: multiset(t)[y] <= 1
    ensures forall i, j :: 0 <= i < j < |r| ==> r[i] != r[j]
  {
    forall i, j | 0 <= i < j < |r|
      ensures r[i] != r[j]
    {
      assert multiset(r)[r[i]] <= 1;
      if r[i] == r[j] {
        TwiceCounted(r, i, j);
      }
    }
  }

  /** Each entry of a tally over distinct values occurs at most once. */
  lemma {:induction false} TallyOnce(vs: seq<string>, col: seq<string>, x: ValueCount)
    requires forall i, j :: 0 <= i < j < |vs| ==> vs[i] != vs[j]
    ensures multiset(Tally(vs, col))[x] <= 1
  {
    if vs != [] {
      var t := Tally(vs, col);
      assert t == [t[0]] + Tally(vs[1..], col);
      TallyOnce(vs[1..], col, x);
      assert x == t[0] ==> x !in Tally(vs[1..], col);
    }
  }

  /** `value_counts().head(5)`: the five most frequent values, with their
      counts; a value left out is no more frequent than any value listed. */
  function ClassBalance(col: seq<string>): (r: seq<ValueCount>)
    ensures |r| <= TopK
    ensures SortedByCount(r)
    ensures forall i :: 0 <= i < |r| ==> r[i].value in col && r[i].count == Count(col, r[i].value) >= 1
    ensures forall i, j :: 0 <= i < j < |r| ==> r[i].value != r[j].value
    ensures |r| == if |Distinct(col)| < TopK then |Distinct(col)| else TopK
    ensures forall v :: v in col && v !in Keys(r) ==>
              |r| == TopK && forall i :: 0 <= i < |r| ==> r[i].count >= Count(col, v)
  {
    var all := ValueCounts(col);
    var r := if |all| < TopK then all else all[..TopK];
    assert r == all[..|r|];
    forall v | v in col && v !in Keys(r)
      ensures |r| == TopK && forall i :: 0 <= i < |r| ==> r[i].count >= Count(col, v)
    {
      OmittedNoMoreFrequent(col, all, |r|, v);
    }
    r
  }

  /** A value of a count-sorted tally that is not in its first `k` entries
      comes after them, so each of them is at least as frequent. */
  lemma OmittedNoMoreFrequent(col: seq<string>, all: seq<ValueCount>, k: nat, v: string)
    requires SortedByCount(all) && k <= |all|
    requires forall i :: 0 <= i < |all| ==> all[i].count == Count(col, all[i].value)
    requires v in Keys(all) && v !in Keys(all[..k])
    ensures k < |all| && forall i :: 0 <= i < k ==> all[i].count >= Count(col, v)
  {
    var j :| 0 <= j < |all| && all[j].value == v;
    assert j >= k by {
      assert forall i :: 0 <= i < k ==> all[..k][i] == all[i];
    }
  }

  // ---------------------------------------------------------------------------
  // Every row is counted once

  function SumCounts(r: seq<ValueCount>): nat
  {
    if r == [] then 0 else r[0].count + SumCounts(r[1..])
  }

  lemma {:induction false} SumCountsAppend(a: seq<ValueCount>, b: seq<ValueCount>)
    ensures SumCounts(a + b) == SumCounts(a) + SumCounts(b)
  {
    if a != [] {
      assert (a + b)[1..] == a[1..] + b;
      SumCountsAppend(a[1..], b);
    } else {
      assert a + b == b;
    }
  }

  lemma {:induction false} SumCountsInsert(x: ValueCount, s: seq<ValueCount>)
    requires SortedByCount(s)
    ensures SumCounts(InsertByCount(x, s)) == x.count + SumCounts(s)
  {
    if s != [] && x.count < s[0].count {
      SumCountsInsert(x, s[1..]);
      assert ([s[0]] + InsertByCount(x, s[1..]))[1..] == InsertByCount(x, s[1..]);
    } else {
      assert ([x] + s)[1..] == s;
    }
  }

  lemma {:induction false} SumCountsSort(s: seq<ValueCount>)
    ensures SumCounts(SortByCount(s)) == SumCounts(s)
  {
    if s != [] {
      SumCountsSort(s[1..]);
      SumCountsInsert(s[0], SortByCount(s[1..]));
    }
  }

  lemma {:induction false} SumCountsPrefix(r: seq<ValueCount>, k: nat)
    requires k <= |r|
    ensures SumCounts(r[..k]) <= SumCounts(r)
  {
    if k > 0 {
      SumCountsPrefix(r[1..], k - 1);
      assert r[..k][1..] == r[1..][..k - 1];
    }
  }

  /** One more row adds one to the total of a tally over distinct values
      exactly when its value is among them. */
  lemma {:induction false} TallyGrows(vs: seq<string>, col: seq<string>, x: string)
    requires forall i, j :: 0 <= i < j < |vs| ==> vs[i] != vs[j]
    ensures SumCounts(Tally(vs, col + [x])) == SumCounts(Tally(vs, col)) + (if x in vs then 1 else 0)
  {
    if vs != [] {
      TallyGrows(vs[1..], col, x);
      assert multiset(col + [x]) == multiset(col) + multiset{x};
      assert Tally(vs, col + [x])[1..] == Tally(vs[1..], col + [x]);
      assert Tally(vs, col)[1..] == Tally(vs[1..], col);
      assert x in vs <==> x == vs[0] || x in vs[1..] by {
        assert vs == [vs[0]] + vs[1..];
      }
    }
  }

  /** The tally of the distinct values accounts for every row. */
  lemma {:induction false} TallyTotal(col: seq<string>)
    ensures SumCounts(Tally(Distinct(col), col)) == |col|
  {
    if col != [] {
      var front, x := col[..|col| - 1], col[|col| - 1];
      assert col == front + [x];
      var d := Distinct(front);
      TallyTotal(front);
      TallyGrows(d, front, x);
      if x !in d {
        assert Tally(d + [x], col) == Tally(d, col) + [ValueCount(x, Count(col, x))];
        SumCountsAppend(Tally(d, col), [ValueCount(x, Count(col, x))]);
        assert Count(col, x) == 1 by {
          assert multiset(col) == multiset(front) + multiset{x};
        }
      }
    }
  }

  /** `value_counts()` counts every row exactly once. */
  lemma ValueCountsTotal(col: seq<string>)
    ensures SumCounts(ValueCounts(col)) == |col|
  {
    TallyTotal(col);
    SumCountsSort(Tally(Distinct(col), col));
  }

  /** The reported class balance never accounts for more rows than there are. */
  lemma ClassBalanceWithinRows(col: seq<string>)
    ensures SumCounts(ClassBalance(col)) <= |col|
  {
    var all := ValueCounts(col);
    ValueCountsTotal(col);
    if |all| >= TopK {
      SumCountsPrefix(all, TopK);
    }
  }

  // ---------------------------------------------------------------------------
  // The summary

  /** `get_data_summary_fast`. */
  function Summarize(t: Table): (s: Summary)
    requires WellFormed(t)
    ensures s.totalRows == |t.rows| && s.columns == t.columns
    ensures s.duplicates.Exact? <==> |t.rows| <= ExactLimit
    ensures s.duplicates.Exact? ==> s.duplicates.count == |RepeatIndices(t.rows)|
    ensures s.duplicates.Exact? && t.rows != [] ==> s.duplicates.count <= |t.rows| - 1
    ensures s.classBalance == ClassBalance(LastColumn(t))
  {
    var n := |t.rows|;
    var dup := if n > ExactLimit then Estimated else Exact(DuplicateCount(t.rows));
    DuplicateCountIsRepeats(t.rows);
    Summary(n, t.columns, dup, ClassBalance(LastColumn(t)))
  }
}
