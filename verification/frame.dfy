/**
 * The two tables of the dashboard and the two pandas operations it applies to
 * them: `pd.melt` from the wide table (one row per country, one column per
 * year) to the long table (one row per country and year), and selection of
 * rows by a boolean mask.
 */
module Frame {
  import opened Builtins

  /** A number as pandas hands it over: a Python `int`, a finite `float`, or `NaN` (an empty CSV cell). */
  datatype Number = Int(i: int) | Float(f: real) | NaN

  /** A gdp cell of the CSV: a number, or text such as "1.2k". */
  datatype Cell = Num(n: Number) | Str(s: string)

  /** A row of the wide table: the `country` column and one cell per year column. */
  datatype WideRow = WideRow(country: string, cells: seq<Cell>)

  /** The wide table: the year column labels, in header order, and the rows. */
  datatype WideTable = WideTable(yearColumns: seq<string>, rows: seq<WideRow>)

  /** A row of the long table; the year stays the column-label string. */
  datatype LongRow<G> = LongRow(country: string, year: string, gdp: G)

  /** Every row has one cell per year column, as a data frame always does. */
  predicate Rectangular(t: WideTable)
  {
    forall i :: 0 <= i < |t.rows| ==> |t.rows[i].cells| == |t.yearColumns|
  }

  // ---------------------------------------------------------------------------
  // Melting the wide table, keeping the country column

  /** The long row that melting makes of row `i` under year column `j`. */
  function Entry(t: WideTable, j: nat, i: nat): LongRow<Cell>
    requires Rectangular(t) && j < |t.yearColumns| && i < |t.rows|
  {
    LongRow(t.rows[i].country, t.yearColumns[j], t.rows[i].cells[j])
  }

  /** The block melting makes of year column `j`: one row per country, in row order. */
  function Column(t: WideTable, j: nat): (r: seq<LongRow<Cell>>)
    requires Rectangular(t) && j < |t.yearColumns|
    ensures |r| == |t.rows|
    ensures forall i :: 0 <= i < |t.rows| ==> r[i] == Entry(t, j, i)
  {
    seq(|t.rows|, i requires 0 <= i < |t.rows| => Entry(t, j, i))
  }

  /** The blocks of year columns `j`, `j + 1`, ..., in header order. */
  function MeltFrom(t: WideTable, j: nat): seq<LongRow<Cell>>
    requires Rectangular(t) && j <= |t.yearColumns|
    decreases |t.yearColumns| - j
  {
    if j == |t.yearColumns| then [] else Column(t, j) + MeltFrom(t, j + 1)
  }

  /**
   * `pd.melt`: the year columns' blocks one after another, so that R countries
   * and P year columns melt into exactly P * R rows.
   */
  function Melt(t: WideTable): (r: seq<LongRow<Cell>>)
    requires Rectangular(t)
    ensures |r| == |t.yearColumns| * |t.rows|
  {
    MeltFromLength(t, 0);
    MeltFrom(t, 0)
  }

  lemma {:induction false} MeltFromLength(t: WideTable, j: nat)
    requires Rectangular(t) && j <= |t.yearColumns|
    ensures |MeltFrom(t, j)| == (|t.yearColumns| - j) * |t.rows|
    decreases |t.yearColumns| - j
  {
    if j < |t.yearColumns| {
      MeltFromLength(t, j + 1);
      var rest := |t.yearColumns| - (j + 1);
      assert (rest + 1) * |t.rows| == rest * |t.rows| + |t.rows|;
    }
  }

  /** Block arithmetic: block q of n rows starts at q * n, and block q + 1 right after it. */
  lemma BlockOffsets(q: nat, p: nat, n: nat, i: nat)
    requires q < p && i < n
    ensures q * n + i < p * n
    ensures (q + 1) * n + i == n + (q * n + i)
  {
    assert p * n == (q + 1) * n + (p - q - 1) * n;
    assert (p - q - 1) * n >= 0;
  }

  /** Block arithmetic: block j of n rows ends where block j + 1 starts, within p blocks. */
  lemma BlockEnd(j: nat, p: nat, n: nat)
    requires j < p
    ensures (j + 1) * n == j * n + n
    ensures (j + 1) * n <= p * n
  {
    assert p * n == (j + 1) * n + (p - j - 1) * n;
    assert (p - j - 1) * n >= 0;
  }

  /** Where the row for year column `j` and country row `i` sits in the blocks from column `s` on. */
  lemma {:induction false} MeltFromAt(t: WideTable, s: nat, j: nat, i: nat)
    requires Rectangular(t) && s <= j < |t.yearColumns| && i < |t.rows|
    ensures (j - s) * |t.rows| + i < |MeltFrom(t, s)|
    ensures MeltFrom(t, s)[(j - s) * |t.rows| + i] == Entry(t, j, i)
    decreases j - s
  {
    var n := |t.rows|;
    MeltFromLength(t, s);
    BlockOffsets(j - s, |t.yearColumns| - s, n, i);
    if s < j {
      MeltFromAt(t, s + 1, j, i);
      BlockOffsets(j - s - 1, |t.yearColumns| - s, n, i);
      var k := (j - s - 1) * n + i;
      assert MeltFrom(t, s) == Column(t, s) + MeltFrom(t, s + 1);
      assert (j - s) * n + i == n + k;
      assert MeltFrom(t, s)[n + k] == MeltFrom(t, s + 1)[k];
    }
  }

  /**
   * The melted table lists, year column after year column, one row per
   * country: position j * R + i holds country i's cell under year label j.
   */
  lemma MeltAt(t: WideTable, j: nat, i: nat)
    requires Rectangular(t) && j < |t.yearColumns| && i < |t.rows|
    ensures j * |t.rows| + i < |Melt(t)|
    ensures Melt(t)[j * |t.rows| + i] == LongRow(t.rows[i].country, t.yearColumns[j], t.rows[i].cells[j])
  {
    MeltFromAt(t, 0, j, i);
  }

  lemma {:induction false} MeltFromMember(t: WideTable, s: nat, r: LongRow<Cell>)
    requires Rectangular(t) && s <= |t.yearColumns|
    ensures r in MeltFrom(t, s) <==>
              exists j, i :: s <= j < |t.yearColumns| && 0 <= i < |t.rows| && r == Entry(t, j, i)
    decreases |t.yearColumns| - s
  {
    if s < |t.yearColumns| {
      MeltFromMember(t, s + 1, r);
      if r in Column(t, s) {
        var i :| 0 <= i < |t.rows| && Column(t, s)[i] == r;
        assert r == Entry(t, s, i);
      }
    }
  }

  /** A row is in the melted table exactly when it is some country's cell under some year label. */
  lemma MeltMember(t: WideTable, r: LongRow<Cell>)
    requires Rectangular(t)
    ensures r in Melt(t) <==>
              exists j, i :: 0 <= j < |t.yearColumns| && 0 <= i < |t.rows| && r == Entry(t, j, i)
  {
    MeltFromMember(t, 0, r);
  }

  /**
   * The melted table is grouped year by year: the R rows from position j * R
   * on are year column j's rows, with its label, in country order.
   */
  lemma MeltGroupedByYear(t: WideTable, j: nat)
    requires Rectangular(t) && j < |t.yearColumns|
    ensures (j + 1) * |t.rows| <= |Melt(t)|
    ensures Melt(t)[j * |t.rows| .. (j + 1) * |t.rows|] == Column(t, j)
    ensures forall k :: j * |t.rows| <= k < (j + 1) * |t.rows| ==> Melt(t)[k].year == t.yearColumns[j]
  {
    var n := |t.rows|;
    BlockEnd(j, |t.yearColumns|, n);
    var block := Melt(t)[j * n .. (j + 1) * n];
    forall i | 0 <= i < n
      ensures block[i] == Column(t, j)[i]
    {
      MeltAt(t, j, i);
      assert block[i] == Melt(t)[j * n + i];
    }
    assert block == Column(t, j);
  }

  /** The year labels of the long table, in row order (`df['year']`). */
  function Years<G>(rows: seq<LongRow<G>>): (ys: seq<string>)
    ensures |ys| == |rows|
    ensures forall k :: 0 <= k < |rows| ==> ys[k] == rows[k].year
  {
    seq(|rows|, k requires 0 <= k < |rows| => rows[k].year)
  }

  // ---------------------------------------------------------------------------
  // Row selection by a boolean mask

  /** The boolean masks the dashboard builds. */
  datatype Mask =
    | CountryIn(countries: seq<string>)   // the row's country is one of these
    | YearBetween(lo: int, hi: int)       // the row's year, read as an integer, lies in lo..hi

  /**
   * Whether the mask is true on a row; a year label that is not an integer is
   * never in range. An empty country list and an empty year range keep nothing.
   */
  predicate Keeps<G>(m: Mask, r: LongRow<G>)
    ensures m.CountryIn? && m.countries == [] ==> !Keeps(m, r)
    ensures m.YearBetween? && m.hi < m.lo ==> !Keeps(m, r)
    ensures m.YearBetween? && Keeps(m, r) ==> ParseInt(r.year).Some?
  {
    match m
    case CountryIn(countries) => r.country in countries
    case YearBetween(lo, hi) => ParseInt(r.year).Some? && lo <= ParseInt(r.year).value <= hi
  }

  /**
   * `df[mask]`: the rows on which the mask is true, every copy of each, in
   * their original order.
   */
  function Where<G(==,!new)>(rows: seq<LongRow<G>>, m: Mask): (r: seq<LongRow<G>>)
    ensures |r| <= |rows|
    ensures forall x :: x in r <==> x in rows && Keeps(m, x)
    ensures forall x :: multiset(r)[x] == if Keeps(m, x) then multiset(rows)[x] else 0
    ensures IsSubseq(r, rows)
  {
    if rows == [] then []
    else
      var rest := Where(rows[1..], m);
      assert rows == [rows[0]] + rows[1..];
      if Keeps(m, rows[0]) then [rows[0]] + rest else rest
  }

  /** Selection goes row by row: the first row, if the mask is true on it, then the selection of the rest. */
  lemma WhereCons<G(!new)>(x: LongRow<G>, rest: seq<LongRow<G>>, m: Mask)
    ensures Where([x] + rest, m) == (if Keeps(m, x) then [x] else []) + Where(rest, m)
  {
    assert ([x] + rest)[1..] == rest;
  }

  /** Selecting from a two-row table keeps each row the mask is true on. */
  lemma WhereTwo<G(!new)>(a: LongRow<G>, b: LongRow<G>, m: Mask)
    ensures Where([a, b], m) == (if Keeps(m, a) then [a] else []) + (if Keeps(m, b) then [b] else [])
  {
    assert [a, b] == [a] + [b];
    assert [b] == [b] + [];
    WhereCons(a, [b], m);
    WhereCons(b, [], m);
  }

  /** A mask that is true on every row selects the whole table. */
  lemma {:induction false} WhereAll<G(!new)>(rows: seq<LongRow<G>>, m: Mask)
    requires forall x :: x in rows ==> Keeps(m, x)
    ensures Where(rows, m) == rows
  {
    if rows != [] {
      assert rows == [rows[0]] + rows[1..];
      WhereAll(rows[1..], m);
    }
  }

  /** Selecting by the same mask twice selects nothing more and nothing less. */
  lemma WhereIdempotent<G(!new)>(rows: seq<LongRow<G>>, m: Mask)
    ensures Where(Where(rows, m), m) == Where(rows, m)
  {
    WhereAll(Where(rows, m), m);
  }
}
