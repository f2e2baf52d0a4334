/**
 * The dashboard's data pipeline: the year bounds of the melted table, the
 * `val_float` normalisation of every gdp cell, and the row selection that the
 * `update_graph` callback hands to the chart.
 *
 * Python's `float(text)` is not modelled: every member that needs it takes it
 * as a parameter `parse`, which gives `Some(v)` for a text Python reads as the
 * finite number `v` and `None` where `float` raises `ValueError`.
 */
module Dashboard {
  import opened Wrappers
  import opened Builtins
  import opened Frame

  // ---------------------------------------------------------------------------
  // val_float

  /**
   * `val_float(x)`: an `int` or `float` comes back unchanged; a text holding
   * the marker `k` is a number of thousands (the bare "k" is one thousand);
   * any other text falls off the end of the function, which returns `None`.
   */
  function ValFloat(parse: string -> Option<real>, x: Cell): (r: Result<Option<Number>, Error>)
    ensures x.Num? ==> r == Ok(Some(x.n))
    ensures x.Str? && r.Ok? && r.value.Some? ==> r.value.value.Float?
    ensures r.Err? ==> x.Str? && 'k' in x.s && |x.s| > 1
  {
    match x
    case Num(n) => Ok(Some(n))
    case Str(s) =>
      if 'k' in s then
        if |s| > 1 then
          match parse(RemoveAll(s, 'k'))
          case Some(v) => Ok(Some(Float(v * 1000.0)))
          case None => Err(ValueError)
        else Ok(Some(Float(1000.0)))
      else Ok(None)
  }

  /** A text with the marker and something else is 1000 times the number the rest reads as, or raises. */
  lemma ValFloatThousands(parse: string -> Option<real>, s: string)
    requires 'k' in s && |s| > 1
    ensures parse(RemoveAll(s, 'k')).Some? ==>
              ValFloat(parse, Str(s)) == Ok(Some(Float(1000.0 * parse(RemoveAll(s, 'k')).value)))
    ensures parse(RemoveAll(s, 'k')).None? ==> ValFloat(parse, Str(s)) == Err(ValueError)
  {
  }

  /** "<number>k": a number written in thousands reads as 1000 times that number. */
  lemma ValFloatSuffix(parse: string -> Option<real>, t: string)
    requires 'k' !in t && t != []
    ensures parse(t).Some? ==> ValFloat(parse, Str(t + "k")) == Ok(Some(Float(1000.0 * parse(t).value)))
    ensures parse(t).None? ==> ValFloat(parse, Str(t + "k")) == Err(ValueError)
  {
    var s := t + "k";
    RemoveAllLast(t, 'k');
    assert s[|t|] == 'k';
  }

  /** The bare marker is one thousand, the same as "1k". */
  lemma ValFloatBareMarker(parse: string -> Option<real>)
    requires parse("1") == Some(1.0)
    ensures ValFloat(parse, Str("k")) == Ok(Some(Float(1000.0)))
    ensures ValFloat(parse, Str("1k")) == ValFloat(parse, Str("k"))
  {
    ValFloatSuffix(parse, "1");
  }

  /** Where the markers stand does not matter: only the text left after removing them is read. */
  lemma ValFloatMarkersAnywhere(parse: string -> Option<real>, s: string, t: string)
    requires 'k' in s && |s| > 1 && 'k' in t && |t| > 1
    requires RemoveAll(s, 'k') == RemoveAll(t, 'k')
    ensures ValFloat(parse, Str(s)) == ValFloat(parse, Str(t))
  {
  }

  /** A text without the marker is not read as a number at all: the result is `None`. */
  lemma ValFloatNoMarker(parse: string -> Option<real>, s: string)
    requires 'k' !in s
    ensures ValFloat(parse, Str(s)) == Ok(None)
  {
  }

  /** Nothing but markers leaves the empty text, which `float` refuses. */
  lemma ValFloatOnlyMarkers(parse: string -> Option<real>, n: nat)
    requires parse("") == None && n > 1
    ensures ValFloat(parse, Str(seq(n, _ => 'k'))) == Err(ValueError)
  {
    var s := seq(n, _ => 'k');
    assert s[0] == 'k';
    RemoveAllOnly(s, 'k');
  }

  /** A worked case: "1.2k" is 1200. */
  lemma ValFloatExampleThousands(parse: string -> Option<real>)
    requires parse("1.2") == Some(1.2)
    ensures ValFloat(parse, Str("1.2k")) == Ok(Some(Float(1200.0)))
  {
    ValFloatSuffix(parse, "1.2");
    assert "1.2" + "k" == "1.2k";
  }

  /** A worked case: "kk" leaves nothing to read, and raises. */
  lemma ValFloatExampleMarkersOnly(parse: string -> Option<real>)
    requires parse("") == None
    ensures ValFloat(parse, Str("kk")) == Err(ValueError)
  {
    ValFloatOnlyMarkers(parse, 2);
    assert seq(2, _ => 'k') == "kk";
  }

  // ---------------------------------------------------------------------------
  // The gdp column through val_float

  /**
   * The gdp column mapped through `val_float`, row by row; the first cell that
   * raises makes the whole assignment raise.
   */
  function NormalizeGdp(parse: string -> Option<real>, rows: seq<LongRow<Cell>>): (r: Result<seq<LongRow<Option<Number>>>, Error>)
    ensures r.Ok? <==> forall k :: 0 <= k < |rows| ==> ValFloat(parse, rows[k].gdp).Ok?
    ensures r.Ok? ==> |r.value| == |rows|
    ensures r.Ok? ==> forall k :: 0 <= k < |rows| ==>
              r.value[k] == LongRow(rows[k].country, rows[k].year, ValFloat(parse, rows[k].gdp).value)
    ensures r.Err? ==> r.error == ValueError
  {
    if rows == [] then Ok([])
    else
      match ValFloat(parse, rows[0].gdp)
      case Err(e) => Err(e)
      case Ok(v) =>
        match NormalizeGdp(parse, rows[1..])
        case Err(e) => Err(e)
        case Ok(rest) => Ok([LongRow(rows[0].country, rows[0].year, v)] + rest)
  }

  // ---------------------------------------------------------------------------
  // The slider bounds

  /**
   * The slider bounds: the smallest and largest year label by string order,
   * each read with `int`. An empty column's minimum is `NaN`, and `int(NaN)`
   * raises `ValueError`, as does a label that is not an integer.
   */
  function YearBounds<G>(rows: seq<LongRow<G>>): (r: Result<(int, int), Error>)
    ensures rows == [] ==> r == Err(ValueError)
    ensures rows != [] && AllYearsInt(rows) ==> r.Ok?
    ensures r.Err? ==> r.error == ValueError
    ensures r.Ok? ==> exists k :: 0 <= k < |rows| && ParseInt(rows[k].year) == Some(r.value.0)
    ensures r.Ok? ==> exists k :: 0 <= k < |rows| && ParseInt(rows[k].year) == Some(r.value.1)
  {
    if rows == [] then Err(ValueError)
    else
      var years := Years(rows);
      match ParseInt(StrMin(years))
      case None => Err(ValueError)
      case Some(lo) =>
        match ParseInt(StrMax(years))
        case None => Err(ValueError)
        case Some(hi) => Ok((lo, hi))
  }

  /** Row `k`'s year label precedes every row's label in string order. */
  predicate LeastYear<G>(rows: seq<LongRow<G>>, k: int)
  {
    0 <= k < |rows| && forall k' :: 0 <= k' < |rows| ==> LexLe(rows[k].year, rows[k'].year)
  }

  /** Row `k`'s year label follows every row's label in string order. */
  predicate GreatestYear<G>(rows: seq<LongRow<G>>, k: int)
  {
    0 <= k < |rows| && forall k' :: 0 <= k' < |rows| ==> LexLe(rows[k'].year, rows[k].year)
  }

  /**
   * `min_year` is `int` of the string-least year label and `max_year` that of
   * the string-greatest. The bounds are found exactly when the table is not
   * empty and those two labels are integers; no other label is read.
   */
  lemma YearBoundsLabels<G>(rows: seq<LongRow<G>>)
    ensures YearBounds(rows).Ok? <==>
              rows != [] &&
              (exists k :: LeastYear(rows, k) && ParseInt(rows[k].year).Some?) &&
              (exists k :: GreatestYear(rows, k) && ParseInt(rows[k].year).Some?)
    ensures YearBounds(rows).Ok? ==> exists k :: LeastYear(rows, k) && ParseInt(rows[k].year) == Some(YearBounds(rows).value.0)
    ensures YearBounds(rows).Ok? ==> exists k :: GreatestYear(rows, k) && ParseInt(rows[k].year) == Some(YearBounds(rows).value.1)
  {
    if rows != [] {
      var years := Years(rows);
      var lo, hi := StrMin(years), StrMax(years);
      var klo :| 0 <= klo < |years| && years[klo] == lo;
      var khi :| 0 <= khi < |years| && years[khi] == hi;
      forall k' | 0 <= k' < |rows|
        ensures LexLe(rows[klo].year, rows[k'].year) && LexLe(rows[k'].year, rows[khi].year)
      {
        assert years[k'] in years;
      }
      assert LeastYear(rows, klo) && GreatestYear(rows, khi);
      forall k | LeastYear(rows, k)
        ensures rows[k].year == lo
      {
        assert years[k] in years;
        LexLeAntisymmetric(rows[k].year, lo);
      }
      forall k | GreatestYear(rows, k)
        ensures rows[k].year == hi
      {
        assert years[k] in years;
        LexLeAntisymmetric(rows[k].year, hi);
      }
    }
  }

  /** Every year label is a string of `w` decimal digits, as the CSV's four-digit years are. */
  predicate UniformYears<G>(rows: seq<LongRow<G>>, w: nat)
  {
    w > 0 && forall k :: 0 <= k < |rows| ==> |rows[k].year| == w && AllDigits(rows[k].year)
  }

  /**
   * With year labels of one width, the string minimum and maximum are the
   * numeric ones: `min_year <= max_year`, both are years of the table, and
   * every row's year lies between them.
   */
  lemma YearBoundsUniform<G>(rows: seq<LongRow<G>>, w: nat)
    requires rows != [] && UniformYears(rows, w)
    ensures YearBounds(rows).Ok?
    ensures YearBounds(rows).value.0 <= YearBounds(rows).value.1
    ensures forall x :: x in rows ==>
              ParseInt(x.year).Some? && YearBounds(rows).value.0 <= ParseInt(x.year).value <= YearBounds(rows).value.1
    ensures exists x :: x in rows && ParseInt(x.year) == Some(YearBounds(rows).value.0)
    ensures exists x :: x in rows && ParseInt(x.year) == Some(YearBounds(rows).value.1)
  {
    var years := Years(rows);
    var lo, hi := StrMin(years), StrMax(years);
    var klo :| 0 <= klo < |years| && years[klo] == lo;
    var khi :| 0 <= khi < |years| && years[khi] == hi;
    assert rows[klo] in rows && rows[khi] in rows;
    forall x | x in rows
      ensures ParseInt(x.year).Some? && DigitsValue(lo) <= ParseInt(x.year).value <= DigitsValue(hi)
    {
      var k :| 0 <= k < |rows| && rows[k] == x;
      assert years[k] == x.year;
      LexLeDigits(lo, x.year);
      LexLeDigits(x.year, hi);
    }
  }

  /** The bounds of a two-row table, by one string comparison each way. */
  lemma YearBoundsTwo<G>(a: LongRow<G>, b: LongRow<G>)
    ensures YearBounds([a, b]) ==
              var lo := if LexLe(a.year, b.year) then a.year else b.year;
              var hi := if LexLe(b.year, a.year) then a.year else b.year;
              if ParseInt(lo).None? || ParseInt(hi).None? then Err(ValueError)
              else Ok((ParseInt(lo).value, ParseInt(hi).value))
  {
    var years := Years([a, b]);
    assert years == [a.year, b.year];
    assert years[1..] == [b.year];
  }

  /** The labels "999" and "1000" read as 999 and 1000, yet "1000" sorts first. */
  lemma Labels999And1000()
    ensures ParseInt("999") == Some(999) && ParseInt("1000") == Some(1000)
    ensures LexLe("1000", "999") && !LexLe("999", "1000")
  {
    assert "1000"[..3] == "100" && "100"[..2] == "10" && "10"[..1] == "1" && "1"[..0] == "";
    assert "999"[..2] == "99" && "99"[..1] == "9" && "9"[..0] == "";
  }

  /** With labels of different widths string order is not numeric: "1000" < "999" gives bounds 1000 and 999. */
  lemma YearBoundsMixedWidth<G>(a: G, b: G)
    ensures YearBounds([LongRow("A", "999", a), LongRow("A", "1000", b)]) == Ok((1000, 999))
  {
    YearBoundsTwo(LongRow("A", "999", a), LongRow("A", "1000", b));
    Labels999And1000();
  }

  // ---------------------------------------------------------------------------
  // Start-up: melt, bounds, then the gdp column

  /** What start-up leaves behind: the long table and the slider bounds. */
  datatype Loaded = Loaded(df: seq<LongRow<Option<Number>>>, minYear: int, maxYear: int)

  /** The module-level start-up steps in source order: melt, the year bounds, then the gdp column. */
  function Prepare(parse: string -> Option<real>, t: WideTable): (r: Result<Loaded, Error>)
    requires Rectangular(t)
    ensures r.Ok? ==> |r.value.df| == |t.yearColumns| * |t.rows|
    ensures r.Err? ==> r.error == ValueError
  {
    var melted := Melt(t);
    match YearBounds(melted)
    case Err(e) => Err(e)
    case Ok(bounds) =>
      match NormalizeGdp(parse, melted)
      case Err(e) => Err(e)
      case Ok(df) => Ok(Loaded(df, bounds.0, bounds.1))
  }

  /**
   * Start-up succeeds exactly when the year labels give slider bounds and
   * `val_float` succeeds on every cell of the wide table.
   */
  lemma PrepareSucceeds(parse: string -> Option<real>, t: WideTable)
    requires Rectangular(t)
    ensures Prepare(parse, t).Ok? <==>
              YearBounds(Melt(t)).Ok? &&
              forall j, i :: 0 <= j < |t.yearColumns| && 0 <= i < |t.rows| ==> ValFloat(parse, t.rows[i].cells[j]).Ok?
  {
    var melted := Melt(t);
    if forall j, i :: 0 <= j < |t.yearColumns| && 0 <= i < |t.rows| ==> ValFloat(parse, t.rows[i].cells[j]).Ok? {
      forall k | 0 <= k < |melted|
        ensures ValFloat(parse, melted[k].gdp).Ok?
      {
        assert melted[k] in melted;
        MeltMember(t, melted[k]);
        var j, i :| 0 <= j < |t.yearColumns| && 0 <= i < |t.rows| && melted[k] == Entry(t, j, i);
      }
    }
    if NormalizeGdp(parse, melted).Ok? {
      forall j, i | 0 <= j < |t.yearColumns| && 0 <= i < |t.rows|
        ensures ValFloat(parse, t.rows[i].cells[j]).Ok?
      {
        MeltAt(t, j, i);
        assert melted[j * |t.rows| + i].gdp == t.rows[i].cells[j];
      }
    }
  }

  /** The long table start-up keeps: the melted rows with their gdp cells normalised. */
  lemma PrepareTable(parse: string -> Option<real>, t: WideTable)
    requires Rectangular(t) && Prepare(parse, t).Ok?
    ensures NormalizeGdp(parse, Melt(t)) == Ok(Prepare(parse, t).value.df)
    ensures YearBounds(Melt(t)) == Ok((Prepare(parse, t).value.minYear, Prepare(parse, t).value.maxYear))
  {
  }

  /**
   * After start-up, position j * R + i of the table holds country i, year
   * label j and `val_float` of that country's cell under that label.
   */
  lemma NormalizedAt(parse: string -> Option<real>, t: WideTable, df: seq<LongRow<Option<Number>>>, j: nat, i: nat)
    requires Rectangular(t) && NormalizeGdp(parse, Melt(t)) == Ok(df)
    requires j < |t.yearColumns| && i < |t.rows|
    ensures j * |t.rows| + i < |df|
    ensures ValFloat(parse, t.rows[i].cells[j]).Ok?
    ensures df[j * |t.rows| + i] == LongRow(t.rows[i].country, t.yearColumns[j], ValFloat(parse, t.rows[i].cells[j]).value)
  {
    var melted := Melt(t);
    var k := j * |t.rows| + i;
    MeltAt(t, j, i);
    assert melted[k] == LongRow(t.rows[i].country, t.yearColumns[j], t.rows[i].cells[j]);
  }

  /**
   * After start-up, position k = j * R + i of the loaded table holds country i,
   * year label j and `val_float` of that country's cell under that label.
   */
  lemma PrepareAt(parse: string -> Option<real>, t: WideTable, j: nat, i: nat, k: nat)
    requires Rectangular(t) && Prepare(parse, t).Ok?
    requires j < |t.yearColumns| && i < |t.rows| && k == j * |t.rows| + i
    ensures k < |Prepare(parse, t).value.df|
    ensures ValFloat(parse, t.rows[i].cells[j]).Ok?
    ensures Prepare(parse, t).value.df[k] == LongRow(t.rows[i].country, t.yearColumns[j], ValFloat(parse, t.rows[i].cells[j]).value)
  {
    PrepareTable(parse, t);
    NormalizedAt(parse, t, Prepare(parse, t).value.df, j, i);
  }

  /** Every year column label of the wide table is a string of `w` decimal digits. */
  predicate UniformLabels(t: WideTable, w: nat)
  {
    w > 0 && forall j :: 0 <= j < |t.yearColumns| ==> |t.yearColumns[j]| == w && AllDigits(t.yearColumns[j])
  }

  /** Header labels of one width give melted year labels of that width. */
  lemma MeltUniform(t: WideTable, w: nat)
    requires Rectangular(t) && UniformLabels(t, w)
    ensures UniformYears(Melt(t), w)
  {
    var melted := Melt(t);
    forall k | 0 <= k < |melted|
      ensures |melted[k].year| == w && AllDigits(melted[k].year)
    {
      assert melted[k] in melted;
      MeltMember(t, melted[k]);
    }
  }

  /**
   * When the year labels share one width, the slider bounds are ordered and
   * every row of the table lies within them.
   */
  lemma PrepareBounds(parse: string -> Option<real>, t: WideTable, w: nat)
    requires Rectangular(t) && Prepare(parse, t).Ok?
    requires UniformLabels(t, w)
    ensures Prepare(parse, t).value.minYear <= Prepare(parse, t).value.maxYear
    ensures forall x :: x in Prepare(parse, t).value.df ==>
              ParseInt(x.year).Some? &&
              Prepare(parse, t).value.minYear <= ParseInt(x.year).value <= Prepare(parse, t).value.maxYear
  {
    var melted := Melt(t);
    var loaded := Prepare(parse, t).value;
    PrepareTable(parse, t);
    MeltUniform(t, w);
    YearBoundsUniform(melted, w);
    forall x | x in loaded.df
      ensures ParseInt(x.year).Some? && loaded.minYear <= ParseInt(x.year).value <= loaded.maxYear
    {
      var k :| 0 <= k < |loaded.df| && loaded.df[k] == x;
      assert melted[k] in melted;
    }
  }

  // ---------------------------------------------------------------------------
  // The rows update_graph plots

  /** Python truthiness of a dropdown or slider value: neither `None` nor empty. */
  predicate Truthy<T>(o: Option<seq<T>>)
  {
    o.Some? && |o.value| > 0
  }

  /** The country selection admits the row: no selection, or the row's country is selected. */
  predicate CountryWanted<G>(selectedCountries: Option<seq<string>>, x: LongRow<G>)
  {
    !Truthy(selectedCountries) || Keeps(CountryIn(selectedCountries.value), x)
  }

  /** The year range admits the row: no range, or the row's year lies in it, both ends included. */
  predicate YearWanted<G>(selectedYear: Option<seq<int>>, x: LongRow<G>)
  {
    !Truthy(selectedYear) ||
    (|selectedYear.value| >= 2 && Keeps(YearBetween(selectedYear.value[0], selectedYear.value[1]), x))
  }

  /** Both selections admit the row. */
  predicate Wanted<G>(selectedCountries: Option<seq<string>>, selectedYear: Option<seq<int>>, x: LongRow<G>)
  {
    CountryWanted(selectedCountries, x) && YearWanted(selectedYear, x)
  }

  /** `df['year'].astype(int)` succeeds: every year label is an integer. */
  predicate AllYearsInt<G>(rows: seq<LongRow<G>>)
  {
    forall k :: 0 <= k < |rows| ==> ParseInt(rows[k].year).Some?
  }

  /** The first narrowing of `update_graph`: by the country selection, when there is one. */
  function ByCountry<G(==,!new)>(df: seq<LongRow<G>>, selectedCountries: Option<seq<string>>): (r: seq<LongRow<G>>)
    ensures IsSubseq(r, df)
    ensures forall x :: x in r <==> x in df && CountryWanted(selectedCountries, x)
    ensures forall x :: multiset(r)[x] == (if CountryWanted(selectedCountries, x) then multiset(df)[x] else 0)
  {
    if Truthy(selectedCountries) then Where(df, CountryIn(selectedCountries.value))
    else
      IsSubseqRefl(df);
      df
  }

  /**
   * The second narrowing of `update_graph`: by the year range, when there is
   * one. Its two ends are read before the year column is converted with
   * `astype(int)`, which raises if any remaining label is not an integer.
   */
  function ByYear<G(==,!new)>(rows: seq<LongRow<G>>, selectedYear: Option<seq<int>>): (r: Result<seq<LongRow<G>>, Error>)
    ensures r.Ok? ==> IsSubseq(r.value, rows)
    ensures r.Ok? ==> forall x :: x in r.value <==> x in rows && YearWanted(selectedYear, x)
    ensures r.Ok? ==> forall x :: multiset(r.value)[x] == (if YearWanted(selectedYear, x) then multiset(rows)[x] else 0)
    ensures r == Err(IndexError) <==> Truthy(selectedYear) && |selectedYear.value| < 2
    ensures r == Err(ValueError) <==>
              Truthy(selectedYear) && |selectedYear.value| >= 2 && exists x :: x in rows && ParseInt(x.year).None?
  {
    if !Truthy(selectedYear) then
      IsSubseqRefl(rows);
      Ok(rows)
    else if |selectedYear.value| < 2 then Err(IndexError)
    else if !AllYearsInt(rows) then Err(ValueError)
    else Ok(Where(rows, YearBetween(selectedYear.value[0], selectedYear.value[1])))
  }

  /**
   * The rows `update_graph` hands to the chart: `df` narrowed by the country
   * selection, then by the year range; an order-preserving selection of the
   * rows both admit, or the exception the year conversion raises.
   */
  function UpdateGraph<G(==,!new)>(df: seq<LongRow<G>>, selectedCountries: Option<seq<string>>, selectedYear: Option<seq<int>>)
    : (r: Result<seq<LongRow<G>>, Error>)
    ensures r.Ok? ==> IsSubseq(r.value, df)
    ensures r.Ok? ==> forall x :: x in r.value <==> x in df && Wanted(selectedCountries, selectedYear, x)
    ensures r.Ok? ==> forall x :: multiset(r.value)[x] == (if Wanted(selectedCountries, selectedYear, x) then multiset(df)[x] else 0)
    ensures r == Err(IndexError) <==> Truthy(selectedYear) && |selectedYear.value| < 2
    ensures r == Err(ValueError) <==>
              Truthy(selectedYear) && |selectedYear.value| >= 2 &&
              exists x :: x in df && CountryWanted(selectedCountries, x) && ParseInt(x.year).None?
  {
    var selected := ByCountry(df, selectedCountries);
    var r := ByYear(selected, selectedYear);
    if r.Ok? then IsSubseqTrans(r.value, selected, df); r else r
  }

  /** An empty or `None` country selection is no country filter; both select alike. */
  lemma UpdateGraphNoCountries<G(!new)>(df: seq<LongRow<G>>, selectedCountries: Option<seq<string>>, selectedYear: Option<seq<int>>)
    requires !Truthy(selectedCountries)
    ensures UpdateGraph(df, selectedCountries, selectedYear) == UpdateGraph(df, None, selectedYear)
    ensures UpdateGraph(df, selectedCountries, None) == Ok(df)
  {
  }

  /** Filtering the plotted rows again with the same selection changes nothing. */
  lemma UpdateGraphIdempotent<G(!new)>(df: seq<LongRow<G>>, selectedCountries: Option<seq<string>>, selectedYear: Option<seq<int>>)
    requires UpdateGraph(df, selectedCountries, selectedYear).Ok?
    ensures UpdateGraph(UpdateGraph(df, selectedCountries, selectedYear).value, selectedCountries, selectedYear)
            == UpdateGraph(df, selectedCountries, selectedYear)
  {
    var r := UpdateGraph(df, selectedCountries, selectedYear).value;
    if Truthy(selectedCountries) {
      WhereAll(r, CountryIn(selectedCountries.value));
    }
    if Truthy(selectedYear) {
      WhereAll(r, YearBetween(selectedYear.value[0], selectedYear.value[1]));
    }
  }

  /**
   * No country selection and the full slider range plot the whole table,
   * when its year labels share one width.
   */
  lemma UpdateGraphFullRange<G(!new)>(df: seq<LongRow<G>>, selectedCountries: Option<seq<string>>, w: nat)
    requires df != [] && UniformYears(df, w) && !Truthy(selectedCountries)
    ensures YearBounds(df).Ok?
    ensures UpdateGraph(df, selectedCountries, Some([YearBounds(df).value.0, YearBounds(df).value.1])) == Ok(df)
  {
    YearBoundsUniform(df, w);
    var bounds := YearBounds(df).value;
    WhereAll(df, YearBetween(bounds.0, bounds.1));
  }

  /**
   * The year range includes both of its ends and nothing beyond: a wanted
   * country's row in year `lo` or `hi` is plotted, one in year `hi + 1` is not.
   */
  lemma UpdateGraphInclusive<G(!new)>(df: seq<LongRow<G>>, selectedCountries: Option<seq<string>>, lo: int, hi: int, x: LongRow<G>)
    requires UpdateGraph(df, selectedCountries, Some([lo, hi])).Ok?
    requires x in df && CountryWanted(selectedCountries, x) && lo <= hi
    ensures ParseInt(x.year) == Some(lo) ==> x in UpdateGraph(df, selectedCountries, Some([lo, hi])).value
    ensures ParseInt(x.year) == Some(hi) ==> x in UpdateGraph(df, selectedCountries, Some([lo, hi])).value
    ensures ParseInt(x.year) == Some(hi + 1) ==> x !in UpdateGraph(df, selectedCountries, Some([lo, hi])).value
  {
  }

  /** The CSV's first two year columns for Afghanistan, both cells read as text. */
  function AfghanistanTable(): WideTable
  {
    WideTable(["1800", "1801"], [WideRow("Afghanistan", [Str("603"), Str("1.2k")])])
  }

  /** Melting that table gives one row per year column. */
  lemma AfghanistanMelted()
    ensures Rectangular(AfghanistanTable())
    ensures Melt(AfghanistanTable()) ==
              [LongRow("Afghanistan", "1800", Str("603")), LongRow("Afghanistan", "1801", Str("1.2k"))]
  {
    var t := AfghanistanTable();
    MeltAt(t, 0, 0);
    MeltAt(t, 1, 0);
  }

  /** The labels "1800" and "1801" read as the years 1800 and 1801, in that order. */
  lemma Labels1800And1801()
    ensures ParseInt("1800") == Some(1800) && ParseInt("1801") == Some(1801)
    ensures LexLe("1800", "1801") && !LexLe("1801", "1800")
  {
    assert "1800"[..3] == "180" && "180"[..2] == "18" && "18"[..1] == "1" && "1"[..0] == "";
    assert "1801"[..3] == "180";
  }

  /** The slider bounds of the melted example table. */
  lemma AfghanistanBounds<G>(a: G, b: G)
    ensures YearBounds([LongRow("Afghanistan", "1800", a), LongRow("Afghanistan", "1801", b)]) == Ok((1800, 1801))
  {
    YearBoundsTwo(LongRow("Afghanistan", "1800", a), LongRow("Afghanistan", "1801", b));
    Labels1800And1801();
  }

  /** Two rows whose cells both normalise. */
  lemma NormalizeTwo(parse: string -> Option<real>, a: LongRow<Cell>, b: LongRow<Cell>)
    requires ValFloat(parse, a.gdp).Ok? && ValFloat(parse, b.gdp).Ok?
    ensures NormalizeGdp(parse, [a, b]) ==
              Ok([LongRow(a.country, a.year, ValFloat(parse, a.gdp).value), LongRow(b.country, b.year, ValFloat(parse, b.gdp).value)])
  {
    var expected := [LongRow(a.country, a.year, ValFloat(parse, a.gdp).value), LongRow(b.country, b.year, ValFloat(parse, b.gdp).value)];
    var r := NormalizeGdp(parse, [a, b]);
    assert [a, b][0] == a && [a, b][1] == b;
    assert r.Ok? && |r.value| == 2;
    assert r.value[0] == expected[0] && r.value[1] == expected[1];
    assert r.value == expected;
  }

  /** The gdp column of the melted example table after `val_float`. */
  lemma AfghanistanNormalized(parse: string -> Option<real>)
    requires parse("1.2") == Some(1.2)
    ensures NormalizeGdp(parse, [LongRow("Afghanistan", "1800", Str("603")), LongRow("Afghanistan", "1801", Str("1.2k"))]) ==
              Ok([LongRow("Afghanistan", "1800", None), LongRow("Afghanistan", "1801", Some(Float(1200.0)))])
  {
    ValFloatNoMarker(parse, "603");
    ValFloatExampleThousands(parse);
    NormalizeTwo(parse, LongRow("Afghanistan", "1800", Str("603")), LongRow("Afghanistan", "1801", Str("1.2k")));
  }

  /**
   * Start-up on that table: "603" has no marker and so becomes `None`,
   * "1.2k" becomes 1200.0, and the slider runs from 1800 to 1801.
   */
  lemma AfghanistanPrepared(parse: string -> Option<real>)
    requires parse("1.2") == Some(1.2)
    ensures Rectangular(AfghanistanTable())
    ensures Prepare(parse, AfghanistanTable()) ==
              Ok(Loaded([LongRow("Afghanistan", "1800", None), LongRow("Afghanistan", "1801", Some(Float(1200.0)))], 1800, 1801))
  {
    AfghanistanMelted();
    AfghanistanBounds(Str("603"), Str("1.2k"));
    AfghanistanNormalized(parse);
  }

  /** Selecting the one country every row has keeps the table as it is. */
  lemma ByCountryAll<G(!new)>(df: seq<LongRow<G>>, c: string)
    requires forall k :: 0 <= k < |df| ==> df[k].country == c
    ensures ByCountry(df, Some([c])) == df
  {
    WhereAll(df, CountryIn([c]));
  }

  /** Two rows in consecutive years: the range of the first year alone keeps the first row. */
  lemma ByYearFirstOfTwo<G(!new)>(a: LongRow<G>, b: LongRow<G>, y: int)
    requires ParseInt(a.year) == Some(y) && ParseInt(b.year) == Some(y + 1)
    ensures ByYear([a, b], Some([y, y])) == Ok([a])
  {
    var m := YearBetween(y, y);
    WhereTwo(a, b, m);
    assert Keeps(m, a) && !Keeps(m, b);
    assert Where([a, b], m) == [a];
    assert AllYearsInt([a, b]);
  }

  /** One country, two consecutive years: the range of the first year alone keeps the first row only. */
  lemma UpdateGraphFirstOfTwo<G(!new)>(a: LongRow<G>, b: LongRow<G>, y: int)
    requires a.country == b.country && ParseInt(a.year) == Some(y) && ParseInt(b.year) == Some(y + 1)
    ensures UpdateGraph([a, b], Some([a.country]), Some([y, y])) == Ok([a])
  {
    ByCountryAll([a, b], a.country);
    ByYearFirstOfTwo(a, b, y);
  }

  /** Selecting Afghanistan over 1800..1800 in that table plots its first row only. */
  lemma AfghanistanSelected()
    ensures var first := LongRow("Afghanistan", "1800", None);
            var second := LongRow("Afghanistan", "1801", Some(Float(1200.0)));
            UpdateGraph([first, second], Some(["Afghanistan"]), Some([1800, 1800])) == Ok([first])
  {
    Labels1800And1801();
    UpdateGraphFirstOfTwo(LongRow("Afghanistan", "1800", None), LongRow("Afghanistan", "1801", Some(Float(1200.0))), 1800);
  }
}
