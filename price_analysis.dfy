/**
 * The monthly aggregation of a daily price table: tag every row with its
 * calendar month, group by that month keeping the first and last Open, and
 * turn each month key into the timestamp of the month's first day.
 */
module PriceAnalysis {

  import opened Wrappers
  import opened Calendar
  import opened Grouping

  /** One daily row: its date (the table's index) and its Open price. */
  datatype DailyRow<V> = DailyRow(date: Date, open: V)

  /** One monthly row: the month's start timestamp and the first and last Open of the month. */
  datatype MonthlyRow<V> = MonthlyRow(yearMonth: Date, first: V, last: V)

  /** Rows strictly ascending by date, as the market data provider delivers them. */
  predicate Chronological<V>(rows: seq<DailyRow<V>>)
  {
    forall i, j :: 0 <= i < j < |rows| ==> DateBefore(rows[i].date, rows[j].date)
  }

  /** The distinct calendar months the rows fall in. */
  function MonthsOf<V>(rows: seq<DailyRow<V>>): set<YearMonth>
  {
    set i | 0 <= i < |rows| :: ToPeriod(rows[i].date)
  }

  /**
   * The YearMonth column: the period of each row's date, row by row. It
   * holds exactly the months of the rows, and on a chronological table it
   * never goes back to an earlier month.
   */
  function YearMonthColumn<V>(rows: seq<DailyRow<V>>): (col: seq<YearMonth>)
    ensures |col| == |rows|
    ensures forall i :: 0 <= i < |rows| ==> col[i] == ToPeriod(rows[i].date)
    ensures (set i | 0 <= i < |col| :: col[i]) == MonthsOf(rows)
    ensures Chronological(rows) ==>
      forall i, j :: 0 <= i < j < |col| ==> col[i] == col[j] || MonthBefore(col[i], col[j])
  {
    var col := seq(|rows|, i requires 0 <= i < |rows| => ToPeriod(rows[i].date));
    assert Chronological(rows) ==>
      forall i, j :: 0 <= i < j < |col| ==> col[i] == col[j] || MonthBefore(col[i], col[j])
    by {
      if Chronological(rows) {
        forall i, j | 0 <= i < j < |col|
          ensures col[i] == col[j] || MonthBefore(col[i], col[j])
        {
          PeriodMonotone(rows[i].date, rows[j].date);
        }
      }
    }
    col
  }

  /** The two columns the aggregation reads, YearMonth and Open, side by side. */
  function Tag<V>(col: seq<YearMonth>, rows: seq<DailyRow<V>>): (s: seq<Tagged<V>>)
    requires |col| == |rows|
  {
    seq(|rows|, i requires 0 <= i < |rows| => Tagged(col[i], rows[i].open))
  }

  function TaggedRows<V>(rows: seq<DailyRow<V>>): seq<Tagged<V>>
  {
    Tag(YearMonthColumn(rows), rows)
  }

  /** The months of the grouping key column are the months of the rows. */
  lemma TaggedKeys<V>(rows: seq<DailyRow<V>>)
    ensures KeySet(TaggedRows(rows)) == MonthsOf(rows)
  {
    var s := TaggedRows(rows);
    forall k | k in KeySet(s) ensures k in MonthsOf(rows) {
      var i := FirstIndex(s, k);
      assert ToPeriod(rows[i].date) == k;
    }
    forall k | k in MonthsOf(rows) ensures k in KeySet(s) {
      var i :| 0 <= i < |rows| && ToPeriod(rows[i].date) == k;
      KeySetContains(s, i);
    }
  }

  /**
   * The month key column of the result, each key replaced by the timestamp
   * read back from its text: the first day of that month. The Open values
   * are carried over unchanged.
   */
  function ToMonthlyRows<V>(groups: seq<Group<V>>): (r: seq<MonthlyRow<V>>)
    ensures |r| == |groups|
    ensures forall j :: 0 <= j < |r| ==>
      ToPeriod(r[j].yearMonth) == groups[j].key && r[j].yearMonth.day == 1 &&
      r[j].first == groups[j].first && r[j].last == groups[j].last
    ensures forall j :: 0 <= j < |r| && 0 <= groups[j].key.year <= 9999 && 1 <= groups[j].key.month <= 12 ==>
      ParseMonthString(PeriodString(groups[j].key)) == Some(r[j].yearMonth)
  {
    var r := seq(|groups|, j requires 0 <= j < |groups| =>
      MonthlyRow(MonthStart(groups[j].key), groups[j].first, groups[j].last));
    assert forall j :: 0 <= j < |r| && 0 <= groups[j].key.year <= 9999 && 1 <= groups[j].key.month <= 12 ==>
      ParseMonthString(PeriodString(groups[j].key)) == Some(r[j].yearMonth)
    by {
      forall j | 0 <= j < |r| && 0 <= groups[j].key.year <= 9999 && 1 <= groups[j].key.month <= 12
        ensures ParseMonthString(PeriodString(groups[j].key)) == Some(r[j].yearMonth)
      {
        MonthStampRoundTrip(groups[j].key);
      }
    }
    r
  }

  /**
   * The monthly table: one row per calendar month present, in ascending
   * month order, each stamped with the first day of its month.
   */
  function MonthlyPrices<V>(rows: seq<DailyRow<V>>): (r: seq<MonthlyRow<V>>)
    ensures |r| == |MonthsOf(rows)|
    ensures r == [] <==> rows == []
    ensures forall j :: 0 <= j < |r| ==>
      r[j].yearMonth.day == 1 && ToPeriod(r[j].yearMonth) in MonthsOf(rows)
    ensures forall i, j :: 0 <= i < j < |r| ==>
      MonthBefore(ToPeriod(r[i].yearMonth), ToPeriod(r[j].yearMonth)) &&
      DateBefore(r[i].yearMonth, r[j].yearMonth)
  {
    TaggedKeys(rows);
    assert rows != [] ==> ToPeriod(rows[0].date) in MonthsOf(rows);
    var groups := GroupFirstLast(TaggedRows(rows));
    var r := ToMonthlyRows(groups);
    assert forall i, j :: 0 <= i < j < |r| ==> DateBefore(r[i].yearMonth, r[j].yearMonth) by {
      forall i, j | 0 <= i < j < |r|
        ensures DateBefore(r[i].yearMonth, r[j].yearMonth)
      {
        MonthStartOrder(groups[i].key, groups[j].key);
      }
    }
    r
  }

  /**
   * The rows behind one monthly row: its first value is the Open of the
   * month's first row in table order, its last value the Open of the month's
   * last row, and no value comes from anywhere else.
   */
  lemma {:induction false} MonthBoundaryRows<V>(rows: seq<DailyRow<V>>, j: nat)
    returns (iFirst: nat, iLast: nat)
    requires j < |MonthlyPrices(rows)|
    ensures iFirst <= iLast < |rows|
    ensures ToPeriod(rows[iFirst].date) == ToPeriod(MonthlyPrices(rows)[j].yearMonth)
    ensures ToPeriod(rows[iLast].date) == ToPeriod(MonthlyPrices(rows)[j].yearMonth)
    ensures MonthlyPrices(rows)[j].first == rows[iFirst].open
    ensures MonthlyPrices(rows)[j].last == rows[iLast].open
    ensures forall h :: 0 <= h < iFirst ==>
      ToPeriod(rows[h].date) != ToPeriod(MonthlyPrices(rows)[j].yearMonth)
    ensures forall h :: iLast < h < |rows| ==>
      ToPeriod(rows[h].date) != ToPeriod(MonthlyPrices(rows)[j].yearMonth)
  {
    var s := TaggedRows(rows);
    var groups := GroupFirstLast(s);
    assert MonthlyPrices(rows) == ToMonthlyRows(groups);
    var k := groups[j].key;
    assert ToPeriod(MonthlyPrices(rows)[j].yearMonth) == k;
    iFirst, iLast := GroupBoundary(s, j);
    forall h | 0 <= h < |rows| ensures s[h].key == ToPeriod(rows[h].date) && s[h].open == rows[h].open {
    }
  }

  /** In a chronological table the first value is the Open of the month's earliest-dated row. */
  lemma FirstIsEarliest<V>(rows: seq<DailyRow<V>>, j: nat, i: nat)
    requires Chronological(rows)
    requires j < |MonthlyPrices(rows)|
    requires i < |rows| && ToPeriod(rows[i].date) == ToPeriod(MonthlyPrices(rows)[j].yearMonth)
    requires forall h :: 0 <= h < |rows| && ToPeriod(rows[h].date) == ToPeriod(rows[i].date) ==>
      !DateBefore(rows[h].date, rows[i].date)
    ensures MonthlyPrices(rows)[j].first == rows[i].open
  {
    var iFirst, iLast := MonthBoundaryRows(rows, j);
    assert iFirst <= i;
    assert !(iFirst < i);
  }

  /** In a chronological table the last value is the Open of the month's latest-dated row. */
  lemma LastIsLatest<V>(rows: seq<DailyRow<V>>, j: nat, i: nat)
    requires Chronological(rows)
    requires j < |MonthlyPrices(rows)|
    requires i < |rows| && ToPeriod(rows[i].date) == ToPeriod(MonthlyPrices(rows)[j].yearMonth)
    requires forall h :: 0 <= h < |rows| && ToPeriod(rows[h].date) == ToPeriod(rows[i].date) ==>
      !DateBefore(rows[i].date, rows[h].date)
    ensures MonthlyPrices(rows)[j].last == rows[i].open
  {
    var iFirst, iLast := MonthBoundaryRows(rows, j);
    assert i <= iLast;
    assert !(i < iLast);
  }

  /** A month with a single row has that row's Open as both its first and its last value. */
  lemma SingleRowMonth<V>(rows: seq<DailyRow<V>>, j: nat, i: nat)
    requires j < |MonthlyPrices(rows)|
    requires i < |rows| && ToPeriod(rows[i].date) == ToPeriod(MonthlyPrices(rows)[j].yearMonth)
    requires forall h :: 0 <= h < |rows| && ToPeriod(rows[h].date) == ToPeriod(rows[i].date) ==> h == i
    ensures MonthlyPrices(rows)[j].first == rows[i].open
    ensures MonthlyPrices(rows)[j].last == rows[i].open
  {
    var iFirst, iLast := MonthBoundaryRows(rows, j);
  }

  /** Every month that has a row appears in the monthly table. */
  lemma MonthCovered<V>(rows: seq<DailyRow<V>>, i: nat) returns (j: nat)
    requires i < |rows|
    ensures j < |MonthlyPrices(rows)|
    ensures ToPeriod(MonthlyPrices(rows)[j].yearMonth) == ToPeriod(rows[i].date)
  {
    var s := TaggedRows(rows);
    KeySetContains(s, i);
    j := GroupCoversKey(s, ToPeriod(rows[i].date));
  }

  /** The monthly table never has two rows for one month. */
  lemma OneRowPerMonth<V>(rows: seq<DailyRow<V>>, j1: nat, j2: nat)
    requires j1 < |MonthlyPrices(rows)| && j2 < |MonthlyPrices(rows)|
    requires ToPeriod(MonthlyPrices(rows)[j1].yearMonth) == ToPeriod(MonthlyPrices(rows)[j2].yearMonth)
    ensures j1 == j2
  {
  }

  /** Stamps of a table of real dates are real dates too. */
  lemma StampsAreValid<V>(rows: seq<DailyRow<V>>, j: nat)
    requires forall i :: 0 <= i < |rows| ==> ValidDate(rows[i].date)
    requires j < |MonthlyPrices(rows)|
    ensures ValidDate(MonthlyPrices(rows)[j].yearMonth)
  {
    var r := MonthlyPrices(rows);
    var i :| 0 <= i < |rows| && ToPeriod(rows[i].date) == ToPeriod(r[j].yearMonth);
  }

  /**
   * Each stamp is what `to_datetime` reads from the text of the month's
   * period, for the four-digit years a timestamp can have.
   */
  lemma StampsFromText<V>(rows: seq<DailyRow<V>>, j: nat)
    requires forall i :: 0 <= i < |rows| ==> ValidDate(rows[i].date) && 0 <= rows[i].date.year <= 9999
    requires j < |MonthlyPrices(rows)|
    ensures ParseMonthString(PeriodString(ToPeriod(MonthlyPrices(rows)[j].yearMonth)))
         == Some(MonthlyPrices(rows)[j].yearMonth)
  {
  }

  /**
   * Row order, not date order, decides `first`: the same two January rows
   * in the two orders give different first values when their Opens differ.
   */
  lemma RowOrderDecidesFirst<V>(a: V, b: V)
    requires a != b
    ensures MonthlyPrices([DailyRow(Date(2024, 1, 31), a), DailyRow(Date(2024, 1, 2), b)])[0].first == a
    ensures MonthlyPrices([DailyRow(Date(2024, 1, 2), b), DailyRow(Date(2024, 1, 31), a)])[0].first == b
    ensures MonthlyPrices([DailyRow(Date(2024, 1, 31), a), DailyRow(Date(2024, 1, 2), b)])
         != MonthlyPrices([DailyRow(Date(2024, 1, 2), b), DailyRow(Date(2024, 1, 31), a)])
  {
  }

  // ---------------------------------------------------------------------------
  // The table as the caller holds it: the aggregation adds a column to it.

  /** A daily price table whose YearMonth column may be added later. */
  class DailyFrame<V> {
    var rows: seq<DailyRow<V>>
    var yearMonth: Option<seq<YearMonth>>

    constructor (rows: seq<DailyRow<V>>)
      ensures this.rows == rows && yearMonth == None
    {
      this.rows := rows;
      yearMonth := None;
    }
  }

  /**
   * `extract_monthly_prices`: stores the YearMonth column into the caller's
   * table, leaving its rows as they were, and returns the monthly table.
   */
  method ExtractMonthlyPrices<V>(data: DailyFrame<V>) returns (monthly: seq<MonthlyRow<V>>)
    modifies data
    ensures data.rows == old(data.rows)
    ensures data.yearMonth == Some(YearMonthColumn(data.rows))
    ensures monthly == MonthlyPrices(data.rows)
  {
    data.yearMonth := Some(YearMonthColumn(data.rows));
    var groups := GroupFirstLast(Tag(data.yearMonth.value, data.rows));
    monthly := ToMonthlyRows(groups);
  }

  // ---------------------------------------------------------------------------
  // Worked cases.

  /** A single row on 2021-06-15 with Open 50 gives one June 2021 row with first and last 50. */
  lemma SingleDayScenario()
    ensures MonthlyPrices([DailyRow(Date(2021, 6, 15), 50)]) == [MonthlyRow(Date(2021, 6, 1), 50, 50)]
  {
  }

  /**
   * Opens a and b on two January days and c and d on two February days give
   * a January row (a, b) followed by a February row (c, d); the general
   * properties alone pin this table down.
   */
  lemma TwoMonthScenario<V>(a: V, b: V, c: V, d: V)
    ensures MonthlyPrices([DailyRow(Date(2024, 1, 30), a), DailyRow(Date(2024, 1, 31), b),
                           DailyRow(Date(2024, 2, 1), c), DailyRow(Date(2024, 2, 29), d)])
         == [MonthlyRow(Date(2024, 1, 1), a, b), MonthlyRow(Date(2024, 2, 1), c, d)]
  {
    TwoMonthTable([DailyRow(Date(2024, 1, 30), a), DailyRow(Date(2024, 1, 31), b),
                   DailyRow(Date(2024, 2, 1), c), DailyRow(Date(2024, 2, 29), d)], a, b, c, d);
  }

  lemma TwoMonthTable<V>(rows: seq<DailyRow<V>>, a: V, b: V, c: V, d: V)
    requires |rows| == 4
    requires rows[0] == DailyRow(Date(2024, 1, 30), a) && rows[1] == DailyRow(Date(2024, 1, 31), b)
    requires rows[2] == DailyRow(Date(2024, 2, 1), c) && rows[3] == DailyRow(Date(2024, 2, 29), d)
    ensures MonthlyPrices(rows) == [MonthlyRow(Date(2024, 1, 1), a, b), MonthlyRow(Date(2024, 2, 1), c, d)]
  {
    TwoMonthStamps(rows);
    assert Chronological(rows);
    FirstIsEarliest(rows, 0, 0);
    LastIsLatest(rows, 0, 1);
    FirstIsEarliest(rows, 1, 2);
    LastIsLatest(rows, 1, 3);
  }

  lemma TwoMonthStamps<V>(rows: seq<DailyRow<V>>)
    requires |rows| == 4
    requires ToPeriod(rows[0].date) == ToPeriod(rows[1].date) == YearMonth(2024, 1)
    requires ToPeriod(rows[2].date) == ToPeriod(rows[3].date) == YearMonth(2024, 2)
    ensures |MonthlyPrices(rows)| == 2
    ensures MonthlyPrices(rows)[0].yearMonth == Date(2024, 1, 1)
    ensures MonthlyPrices(rows)[1].yearMonth == Date(2024, 2, 1)
  {
    var jan, feb := YearMonth(2024, 1), YearMonth(2024, 2);
    assert MonthsOf(rows) == {jan, feb};
    var r := MonthlyPrices(rows);
    assert MonthBefore(ToPeriod(r[0].yearMonth), ToPeriod(r[1].yearMonth));
  }
}
