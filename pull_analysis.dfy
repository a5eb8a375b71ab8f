/**
 * The summary printed by the analysis script when pandas is not installed:
 * the latest row, a 7-day average per series, and the change against the
 * last row at least 365 days older. Dates are day numbers; `load_data`
 * returns the rows sorted by date, and dates are unique because the date is
 * the table's primary key.
 */
module PullAnalysis {
  import opened Wrappers
  import opened Store
  import opened Stats

  /** One row as `load_data` returns it, with its date as a day number. */
  datatype Record = Record(day: int, values: Row)

  /** Why `summarize` raises. */
  datatype Error =
    | ZeroDivision(series: Series)  // a week average over no values
    | NoneOperand(series: Series)   // `None - x` in a year-over-year change

  datatype Summary =
    | NoData  // 'No data found'
    | Report(latest: Record, weekAverage: PerSeries<Option<real>>, yearOverYear: Option<PerSeries<Option<real>>>)

  /** The window starts this many days before the latest date. */
  const WeekSpan: int := 6
  /** The comparison row is at least this many days older than the latest. */
  const YearSpan: int := 365

  /** What `rows.sort(key=date)` leaves over distinct dates. */
  predicate Ascending(data: seq<Record>) {
    forall i, j :: 0 <= i < j < |data| ==> data[i].day < data[j].day
  }

  /** The rows dated `from` or later, in order. */
  function Since(data: seq<Record>, from: int): (r: seq<Record>)
    ensures |r| <= |data|
    ensures forall i :: 0 <= i < |r| ==> r[i].day >= from
  {
    if data == [] then []
    else (if data[0].day >= from then [data[0]] else []) + Since(data[1..], from)
  }

  /** The rows dated `upTo` or earlier, in order. */
  function Until(data: seq<Record>, upTo: int): (r: seq<Record>)
    ensures |r| <= |data|
    ensures forall i :: 0 <= i < |r| ==> r[i].day <= upTo
  {
    if data == [] then []
    else (if data[0].day <= upTo then [data[0]] else []) + Until(data[1..], upTo)
  }

  /** The rows of `data` from `from` on, in their order. */
  lemma {:induction false} SinceMembers(data: seq<Record>, from: int)
    ensures forall r :: r in Since(data, from) <==> r in data && r.day >= from
    ensures Ascending(data) ==> Ascending(Since(data, from))
  {
    if data != [] {
      SinceMembers(data[1..], from);
      assert forall r :: r in data <==> r == data[0] || r in data[1..];
      if Ascending(data) {
        assert forall r :: r in data[1..] ==> data[0].day < r.day;
      }
    }
  }

  /** A list dated entirely from `from` on is kept whole. */
  lemma {:induction false} SinceKeepsAll(data: seq<Record>, from: int)
    requires forall i :: 0 <= i < |data| ==> data[i].day >= from
    ensures Since(data, from) == data
  {
    if data != [] {
      SinceKeepsAll(data[1..], from);
      assert [data[0]] + data[1..] == data;
    }
  }

  /** When only the first row of an ascending history is older than the window, the week is the rest. */
  lemma WeekAfterFirst(data: seq<Record>)
    requires Ascending(data) && |data| >= 2
    requires data[0].day < Latest(data).day - WeekSpan <= data[1].day
    ensures Week(data) == data[1..]
  {
    var from := Latest(data).day - WeekSpan;
    assert forall i :: 0 <= i < |data[1..]| ==> data[1..][i].day >= from by {
      forall i | 0 <= i < |data[1..]|
        ensures data[1..][i].day >= from
      {
        if i > 0 {
          assert data[1].day < data[i + 1].day;
        }
      }
    }
    SinceKeepsAll(data[1..], from);
  }

  /** The rows of `data` up to `upTo`, in their order. */
  lemma {:induction false} UntilMembers(data: seq<Record>, upTo: int)
    ensures forall r :: r in Until(data, upTo) <==> r in data && r.day <= upTo
    ensures Ascending(data) ==> Ascending(Until(data, upTo))
  {
    if data != [] {
      UntilMembers(data[1..], upTo);
      assert forall r :: r in data <==> r == data[0] || r in data[1..];
      if Ascending(data) {
        assert forall r :: r in data[1..] ==> data[0].day < r.day;
      }
    }
  }

  /** Today's row, the last one: the row with the greatest date. */
  function Latest(data: seq<Record>): (r: Record)
    requires data != []
    ensures r in data
    ensures Ascending(data) ==> forall i :: 0 <= i < |data| ==> data[i].day <= r.day
  {
    data[|data| - 1]
  }

  /** `week_data`: the rows no more than six days older than the latest. */
  function Week(data: seq<Record>): (w: seq<Record>)
    requires data != []
    ensures forall r :: r in w <==> r in data && r.day >= Latest(data).day - WeekSpan
    ensures Ascending(data) ==> Ascending(w)
  {
    SinceMembers(data, Latest(data).day - WeekSpan);
    Since(data, Latest(data).day - WeekSpan)
  }

  /**
   * The week window holds exactly the rows dated `latest - 6` or later and
   * is never empty, since the latest row is in it; so `if week_data:` is
   * always taken.
   */
  lemma WeekContainsLatest(data: seq<Record>)
    requires data != []
    ensures forall r :: r in Week(data) <==> r in data && r.day >= Latest(data).day - WeekSpan
    ensures Latest(data) in Week(data)
  {
    SinceMembers(data, Latest(data).day - WeekSpan);
  }

  /** The non-NULL values of the column of `s` in `rows`, in order. */
  function Present(rows: seq<Record>, s: Series): (p: seq<real>)
    ensures |p| <= |rows|
  {
    if rows == [] then []
    else (match rows[0].values.At(s) case Some(x) => [x] case None => []) + Present(rows[1..], s)
  }

  /** The values a column holds, skipping NULLs; none at all exactly when every slot is NULL. */
  lemma {:induction false} PresentMembers(rows: seq<Record>, s: Series)
    ensures forall x :: x in Present(rows, s) <==> exists r :: r in rows && r.values.At(s) == Some(x)
    ensures Present(rows, s) == [] <==> forall r :: r in rows ==> r.values.At(s) == None
  {
    if rows != [] {
      PresentMembers(rows[1..], s);
      assert forall r :: r in rows <==> r == rows[0] || r in rows[1..];
    }
  }

  /** The positions of the rows that have a value for `s`, in order. */
  function PresentIndices(rows: seq<Record>, s: Series): seq<int>
  {
    if rows == [] then []
    else
      var shifted := Shift(PresentIndices(rows[1..], s));
      if rows[0].values.At(s).Some? then [0] + shifted else shifted
  }

  /**
   * `Present` lists one value per row that has one: entry `k` is the value of
   * row `PresentIndices(rows, s)[k]`.
   */
  lemma {:induction false} PresentIndicesValues(rows: seq<Record>, s: Series)
    ensures |PresentIndices(rows, s)| == |Present(rows, s)|
    ensures forall k :: 0 <= k < |PresentIndices(rows, s)| ==>
      0 <= PresentIndices(rows, s)[k] < |rows| &&
      rows[PresentIndices(rows, s)[k]].values.At(s) == Some(Present(rows, s)[k])
  {
    if rows != [] {
      var tail := rows[1..];
      PresentIndicesValues(tail, s);
      var rest := PresentIndices(tail, s);
      var shifted := Shift(rest);
      var p := Present(tail, s);
      if rows[0].values.At(s).Some? {
        var x := rows[0].values.At(s).value;
        var idx := [0] + shifted;
        assert Present(rows, s) == [x] + p;
        assert idx == PresentIndices(rows, s);
        forall k | 0 < k < |idx|
          ensures 0 <= idx[k] < |rows| && rows[idx[k]].values.At(s) == Some(([x] + p)[k])
        {
          var j := rest[k - 1];
          assert idx[k] == j + 1;
          assert rows[j + 1] == tail[j];
          assert ([x] + p)[k] == p[k - 1];
        }
      } else {
        assert Present(rows, s) == p;
        assert shifted == PresentIndices(rows, s);
        forall k | 0 <= k < |shifted|
          ensures 0 <= shifted[k] < |rows| && rows[shifted[k]].values.At(s) == Some(p[k])
        {
          assert rows[rest[k] + 1] == tail[rest[k]];
        }
      }
    }
  }

  /** Those rows are taken in their order, each at most once. */
  lemma {:induction false} PresentIndicesOrdered(rows: seq<Record>, s: Series)
    ensures forall k :: 0 <= k < |PresentIndices(rows, s)| ==> 0 <= PresentIndices(rows, s)[k] < |rows|
    ensures forall k, l :: 0 <= k < l < |PresentIndices(rows, s)| ==> PresentIndices(rows, s)[k] < PresentIndices(rows, s)[l]
  {
    if rows != [] {
      var tail := rows[1..];
      PresentIndicesOrdered(tail, s);
      var rest := PresentIndices(tail, s);
      var shifted := Shift(rest);
      forall k | 0 <= k < |shifted|
        ensures 1 <= shifted[k] < |rows|
      {
        assert shifted[k] == rest[k] + 1 && 0 <= rest[k] < |tail|;
      }
      if rows[0].values.At(s).Some? {
        var idx := [0] + shifted;
        assert idx == PresentIndices(rows, s);
        assert forall k :: 0 < k < |idx| ==> idx[k] == shifted[k - 1];
      } else {
        assert shifted == PresentIndices(rows, s);
      }
    }
  }

  /** Every row with a value for `s` is among them. */
  lemma {:induction false} PresentIndicesCover(rows: seq<Record>, s: Series)
    ensures forall i :: 0 <= i < |rows| && rows[i].values.At(s).Some? ==> i in PresentIndices(rows, s)
  {
    if rows != [] {
      var tail := rows[1..];
      PresentIndicesCover(tail, s);
      var rest := PresentIndices(tail, s);
      var shifted := Shift(rest);
      forall i | 1 <= i < |rows| && rows[i].values.At(s).Some?
        ensures i in shifted
      {
        assert tail[i - 1] == rows[i];
        var k :| 0 <= k < |rest| && rest[k] == i - 1;
        assert shifted[k] == i;
      }
    }
  }

  /** Each index one further on. */
  function Shift(idx: seq<int>): (r: seq<int>)
    ensures |r| == |idx| && forall k :: 0 <= k < |idx| ==> r[k] == idx[k] + 1
  {
    seq(|idx|, k requires 0 <= k < |idx| => idx[k] + 1)
  }

  /**
   * Collecting the values is a filter: it distributes over concatenation, so
   * each row contributes its own value once, in row order.
   */
  lemma {:induction false} PresentAppend(a: seq<Record>, b: seq<Record>, s: Series)
    ensures Present(a + b, s) == Present(a, s) + Present(b, s)
  {
    if a != [] {
      assert (a + b)[0] == a[0] && (a + b)[1..] == a[1..] + b;
      PresentAppend(a[1..], b, s);
      var head := match a[0].values.At(s) case Some(x) => [x] case None => [];
      assert Present(a, s) == head + Present(a[1..], s);
      assert Present(a + b, s) == head + Present(a[1..] + b, s);
    } else {
      assert a + b == b;
    }
  }

  /** A column with a value in every row yields one value per row. */
  lemma {:induction false} PresentFull(rows: seq<Record>, s: Series)
    requires forall i :: 0 <= i < |rows| ==> rows[i].values.At(s).Some?
    ensures |Present(rows, s)| == |rows|
    ensures forall i :: 0 <= i < |rows| ==> Present(rows, s)[i] == rows[i].values.At(s).value
  {
    if rows != [] {
      PresentFull(rows[1..], s);
    }
  }

  /**
   * One `avg_*` line as written: the mean of the column's non-NULL values in
   * `rows`, dividing by zero when there are none.
   */
  function Average(rows: seq<Record>, s: Series): (r: Result<real, Error>)
    ensures r.Err? <==> Present(rows, s) == []
    ensures r.Err? ==> r.error == ZeroDivision(s)
    ensures r.Ok? ==> r.value == Mean(Present(rows, s))
    ensures r.Ok? ==> Lowest(Present(rows, s)) <= r.value <= Highest(Present(rows, s))
  {
    var xs := Present(rows, s);
    if xs == [] then Err(ZeroDivision(s))
    else
      MeanBounds(xs);
      Ok(Mean(xs))
  }

  /** A week average is the sum of the series' values divided by how many there are. */
  lemma AverageIsSumOverCount(rows: seq<Record>, s: Series)
    ensures Average(rows, s).Ok? ==>
      Average(rows, s).value == Sum(Present(rows, s)) / (|Present(rows, s)| as real)
  {
  }


  /** The week average with the missing guard: absent when the column has no value. */
  function AverageOrAbsent(rows: seq<Record>, s: Series): (r: Option<real>)
    ensures r.None? <==> forall row :: row in rows ==> row.values.At(s) == None
    ensures r.None? <==> Present(rows, s) == []
    ensures r.Some? ==> r.value == Mean(Present(rows, s))
    ensures r.Some? ==> Lowest(Present(rows, s)) <= r.value <= Highest(Present(rows, s))
  {
    PresentMembers(rows, s);
    var xs := Present(rows, s);
    if xs == [] then None
    else
      MeanBounds(xs);
      Some(Mean(xs))
  }

  /**
   * The comparison row: the last row dated `today - 365`
   * or earlier; over sorted rows that is the one with the greatest such
   * date, the nearest prior observation rather than an exact match.
   */
  function YearAgo(data: seq<Record>, today: int): (r: Option<Record>)
    ensures r.None? <==> forall i :: 0 <= i < |data| ==> data[i].day > today - YearSpan
    ensures r.Some? ==> r.value in data && r.value.day <= today - YearSpan
    ensures r.Some? && Ascending(data) ==>
      forall i :: 0 <= i < |data| && data[i].day <= today - YearSpan ==> data[i].day <= r.value.day
  {
    var prior := Until(data, today - YearSpan);
    UntilMembers(data, today - YearSpan);
    assert forall i :: 0 <= i < |data| ==> data[i] in data;
    if prior == [] then None
    else
      assert forall r :: r in prior ==> exists k :: 0 <= k < |prior| && prior[k] == r;
      Some(prior[|prior| - 1])
  }

  /** Adding `pct` percent to `base` gives `to`. */
  predicate Grows(base: real, pct: real, to: real) {
    base * (1.0 + pct / 100.0) == to
  }

  /**
   * One `yoy_*` line as written: the percentage change from `ago` to `today`,
   * or None when `ago` is falsy (None or zero).
   * A NULL or zero comparison value gives no change; a NULL today against a
   * usable comparison value raises on `None - ago`.
   */
  function Change(today: Option<real>, ago: Option<real>, s: Series): (r: Result<Option<real>, Error>)
    ensures ago.None? || ago == Some(0.0) ==> r == Ok(None)
    ensures ago.Some? && ago.value != 0.0 ==> (r.Err? <==> today.None?)
    ensures today.Some? && ago.Some? && ago.value != 0.0 ==> r.Ok? && r.value.Some?
    ensures r.Err? ==> r.error == NoneOperand(s)
    ensures r.Ok? && r.value.Some? ==> today.Some? && ago.Some? && Grows(ago.value, r.value.value, today.value)
  {
    if ago.None? || ago.value == 0.0 then Ok(None)
    else if today.None? then Err(NoneOperand(s))
    else Ok(Some((today.value - ago.value) / ago.value * 100.0))
  }

  /** Against a positive comparison value the change has the sign of `today - ago`. */
  lemma ChangeSign(today: real, ago: real, s: Series)
    requires ago > 0.0
    ensures Change(Some(today), Some(ago), s).Ok?
    ensures var c := Change(Some(today), Some(ago), s).value;
      && c.Some?
      && (c.value > 0.0 <==> today > ago)
      && (c.value == 0.0 <==> today == ago)
      && (c.value < 0.0 <==> today < ago)
  {
    var q := (today - ago) / ago;
    assert q * ago == today - ago;
  }

  /** The change with the missing guard: absent when either value is NULL or the comparison is zero. */
  function ChangeOrAbsent(today: Option<real>, ago: Option<real>): (r: Option<real>)
    ensures r.None? <==> today.None? || ago.None? || ago.value == 0.0
    ensures r.Some? ==> Grows(ago.value, r.value, today.value)
    ensures forall s :: Change(today, ago, s).Ok? ==> Change(today, ago, s).value == r
  {
    if today.None? || ago.None? || ago.value == 0.0 then None
    else Some((today.value - ago.value) / ago.value * 100.0)
  }

  /** The three `avg_*` lines as written, in order. */
  function WeekAverages(week: seq<Record>): (r: Result<PerSeries<Option<real>>, Error>)
    ensures r.Err? <==> Present(week, EurUsd) == [] || Present(week, Sp500) == [] || Present(week, Treasury) == []
    ensures r.Err? ==> r.error.ZeroDivision? && Present(week, r.error.series) == []
    ensures r.Ok? ==> forall s :: r.value.At(s).Some? && Average(week, s) == Ok(r.value.At(s).value)
  {
    var fx :- Average(week, EurUsd);
    var sp :- Average(week, Sp500);
    var ts :- Average(week, Treasury);
    assert forall s: Series :: s.EurUsd? || s.Sp500? || s.Treasury?;
    Ok(PerSeries(Some(fx), Some(sp), Some(ts)))
  }

  /** The three `yoy_*` lines as written, in order. */
  function YearOverYear(latest: Row, ago: Row): (r: Result<PerSeries<Option<real>>, Error>)
    ensures r.Err? ==> r.error.NoneOperand? && latest.At(r.error.series) == None
    ensures r.Err? <==> exists s :: latest.At(s).None? && ago.At(s).Some? && ago.At(s).value != 0.0
    ensures r.Ok? ==> forall s :: Change(latest.At(s), ago.At(s), s) == Ok(r.value.At(s))
  {
    var fx :- Change(latest.eurusd, ago.eurusd, EurUsd);
    var sp :- Change(latest.sp500, ago.sp500, Sp500);
    var ts :- Change(latest.treasury, ago.treasury, Treasury);
    Ok(PerSeries(fx, sp, ts))
  }

  /** `summarize` as written: the first of the six lines that raises decides the error. */
  function Summarize(data: seq<Record>): (r: Result<Summary, Error>)
    ensures data == [] <==> r == Ok(NoData)
    ensures r.Ok? && r.value.Report? ==> data != [] && r.value.latest == Latest(data)
  {
    if data == [] then Ok(NoData)
    else
      var latest := Latest(data);
      var averages :- WeekAverages(Week(data));
      match YearAgo(data, latest.day)
      case None => Ok(Report(latest, averages, None))
      case Some(ago) =>
        var changes :- YearOverYear(latest.values, ago.values);
        Ok(Report(latest, averages, Some(changes)))
  }

  /**
   * `summarize` as written divides by zero exactly when some series has no
   * value in the week, and names such a series.
   */
  lemma SummarizeDividesByZero(data: seq<Record>)
    requires data != []
    ensures var r := Summarize(data);
      (r.Err? && r.error.ZeroDivision?) <==> exists s :: Present(Week(data), s) == []
    ensures var r := Summarize(data);
      r.Err? && r.error.ZeroDivision? ==> Present(Week(data), r.error.series) == []
  {
    var week := Week(data);
    var latest := Latest(data);
    var averages := WeekAverages(week);
    assert (exists s :: Present(week, s) == []) <==>
           Present(week, EurUsd) == [] || Present(week, Sp500) == [] || Present(week, Treasury) == [];
    if averages.Err? {
      assert Summarize(data) == Err(averages.error);
    } else if YearAgo(data, latest.day).None? {
      assert Summarize(data) == Ok(Report(latest, averages.value, None));
    } else {
      var changes := YearOverYear(latest.values, YearAgo(data, latest.day).value.values);
      assert Summarize(data) == if changes.Err? then Err(changes.error)
                                else Ok(Report(latest, averages.value, Some(changes.value)));
    }
  }

  /**
   * Otherwise it raises on `None - x` exactly when a year-old row exists,
   * some series is NULL today and that row's value for it is usable (not
   * NULL, not zero); the series named is NULL today.
   */
  lemma SummarizeSubtractsNone(data: seq<Record>)
    requires data != []
    ensures var r := Summarize(data); var ago := YearAgo(data, Latest(data).day);
      (r.Err? && r.error.NoneOperand?) <==>
        && (forall s :: Present(Week(data), s) != [])
        && ago.Some?
        && exists s :: Latest(data).values.At(s).None? && ago.value.values.At(s).Some? &&
                       ago.value.values.At(s).value != 0.0
    ensures var r := Summarize(data);
      r.Err? && r.error.NoneOperand? ==> Latest(data).values.At(r.error.series) == None
  {
    var week := Week(data);
    var latest := Latest(data);
    var averages := WeekAverages(week);
    assert (forall s :: Present(week, s) != []) <==>
           Present(week, EurUsd) != [] && Present(week, Sp500) != [] && Present(week, Treasury) != [];
    if averages.Err? {
      assert Summarize(data) == Err(averages.error);
    } else if YearAgo(data, latest.day).None? {
      assert Summarize(data) == Ok(Report(latest, averages.value, None));
    } else {
      var changes := YearOverYear(latest.values, YearAgo(data, latest.day).value.values);
      assert Summarize(data) == if changes.Err? then Err(changes.error)
                                else Ok(Report(latest, averages.value, Some(changes.value)));
    }
  }

  /**
   * What a report of `summarize` as written holds: each week average is the
   * mean of that series' values in the week, the year-over-year part is
   * present exactly when a row is at least a year older than the latest,
   * and then each change is the one against that year-old row.
   */
  lemma SummarizeReports(data: seq<Record>)
    requires Summarize(data).Ok? && Summarize(data).value.Report?
    ensures var r := Summarize(data).value;
      forall s :: r.weekAverage.At(s).Some? && Average(Week(data), s) == Ok(r.weekAverage.At(s).value)
    ensures var r := Summarize(data).value;
      r.yearOverYear.None? <==> forall i :: 0 <= i < |data| ==> data[i].day > Latest(data).day - YearSpan
    ensures var r := Summarize(data).value; var ago := YearAgo(data, Latest(data).day);
      r.yearOverYear.Some? ==>
        ago.Some? &&
        forall s :: Change(Latest(data).values.At(s), ago.value.values.At(s), s) == Ok(r.yearOverYear.value.At(s))
  {
  }

  /** The three week averages with the missing guard. */
  function AveragesOrAbsent(week: seq<Record>): (a: PerSeries<Option<real>>)
    ensures forall s :: a.At(s) == AverageOrAbsent(week, s)
  {
    PerSeries(AverageOrAbsent(week, EurUsd), AverageOrAbsent(week, Sp500), AverageOrAbsent(week, Treasury))
  }

  /** `summarize` with both missing guards: it never raises. */
  function SummarizeGuarded(data: seq<Record>): (r: Summary)
    ensures data == [] <==> r == NoData
    ensures r.Report? ==> data != [] && r.latest == Latest(data)
  {
    if data == [] then NoData
    else
      var latest := Latest(data);
      var averages := AveragesOrAbsent(Week(data));
      match YearAgo(data, latest.day)
      case None => Report(latest, averages, None)
      case Some(ago) =>
        Report(latest, averages, Some(PerSeries(
          ChangeOrAbsent(latest.values.eurusd, ago.values.eurusd),
          ChangeOrAbsent(latest.values.sp500, ago.values.sp500),
          ChangeOrAbsent(latest.values.treasury, ago.values.treasury))))
  }

  /** The guarded `summarize` always reports, with the week averages that skip an empty series. */
  lemma SummarizeGuardedReports(data: seq<Record>)
    requires data != []
    ensures SummarizeGuarded(data).Report?
    ensures var r := SummarizeGuarded(data);
      forall s :: r.weekAverage.At(s) == AverageOrAbsent(Week(data), s)
  {
    var latest := Latest(data);
    var averages := AveragesOrAbsent(Week(data));
    match YearAgo(data, latest.day)
    case None =>
      assert SummarizeGuarded(data).weekAverage == averages;
    case Some(ago) =>
      assert SummarizeGuarded(data).weekAverage == averages;
  }

  /** Its year-over-year part is absent exactly when no row is a year old. */
  lemma SummarizeGuardedNoYear(data: seq<Record>)
    requires data != []
    ensures var r := SummarizeGuarded(data);
      r.Report? && (r.yearOverYear.None? <==> forall i :: 0 <= i < |data| ==> data[i].day > Latest(data).day - YearSpan)
  {
    var latest := Latest(data);
    if YearAgo(data, latest.day).None? {
      assert SummarizeGuarded(data).yearOverYear.None?;
    } else {
      assert SummarizeGuarded(data).yearOverYear.Some?;
    }
  }

  /** Otherwise it holds the change of each series, absent where it cannot be computed. */
  lemma SummarizeGuardedChanges(data: seq<Record>)
    requires data != []
    ensures var r := SummarizeGuarded(data); var ago := YearAgo(data, Latest(data).day);
      r.Report? && r.yearOverYear.Some? ==>
        ago.Some? &&
        forall s :: r.yearOverYear.value.At(s) == ChangeOrAbsent(Latest(data).values.At(s), ago.value.values.At(s))
  {
    var latest := Latest(data);
    var ago := YearAgo(data, latest.day);
    if ago.Some? {
      var changes := PerSeries(
        ChangeOrAbsent(latest.values.eurusd, ago.value.values.eurusd),
        ChangeOrAbsent(latest.values.sp500, ago.value.values.sp500),
        ChangeOrAbsent(latest.values.treasury, ago.value.values.treasury));
      assert SummarizeGuarded(data).yearOverYear == Some(changes);
      forall s ensures changes.At(s) == ChangeOrAbsent(latest.values.At(s), ago.value.values.At(s)) {
        match s
        case EurUsd =>
        case Sp500 =>
        case Treasury =>
      }
    }
  }



  lemma WeekAveragesAgree(week: seq<Record>)
    requires WeekAverages(week).Ok?
    ensures WeekAverages(week).value ==
      PerSeries(AverageOrAbsent(week, EurUsd), AverageOrAbsent(week, Sp500), AverageOrAbsent(week, Treasury))
  {
  }

  lemma YearOverYearAgrees(latest: Row, ago: Row)
    requires YearOverYear(latest, ago).Ok?
    ensures YearOverYear(latest, ago).value == PerSeries(
      ChangeOrAbsent(latest.eurusd, ago.eurusd),
      ChangeOrAbsent(latest.sp500, ago.sp500),
      ChangeOrAbsent(latest.treasury, ago.treasury))
  {
    var r := YearOverYear(latest, ago).value;
    assert r.At(EurUsd) == ChangeOrAbsent(latest.At(EurUsd), ago.At(EurUsd));
    assert r.At(Sp500) == ChangeOrAbsent(latest.At(Sp500), ago.At(Sp500));
    assert r.At(Treasury) == ChangeOrAbsent(latest.At(Treasury), ago.At(Treasury));
  }

  /** Wherever the script as written succeeds, the guarded summary reports the same. */
  lemma GuardedAgreesWhereWrittenSucceeds(data: seq<Record>)
    requires Summarize(data).Ok?
    ensures SummarizeGuarded(data) == Summarize(data).value
  {
    if data != [] {
      WeekAveragesAgree(Week(data));
      var latest := Latest(data);
      match YearAgo(data, latest.day)
      case None =>
      case Some(ago) =>
        YearOverYearAgrees(latest.values, ago.values);
    }
  }

  /**
   * A week in which one series has no value makes the script as written
   * raise ZeroDivisionError; the guarded summary reports that average as absent.
   */
  lemma WeekWithoutSp500Raises()
    ensures var data := [Record(0, PerSeries(Some(1.1), None, Some(4.0)))];
      && Summarize(data) == Err(ZeroDivision(Sp500))
      && SummarizeGuarded(data).weekAverage.sp500 == None
  {
    var data := [Record(0, PerSeries(Some(1.1), None, Some(4.0)))];
    assert data[1..] == [];
    assert Latest(data).day - WeekSpan == -6;
    assert Since(data, -6) == data;
    assert Present(data, EurUsd) == [1.1];
    assert Present(data, Sp500) == [];
    assert Average(data, EurUsd).Ok?;
    assert WeekAverages(data) == Err(ZeroDivision(Sp500));
  }

  /** Three days of history whose latest row has no SP500 value and whose first is a year older. */
  function GapHistory(): (data: seq<Record>)
    ensures |data| == 3 && Ascending(data)
    ensures Latest(data).values.sp500 == None
  {
    [Record(0, PerSeries(Some(1.0), Some(400.0), Some(4.0))),
     Record(398, PerSeries(Some(1.1), Some(500.0), Some(4.2))),
     Record(400, PerSeries(Some(1.2), None, Some(4.1)))]
  }

  /** Over `GapHistory` the year-ago row is the first one, and the week holds the other two. */
  lemma GapHistoryWindows()
    ensures Week(GapHistory()) == GapHistory()[1..]
    ensures YearAgo(GapHistory(), 400) == Some(GapHistory()[0])
  {
    var data := GapHistory();
    assert data[0].day == 0 && data[1].day == 398 && data[2].day == 400;
    assert data[1..][1..][1..] == [];
    assert Since(data, 394) == data[1..];
    assert Until(data[1..][1..], 35) == [];
    assert Until(data[1..], 35) == [];
    assert Until(data, 35) == data[..1];
  }

  /**
   * A latest row without an SP500 value (an empty daily series) against a
   * year-old row with one makes the script as written raise TypeError.
   */
  lemma AbsentTodayInChangeRaises()
    ensures Summarize(GapHistory()) == Err(NoneOperand(Sp500))
  {
    var data := GapHistory();
    GapHistoryWindows();
    var week := data[1..];
    assert Present(week, EurUsd) != [] && Present(week, Sp500) != [] && Present(week, Treasury) != [];
    assert WeekAverages(week).Ok?;
    assert YearOverYear(data[2].values, data[0].values) == Err(NoneOperand(Sp500));
  }

  /** Over the same history the guarded summary reports the SP500 change as absent. */
  lemma AbsentTodayGuardedIsAbsent()
    ensures SummarizeGuarded(GapHistory()).yearOverYear.Some?
    ensures SummarizeGuarded(GapHistory()).yearOverYear.value.sp500 == None
  {
    GapHistoryWindows();
  }

  /**
   * A history with an old row outside the window and a week in which the FX
   * rate is NULL on four of seven days.
   */
  function SkipHistory(): (data: seq<Record>)
    ensures |data| == 8 && Ascending(data)
    ensures Latest(data).day == 16
  {
    var none := PerSeries(None, None, None);
    [Record(0, PerSeries(Some(100.0), None, None)),
     Record(10, PerSeries(Some(1.0), None, None)), Record(11, none),
     Record(12, PerSeries(Some(3.0), None, None)), Record(13, none),
     Record(14, PerSeries(Some(5.0), None, None)), Record(15, none), Record(16, none)]
  }

  /** The week of that history drops the old row. */
  lemma SkipHistoryWeek()
    ensures Week(SkipHistory()) == SkipHistory()[1..]
  {
    var data := SkipHistory();
    assert data[0].day == 0 && data[1].day == 10;
    WeekAfterFirst(data);
  }

  /** The FX values 1, NULL, 3, NULL, 5, NULL, NULL average to 3. */
  lemma SkipWeekAverage()
    ensures Average(SkipHistory()[1..], EurUsd) == Ok(3.0)
  {
    var week := SkipHistory()[1..];
    assert week[7..] == [];
    assert week[6..][1..] == week[7..];
    assert week[5..][1..] == week[6..];
    assert week[4..][1..] == week[5..];
    assert week[3..][1..] == week[4..];
    assert week[2..][1..] == week[3..];
    assert week[1..][1..] == week[2..];
    assert Present(week[7..], EurUsd) == [];
    assert Present(week[6..], EurUsd) == [];
    assert Present(week[5..], EurUsd) == [];
    assert Present(week[4..], EurUsd) == [5.0];
    assert Present(week[2..], EurUsd) == [3.0, 5.0];
    assert Present(week, EurUsd) == [1.0, 3.0, 5.0];
    assert Sum([1.0, 3.0, 5.0]) == 9.0;
  }

  /**
   * `summarize`'s FX average over that history is 3: the row outside the
   * window is left out, and NULL days are skipped rather than counted as zero.
   */
  lemma WeekAverageSkipsAbsent()
    ensures Week(SkipHistory()) == SkipHistory()[1..]
    ensures Average(Week(SkipHistory()), EurUsd) == Ok(3.0)
  {
    SkipHistoryWeek();
    SkipWeekAverage();
  }



  /**
   * Rows on days 0 (100), 165 (90) and 367 (110): the comparison row for
   * day 367 is the one of day 0, the latest on or before day 2, and the
   * change is 10%.
   */
  lemma YearAgoIsNearestPrior()
    ensures var data := [Record(0, PerSeries(Some(100.0), None, None)),
                         Record(165, PerSeries(Some(90.0), None, None)),
                         Record(367, PerSeries(Some(110.0), None, None))];
      && YearAgo(data, 367) == Some(data[0])
      && Change(Some(110.0), Some(100.0), EurUsd) == Ok(Some(10.0))
  {
    var data := [Record(0, PerSeries(Some(100.0), None, None)),
                 Record(165, PerSeries(Some(90.0), None, None)),
                 Record(367, PerSeries(Some(110.0), None, None))];
    assert data[1..][1..][1..] == [];
    assert Until(data[1..][1..], 2) == [];
    assert Until(data[1..], 2) == [];
    assert Until(data, 2) == data[..1];
  }
}
