/**
 * The bulk history pull: three provider responses reduced to date-to-value
 * feeds, then merged into the table one full row per date.
 */
module HistoricalPull {
  import opened Wrappers
  import opened Json
  import opened TextOrder
  import opened Responses
  import opened Store

  /** Dates before this ISO date are not kept. */
  const Cutoff: string := "2001-01-01"

  /**
   * The dict a daily-series response is iterated over:
   * the value under `key`, an empty dict when it is missing, which the
   * loop then requires to be a dict.
   */
  function SeriesBody(response: Value, key: string): (r: Result<map<string, Value>, Error>)
    ensures response.Object? && key !in response.fields ==> r == Ok(map[])
    ensures r.Ok? ==> response.Object? && (key in response.fields ==> response.fields[key] == Object(r.value))
  {
    var data :- Get(response, key, Object(map[]));
    if data.Object? then Ok(data.fields) else Err(NotAnObject)
  }

  /**
   * What normalising a daily-series response under `key` yields: on success,
   * exactly the dates at or after the cutoff, each mapped to its close; an
   * entry at or after the cutoff without a usable close makes the whole feed
   * fail with that entry's error; entries before the cutoff are never looked at.
   */
  ghost predicate SeriesNormalized(response: Value, key: string, parse: string -> Option<real>,
                                   r: Result<Feed, Error>)
  {
    match SeriesBody(response, key)
    case Err(e) => r == Err(e)
    case Ok(body) =>
      && (r.Ok? <==> forall d :: d in body && AtMost(Cutoff, d) ==> Close(body[d], parse).Ok?)
      && (r.Ok? ==> forall d :: d in r.value <==> d in body && AtMost(Cutoff, d))
      && (r.Ok? ==> forall d :: d in r.value ==> Close(body[d], parse) == Ok(r.value[d]))
      && (r.Err? ==> exists d :: d in body && AtMost(Cutoff, d) && Close(body[d], parse) == Err(r.error))
  }

  /** The loop shared by the FX and SP500 history normalisers. */
  method NormalizeSeries(response: Value, key: string, parse: string -> Option<real>)
    returns (r: Result<Feed, Error>)
    ensures SeriesNormalized(response, key, parse, r)
  {
    var body := SeriesBody(response, key);
    if body.Err? {
      return Err(body.error);
    }
    var data := body.value;
    var result: Feed := map[];
    var todo := data.Keys;
    while todo != {}
      invariant todo <= data.Keys
      invariant forall d :: d in result <==> d in data && d !in todo && AtMost(Cutoff, d)
      invariant forall d :: d in result ==> Close(data[d], parse) == Ok(result[d])
      decreases todo
    {
      var d :| d in todo;
      todo := todo - {d};
      if AtMost(Cutoff, d) {
        var close := Close(data[d], parse);
        if close.Err? {
          return Err(close.error);
        }
        result := result[d := close.value];
      }
    }
    return Ok(result);
  }

  /** `fetch_fx_history` after the HTTP call. */
  method FxHistory(response: Value, parse: string -> Option<real>) returns (r: Result<Feed, Error>)
    ensures SeriesNormalized(response, FxSeriesKey, parse, r)
  {
    r := NormalizeSeries(response, FxSeriesKey, parse);
  }

  /** `fetch_sp500_history` after the HTTP call. */
  method Sp500History(response: Value, parse: string -> Option<real>) returns (r: Result<Feed, Error>)
    ensures SeriesNormalized(response, Sp500SeriesKey, parse, r)
  {
    r := NormalizeSeries(response, Sp500SeriesKey, parse);
  }

  /** A response without the series key gives the empty feed, not an error. */
  lemma MissingSeriesIsEmpty(response: Value, key: string, parse: string -> Option<real>, r: Result<Feed, Error>)
    requires response.Object? && key !in response.fields
    requires SeriesNormalized(response, key, parse, r)
    ensures r == Ok(map[])
  {
    assert SeriesBody(response, key) == Ok(map[]);
    assert r.value.Keys == {};
  }

  /** How the treasury loop treats one list element. */
  datatype Entry = Skip | Keep(date: string, value: real) | Fail(error: Error)

  /**
   * One iteration of the treasury loop: the element must be a dict; a missing
   * or falsy date, or one before the cutoff, is skipped; a truthy non-string
   * date cannot be compared with the cutoff; a value `float` rejects is skipped.
   */
  function TreasuryEntry(item: Value, parse: string -> Option<real>): (e: Entry)
    ensures e.Fail? ==> e.error == NotAnObject || e.error == NotComparable
    ensures e.Fail? ==> (e.error == NotAnObject <==> !item.Object?)
  {
    match item
    case Object(fields) =>
      var d := if "date" in fields then fields["date"] else Null;
      if !Truthy(d) then Skip
      else if !d.Str? then Fail(NotComparable)
      else if Less(d.s, Cutoff) then Skip
      else
        var v := if "value" in fields then fields["value"] else Null;
        (match ToFloat(v, parse)
         case Some(x) => Keep(d.s, x)
         case None => Skip)
    case _ => Fail(NotAnObject)
  }

  /** An element is kept only with a non-empty string date at or after the cutoff, and a value `float` accepts. */
  lemma TreasuryEntryKept(item: Value, parse: string -> Option<real>)
    ensures var e := TreasuryEntry(item, parse);
      && (e.Keep? ==> item.Object? && "date" in item.fields && item.fields["date"] == Str(e.date))
      && (e.Keep? ==> e.date != [] && AtMost(Cutoff, e.date))
      && (e.Keep? ==> "value" in item.fields && ToFloat(item.fields["value"], parse) == Some(e.value))
  {
    if item.Object? && "date" in item.fields && item.fields["date"].Str? {
      LessTotal(item.fields["date"].s, Cutoff);
    }
  }

  /** Conversely, such an element is always kept. */
  lemma TreasuryEntryKeptWhen(item: Value, parse: string -> Option<real>)
    requires item.Object? && "date" in item.fields && item.fields["date"].Str?
    requires item.fields["date"].s != [] && AtMost(Cutoff, item.fields["date"].s)
    requires "value" in item.fields && ToFloat(item.fields["value"], parse).Some?
    ensures TreasuryEntry(item, parse) == Keep(item.fields["date"].s, ToFloat(item.fields["value"], parse).value)
  {
    NotBefore(Cutoff, item.fields["date"].s);
    TreasuryEntryOnOrAfter(item, parse);
  }

  /** An element whose non-empty string date is not before the cutoff is decided by its value. */
  lemma TreasuryEntryOnOrAfter(item: Value, parse: string -> Option<real>)
    requires item.Object? && "date" in item.fields && item.fields["date"].Str?
    requires item.fields["date"].s != [] && !Less(item.fields["date"].s, Cutoff)
    requires "value" in item.fields && ToFloat(item.fields["value"], parse).Some?
    ensures TreasuryEntry(item, parse) == Keep(item.fields["date"].s, ToFloat(item.fields["value"], parse).value)
  {
  }

  /** The loop raises exactly on an element that is not a dict or whose truthy date is not a string. */
  lemma TreasuryEntryRaises(item: Value, parse: string -> Option<real>)
    ensures TreasuryEntry(item, parse).Fail? <==>
      !item.Object? || ("date" in item.fields && Truthy(item.fields["date"]) && !item.fields["date"].Str?)
  {
  }

  /**
   * The list a treasury response is iterated over: the value under the
   * data key, an empty list when it is missing.
   * Iterating an empty dict or string yields nothing; a non-empty one yields
   * strings, whose lack of `.get` then raises.
   */
  function TreasuryItems(response: Value): (r: Result<seq<Value>, Error>)
    ensures !response.Object? ==> r == Err(NotAnObject)
    ensures response.Object? && TreasuryListKey !in response.fields ==> r == Ok([])
    ensures response.Object? && TreasuryListKey in response.fields ==>
      var data := response.fields[TreasuryListKey];
      && (data.Array? ==> r == Ok(data.items))
      && (data.Null? || data.Bool? || data.Number? ==> r == Err(NotIterable))
      && (data.Object? || data.Str? ==> if Truthy(data) then r == Err(NotAnObject) else r == Ok([]))
  {
    var data :- Get(response, TreasuryListKey, Array([]));
    match data
    case Array(items) => Ok(items)
    case Object(fields) => if fields == map[] then Ok([]) else Err(NotAnObject)
    case Str(s) => if s == [] then Ok([]) else Err(NotAnObject)
    case _ => Err(NotIterable)
  }

  /** How the loop treats each element of `items`, in order. */
  function Entries(items: seq<Value>, parse: string -> Option<real>): (es: seq<Entry>)
    ensures |es| == |items|
    ensures forall i :: 0 <= i < |items| ==> es[i] == TreasuryEntry(items[i], parse)
  {
    seq(|items|, i requires 0 <= i < |items| => TreasuryEntry(items[i], parse))
  }

  predicate KeptAt(es: seq<Entry>, i: int, d: string)
    requires 0 <= i < |es|
  {
    es[i].Keep? && es[i].date == d
  }

  /**
   * What the treasury loop yields over the classified elements `es`: it
   * fails exactly when some element makes it raise, with the first such
   * element's error; otherwise its dates are those of the kept elements,
   * and each date holds the value of the LAST element kept for it.
   */
  ghost predicate TreasuryCollected(es: seq<Entry>, r: Result<Feed, Error>) {
    && (r.Err? <==> exists i :: 0 <= i < |es| && es[i].Fail?)
    && (r.Err? ==> exists i :: 0 <= i < |es| && es[i] == Fail(r.error) &&
                               forall j :: 0 <= j < i ==> !es[j].Fail?)
    && (r.Ok? ==> forall d :: d in r.value <==> exists i :: 0 <= i < |es| && KeptAt(es, i, d))
    && (r.Ok? ==> forall d :: d in r.value ==>
          exists i :: 0 <= i < |es| && es[i] == Keep(d, r.value[d]) &&
                      forall j :: i < j < |es| ==> !KeptAt(es, j, d))
  }

  /** The dict the loop has built after the first `n` elements, when none of them raised. */
  ghost function Collected(es: seq<Entry>, n: nat): map<string, real>
    requires n <= |es|
  {
    if n == 0 then map[]
    else
      var before := Collected(es, n - 1);
      if es[n - 1].Keep? then before[es[n - 1].date := es[n - 1].value] else before
  }

  /** Which dates the first `n` elements leave in the dict, and with whose value. */
  lemma {:induction false} CollectedLastWins(es: seq<Entry>, n: nat)
    requires n <= |es|
    ensures forall d :: d in Collected(es, n) <==> exists i :: 0 <= i < n && KeptAt(es, i, d)
    ensures forall d :: d in Collected(es, n) ==>
      exists i :: 0 <= i < n && es[i] == Keep(d, Collected(es, n)[d]) &&
                  forall j :: i < j < n ==> !KeptAt(es, j, d)
  {
    if n > 0 {
      CollectedLastWins(es, n - 1);
      var e := es[n - 1];
      var before := Collected(es, n - 1);
      var after := Collected(es, n);
      forall d | d in after
        ensures exists i :: 0 <= i < n && es[i] == Keep(d, after[d]) &&
                            forall j :: i < j < n ==> !KeptAt(es, j, d)
      {
        if e.Keep? && e.date == d {
          assert es[n - 1] == Keep(d, after[d]);
        } else {
          var i :| 0 <= i < n - 1 && es[i] == Keep(d, before[d]) &&
                   forall j :: i < j < n - 1 ==> !KeptAt(es, j, d);
          assert !KeptAt(es, n - 1, d);
        }
      }
      forall d | d in after
        ensures exists i :: 0 <= i < n && KeptAt(es, i, d)
      {
        if e.Keep? && e.date == d {
          assert KeptAt(es, n - 1, d);
        }
      }
    }
  }

  /** A loop that reaches the end of the list returns the dict it built. */
  lemma CollectedAll(es: seq<Entry>)
    requires forall j :: 0 <= j < |es| ==> !es[j].Fail?
    ensures TreasuryCollected(es, Ok(Collected(es, |es|)))
  {
    CollectedLastWins(es, |es|);
  }

  /** A loop stopped by element `i` raises that element's error. */
  lemma CollectedFails(es: seq<Entry>, i: nat)
    requires i < |es| && es[i].Fail?
    requires forall j :: 0 <= j < i ==> !es[j].Fail?
    ensures TreasuryCollected(es, Err(es[i].error))
  {
  }

  /** The `for item in data` loop of `fetch_treasury_history`. */
  method CollectTreasury(items: seq<Value>, parse: string -> Option<real>) returns (r: Result<Feed, Error>)
    ensures TreasuryCollected(Entries(items, parse), r)
  {
    ghost var es := Entries(items, parse);
    var result: Feed := map[];
    for i := 0 to |items|
      invariant forall j :: 0 <= j < i ==> !es[j].Fail?
      invariant result == Collected(es, i)
    {
      var e := TreasuryEntry(items[i], parse);
      assert e == es[i];
      if e.Fail? {
        CollectedFails(es, i);
        return Err(e.error);
      } else if e.Keep? {
        result := result[e.date := e.value];
      }
    }
    r := Ok(result);
    CollectedAll(es);
  }

  /** The result of normalising a treasury response. */
  ghost predicate TreasuryNormalized(response: Value, parse: string -> Option<real>, r: Result<Feed, Error>) {
    match TreasuryItems(response)
    case Err(e) => r == Err(e)
    case Ok(items) => TreasuryCollected(Entries(items, parse), r)
  }

  /** `fetch_treasury_history` after the HTTP call. */
  method TreasuryHistory(response: Value, parse: string -> Option<real>) returns (r: Result<Feed, Error>)
    ensures TreasuryNormalized(response, parse, r)
  {
    var list := TreasuryItems(response);
    if list.Err? {
      return Err(list.error);
    }
    r := CollectTreasury(list.value, parse);
  }

  /** The loop of `update_db`: one INSERT OR REPLACE per date of `ds`, in order. */
  method UpsertEach(db: MarketTable, ds: seq<string>, fx: Feed, spx: Feed, tsy: Feed)
    modifies db
    ensures db.rows == Replayed(old(db.rows), ds, fx, spx, tsy)
    ensures db.writes == old(db.writes) + ds
  {
    ghost var t0, w0 := db.rows, db.writes;
    for i := 0 to |ds|
      invariant db.rows == Replayed(t0, ds[..i], fx, spx, tsy)
      invariant db.writes == w0 + ds[..i]
    {
      db.Upsert(ds[i], RowFor(fx, spx, tsy, ds[i]));
      assert ds[..i + 1] == ds[..i] + [ds[i]];
    }
    assert ds[..|ds|] == ds;
  }

  /**
   * `update_db` of the history pull: for each date of the union of the three
   * feeds, in ascending order, one INSERT OR REPLACE of the full row.
   */
  method UpdateDb(db: MarketTable, fx: Feed, spx: Feed, tsy: Feed)
    modifies db
    ensures db.rows == MergeFeeds(old(db.rows), fx, spx, tsy)
    ensures db.rows.Keys == old(db.rows).Keys + Dates(fx, spx, tsy)
    ensures forall d :: d in old(db.rows) && d !in Dates(fx, spx, tsy) ==> db.rows[d] == old(db.rows)[d]
    ensures db.writes == old(db.writes) + SortedKeys(Dates(fx, spx, tsy))
  {
    ghost var t0 := db.rows;
    UpsertEach(db, SortedKeys(Dates(fx, spx, tsy)), fx, spx, tsy);
    ReplaySorted(t0, fx, spx, tsy);
  }
}
