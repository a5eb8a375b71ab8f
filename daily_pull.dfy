/**
 * The daily pull: one current value per series taken from each provider
 * response, then one full-row INSERT OR REPLACE keyed by today's date.
 */
module DailyPull {
  import opened Wrappers
  import opened Json
  import opened TextOrder
  import opened Responses
  import opened Store

  /**
   * `fetch_fx_today` after the HTTP call: the exchange-rate field of the
   * realtime-rate object, converted to a float. There is no "no data"
   * outcome: a missing object or rate is converted as None, which raises.
   */
  function FxToday(response: Value, parse: string -> Option<real>): (r: Result<real, Error>)
    ensures r.Ok? <==>
      && response.Object? && RateObjectKey in response.fields
      && response.fields[RateObjectKey].Object?
      && RateKey in response.fields[RateObjectKey].fields
      && ToFloat(response.fields[RateObjectKey].fields[RateKey], parse).Some?
    ensures r.Ok? ==> ToFloat(response.fields[RateObjectKey].fields[RateKey], parse) == Some(r.value)
  {
    var data :- Get(response, RateObjectKey, Object(map[]));
    var rate :- Get(data, RateKey, Null);
    match ToFloat(rate, parse)
    case Some(x) => Ok(x)
    case None => Err(NotANumber)
  }

  /**
   * `fetch_sp500_today` after the HTTP call: no value for an empty (falsy)
   * series, otherwise the close of the greatest date key in string order.
   */
  function Sp500Today(response: Value, parse: string -> Option<real>): (r: Result<Option<real>, Error>)
    ensures response.Object? && Sp500SeriesKey !in response.fields ==> r == Ok(None)
    ensures response.Object? && Sp500SeriesKey in response.fields && !Truthy(response.fields[Sp500SeriesKey])
            ==> r == Ok(None)
    ensures r == Ok(None) ==>
      response.Object? && (Sp500SeriesKey !in response.fields || !Truthy(response.fields[Sp500SeriesKey]))
    ensures r.Ok? && r.value.Some? ==>
      && response.Object? && Sp500SeriesKey in response.fields
      && var series := response.fields[Sp500SeriesKey];
      && series.Object?
      && exists d :: d in series.fields && (forall e :: e in series.fields ==> AtMost(e, d)) &&
                     Close(series.fields[d], parse) == Ok(r.value.value)
    ensures response.Object? && Sp500SeriesKey in response.fields &&
            response.fields[Sp500SeriesKey].Object? && response.fields[Sp500SeriesKey].fields != map[]
            ==> var fields := response.fields[Sp500SeriesKey].fields;
                (r.Ok? <==> Close(fields[Greatest(fields.Keys)], parse).Ok?)
  {
    var data :- Get(response, Sp500SeriesKey, Object(map[]));
    if !Truthy(data) then Ok(None)
    else if !data.Object? then Err(NotAnObject)
    else
      var latest := Greatest(data.fields.Keys);
      var close :- Close(data.fields[latest], parse);
      Ok(Some(close))
  }

  /**
   * `fetch_treasury_today` after the HTTP call: no value for an empty list,
   * otherwise the converted value of the FIRST element, whatever its
   * date. Unlike the history pull, an unusable value raises.
   */
  function TreasuryToday(response: Value, parse: string -> Option<real>): (r: Result<Option<real>, Error>)
    ensures response.Object? && TreasuryListKey !in response.fields ==> r == Ok(None)
    ensures response.Object? && TreasuryListKey in response.fields && !Truthy(response.fields[TreasuryListKey])
            ==> r == Ok(None)
    ensures r == Ok(None) ==>
      response.Object? && (TreasuryListKey !in response.fields || !Truthy(response.fields[TreasuryListKey]))
    ensures r.Ok? && r.value.Some? ==>
      && response.Object? && TreasuryListKey in response.fields
      && var list := response.fields[TreasuryListKey];
      && list.Array? && list.items != []
      && list.items[0].Object? && "value" in list.items[0].fields
      && ToFloat(list.items[0].fields["value"], parse) == Some(r.value.value)
    ensures (response.Object? && TreasuryListKey in response.fields &&
             var list := response.fields[TreasuryListKey];
             list.Array? && list.items != [] && list.items[0].Object? &&
             "value" in list.items[0].fields && ToFloat(list.items[0].fields["value"], parse).None?)
            ==> r.Err?
    ensures (response.Object? && TreasuryListKey in response.fields &&
             var list := response.fields[TreasuryListKey];
             list.Array? && list.items != [] && list.items[0].Object? &&
             "value" in list.items[0].fields && ToFloat(list.items[0].fields["value"], parse).Some?)
            ==> r == Ok(Some(ToFloat(response.fields[TreasuryListKey].items[0].fields["value"], parse).value))
  {
    var data :- Get(response, TreasuryListKey, Array([]));
    if !Truthy(data) then Ok(None)
    else if !data.Array? then Err(NotSubscriptable)
    else
      var value :- Index(data.items[0], "value");
      match ToFloat(value, parse)
      case Some(x) => Ok(Some(x))
      case None => Err(NotANumber)
  }

  /**
   * `update_db` of the daily pull: one INSERT OR REPLACE of the full row
   * for `today` (the current date in ISO form, a parameter here); every slot is
   * overwritten, with NULL too, and every other date's row is untouched.
   */
  method UpdateDb(db: MarketTable, today: string, fx: Option<real>, spx: Option<real>, tsy: Option<real>)
    modifies db
    ensures db.rows == old(db.rows)[today := PerSeries(fx, spx, tsy)]
    ensures db.rows.Keys == old(db.rows).Keys + {today}
    ensures db.rows[today] == PerSeries(fx, spx, tsy)
    ensures forall d :: d in old(db.rows) && d != today ==> db.rows[d] == old(db.rows)[d]
    ensures db.writes == old(db.writes) + [today]
  {
    db.Upsert(today, PerSeries(fx, spx, tsy));
  }

  /**
   * `UpdateDb` turns the table `t` into `t[today := row]`; running it a second
   * time with the same values leaves the table as after the first run.
   */
  lemma UpdateDbIdempotent(t: Table, today: string, row: Row)
    ensures t[today := row][today := row] == t[today := row]
  {
  }

  /**
   * A daily write after a history merge replaces the merged row for today in
   * full: a series the daily pull has no value for becomes NULL even when the
   * history pull had stored one.
   */
  lemma DailyOverwritesMergedRow(t: Table, fx: Feed, spx: Feed, tsy: Feed, today: string,
                                 fxNow: Option<real>, spxNow: Option<real>, tsyNow: Option<real>)
    requires today in spx && spxNow == None
    ensures var merged := MergeFeeds(t, fx, spx, tsy);
      && merged[today].sp500 == Some(spx[today])
      && merged[today := PerSeries(fxNow, spxNow, tsyNow)][today].sp500 == None
  {
    assert today in Dates(fx, spx, tsy);
  }
}
