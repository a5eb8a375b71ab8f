/** The parts of the market-data provider's responses that the pull scripts read. */
module Responses {
  import opened Wrappers
  import opened Json

  const FxSeriesKey: string := "Time Series FX (Daily)"
  const Sp500SeriesKey: string := "Time Series (Daily)"
  const TreasuryListKey: string := "data"
  const CloseKey: string := "4. close"
  const RateObjectKey: string := "Realtime Currency Exchange Rate"
  const RateKey: string := "5. Exchange Rate"

  /**
   * The close of one day's entry of a daily series, as a float; raises
   * when the entry is not a dict, lacks the close, or the close is not a number.
   */
  function Close(v: Value, parse: string -> Option<real>): (r: Result<real, Error>)
    ensures r.Ok? <==> v.Object? && CloseKey in v.fields && ToFloat(v.fields[CloseKey], parse).Some?
    ensures r.Ok? ==> ToFloat(v.fields[CloseKey], parse) == Some(r.value)
  {
    var close :- Index(v, CloseKey);
    match ToFloat(close, parse)
    case Some(x) => Ok(x)
    case None => Err(NotANumber)
  }
}
