/**
 * The `market_data` table shared by both pull scripts and the analysis:
 * one row per ISO date string (the primary key), with an optional REAL in
 * each of the columns `eurusd`, `sp500` and `treasury`. An absent value is
 * NULL, never 0.
 */
module Store {
  import opened Wrappers
  import opened TextOrder

  datatype Series = EurUsd | Sp500 | Treasury

  /** One value per tracked series, in column order. */
  datatype PerSeries<T> = PerSeries(eurusd: T, sp500: T, treasury: T) {
    function At(s: Series): T {
      match s
      case EurUsd => eurusd
      case Sp500 => sp500
      case Treasury => treasury
    }
  }

  type Row = PerSeries<Option<real>>

  type Table = map<string, Row>

  /** Normalised feed: ISO date string to value. */
  type Feed = map<string, real>

  /** `feed.get(d)`: the feed's value for the date, or NULL. */
  function Slot(feed: Feed, d: string): (v: Option<real>)
    ensures v == None <==> d !in feed
    ensures v.Some? ==> v.value == feed[d]
  {
    if d in feed then Some(feed[d]) else None
  }

  /** The row written for date `d` by a merge of three feeds. */
  function RowFor(fx: Feed, spx: Feed, tsy: Feed, d: string): Row {
    PerSeries(Slot(fx, d), Slot(spx, d), Slot(tsy, d))
  }

  /** Every date present in at least one of the three feeds. */
  function Dates(fx: Feed, spx: Feed, tsy: Feed): set<string> {
    fx.Keys + spx.Keys + tsy.Keys
  }

  /**
   * The table after a full-row replace of every date of the three feeds:
   * the dates written are exactly the union of the feeds' dates, each
   * written row holds each feed's value or NULL, and every other row is
   * left as it was.
   */
  function MergeFeeds(t: Table, fx: Feed, spx: Feed, tsy: Feed): (r: Table)
    ensures r.Keys == t.Keys + Dates(fx, spx, tsy)
    ensures forall d :: d in Dates(fx, spx, tsy) ==>
      r[d].eurusd == Slot(fx, d) && r[d].sp500 == Slot(spx, d) && r[d].treasury == Slot(tsy, d)
    ensures forall d :: d in t && d !in Dates(fx, spx, tsy) ==> r[d] == t[d]
  {
    t + map d | d in Dates(fx, spx, tsy) :: RowFor(fx, spx, tsy, d)
  }

  /** The table after the merge's upserts for the dates `ds`, in that order. */
  function Replayed(t: Table, ds: seq<string>, fx: Feed, spx: Feed, tsy: Feed): Table
    decreases |ds|
  {
    if ds == [] then t
    else
      var last := ds[|ds| - 1];
      Replayed(t, ds[..|ds| - 1], fx, spx, tsy)[last := RowFor(fx, spx, tsy, last)]
  }

  /** The merged rows for the dates of `ds`. */
  function Filled(ds: seq<string>, fx: Feed, spx: Feed, tsy: Feed): Table {
    map d | d in ds :: RowFor(fx, spx, tsy, d)
  }

  /** Extending the dates by one adds that date's merged row. */
  lemma FilledSnoc(ds: seq<string>, last: string, fx: Feed, spx: Feed, tsy: Feed)
    ensures Filled(ds + [last], fx, spx, tsy) == Filled(ds, fx, spx, tsy)[last := RowFor(fx, spx, tsy, last)]
  {
    assert forall d :: d in ds + [last] <==> d in ds || d == last;
  }

  /** An upsert on top of an overlay is an upsert inside it. */
  lemma UpsertOverlay(t: Table, m: Table, d: string, row: Row)
    ensures (t + m)[d := row] == t + m[d := row]
  {
  }

  /**
   * Replaying the upserts for some dates leaves every replayed date holding
   * its merged row and every other row untouched, whatever the order.
   */
  lemma {:induction false} ReplayedRows(t: Table, ds: seq<string>, fx: Feed, spx: Feed, tsy: Feed)
    ensures Replayed(t, ds, fx, spx, tsy) == t + Filled(ds, fx, spx, tsy)
    decreases |ds|
  {
    if ds != [] {
      var init, last := ds[..|ds| - 1], ds[|ds| - 1];
      assert ds == init + [last];
      ReplayedRows(t, init, fx, spx, tsy);
      FilledSnoc(init, last, fx, spx, tsy);
      UpsertOverlay(t, Filled(init, fx, spx, tsy), last, RowFor(fx, spx, tsy, last));
    }
  }

  /** Upserting every date of the union, in any order, is `MergeFeeds`. */
  lemma ReplayAll(t: Table, ds: seq<string>, fx: Feed, spx: Feed, tsy: Feed)
    requires forall d :: d in ds <==> d in Dates(fx, spx, tsy)
    ensures Replayed(t, ds, fx, spx, tsy) == MergeFeeds(t, fx, spx, tsy)
  {
    ReplayedRows(t, ds, fx, spx, tsy);
  }

  /** The merge's own order, ascending by date, reaches `MergeFeeds`. */
  lemma ReplaySorted(t: Table, fx: Feed, spx: Feed, tsy: Feed)
    ensures Replayed(t, SortedKeys(Dates(fx, spx, tsy)), fx, spx, tsy) == MergeFeeds(t, fx, spx, tsy)
  {
    ReplayAll(t, SortedKeys(Dates(fx, spx, tsy)), fx, spx, tsy);
  }

  /** Rows written before a later batch of upserts covering the same dates leave no trace. */
  lemma Overwritten(t: Table, earlier: Table, later: Table)
    requires earlier.Keys <= later.Keys
    ensures (t + earlier) + later == t + later
  {
    var lhs := (t + earlier) + later;
    var rhs := t + later;
    assert lhs.Keys == rhs.Keys;
    forall d | d in lhs
      ensures lhs[d] == rhs[d]
    {
    }
  }

  /** Merging the same feeds a second time changes nothing. */
  lemma MergeIdempotent(t: Table, fx: Feed, spx: Feed, tsy: Feed)
    ensures MergeFeeds(MergeFeeds(t, fx, spx, tsy), fx, spx, tsy) == MergeFeeds(t, fx, spx, tsy)
  {
    var merged := map d | d in Dates(fx, spx, tsy) :: RowFor(fx, spx, tsy, d);
    Overwritten(t, merged, merged);
  }

  /**
   * A merge that stopped after the upserts for `ds[..k]` leaves a table
   * from which re-running the whole merge reaches the same state as an
   * uninterrupted run.
   */
  lemma RerunAfterInterruption(t: Table, ds: seq<string>, k: nat, fx: Feed, spx: Feed, tsy: Feed)
    requires k <= |ds|
    requires forall d :: d in ds <==> d in Dates(fx, spx, tsy)
    ensures MergeFeeds(Replayed(t, ds[..k], fx, spx, tsy), fx, spx, tsy) == MergeFeeds(t, fx, spx, tsy)
  {
    ReplayedRows(t, ds[..k], fx, spx, tsy);
    var done := Filled(ds[..k], fx, spx, tsy);
    var merged := map d | d in Dates(fx, spx, tsy) :: RowFor(fx, spx, tsy, d);
    assert forall d :: d in ds[..k] ==> d in ds;
    Overwritten(t, done, merged);
  }

  /**
   * The SQLite table. `rows` is its content; `writes` records, for the
   * proofs only, the keys of the INSERT OR REPLACE statements in the order
   * they were executed.
   */
  class MarketTable {
    var rows: Table
    ghost var writes: seq<string>

    /** `CREATE TABLE IF NOT EXISTS market_data` on a fresh database. */
    constructor ()
      ensures rows == map[] && writes == []
    {
      rows := map[];
      writes := [];
    }

    /** `INSERT OR REPLACE INTO market_data VALUES (d, ...)`: replaces the whole row. */
    method Upsert(d: string, row: Row)
      modifies this
      ensures rows == old(rows)[d := row]
      ensures writes == old(writes) + [d]
    {
      rows := rows[d := row];
      writes := writes + [d];
    }
  }
}
