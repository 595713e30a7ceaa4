/**
  One pass of `_updatePrices` over the watchlist: a quote is fetched for
  every entry in watchlist order and one row is drawn per entry. The first
  entry whose row raises ends the pass; the rows drawn before it stay.
 */
module PriceList {
  import opened Wrappers
  import opened Quotes
  import opened SymbolStore

  /** One drawn row of the price list. */
  datatype Row = Row(symbol: string, alias: string, view: View)

  /** The price list after a pass: complete, or cut short by a raised fault. */
  datatype Screen = Shown(rows: seq<Row>) | Aborted(rows: seq<Row>, fault: Fault)

  /** The fault drawing the row of `e` raises, if any. */
  function FaultOf(e: Entry, fetch: string -> Option<Quote>): Option<Fault> {
    if e.SymbolOnly? then Some(OneField)
    else
      var v := ViewOf(fetch(e.symbol));
      if v.Raises? then Some(v.fault) else None
  }

  /** `row` is the row drawn for entry `e` with the quotes `fetch` returns. */
  predicate RowFor(e: Entry, fetch: string -> Option<Quote>, row: Row) {
    && e.Full?
    && row == Row(e.symbol, e.alias, ViewOf(fetch(e.symbol)))
    && !row.view.Raises?
  }

  /**
    The pass: rows are drawn in watchlist order, row `i` for entry `i`. The
    pass completes exactly when no entry raises; otherwise it stops at the
    first entry that does, with that entry's fault.
   */
  function Refresh(entries: seq<Entry>, fetch: string -> Option<Quote>): (s: Screen)
    ensures s.Shown? <==> forall i :: 0 <= i < |entries| ==> FaultOf(entries[i], fetch).None?
    ensures s.Shown? ==> |s.rows| == |entries|
    ensures s.Aborted? ==> |s.rows| < |entries| && FaultOf(entries[|s.rows|], fetch) == Some(s.fault)
    ensures |s.rows| <= |entries|
    ensures forall i :: 0 <= i < |s.rows| ==> RowFor(entries[i], fetch, s.rows[i])
  {
    if entries == [] then Shown([])
    else
      var e := entries[0];
      match FaultOf(e, fetch)
      case Some(f) => Aborted([], f)
      case None =>
        var row := Row(e.symbol, e.alias, ViewOf(fetch(e.symbol)));
        match Refresh(entries[1..], fetch)
        case Shown(rows) => Shown([row] + rows)
        case Aborted(rows, f) => Aborted([row] + rows, f)
  }

  /** A list with a one-field entry never renders completely: the unpacking raises when its turn comes. */
  lemma {:induction false} SymbolOnlyAborts(entries: seq<Entry>, fetch: string -> Option<Quote>)
    ensures !AllFull(entries) ==> Refresh(entries, fetch).Aborted?
  {
    if !AllFull(entries) {
      var i :| 0 <= i < |entries| && !entries[i].Full?;
      assert FaultOf(entries[i], fetch).Some?;
    }
  }
}
