/**
  The quote snapshot the external `getData` returns, and how one row of the
  price list presents it: the price test shared by validation and rendering,
  and the green / gray / red trend classification.
 */
module Quotes {
  import opened Wrappers

  /**
    The fields of the dictionary `getData` returns that the core reads. A
    missing key and a `None` value are both `None` here.
   */
  datatype Quote = Quote(currentPrice: Option<real>, lastClose: Option<real>)

  /**
    `data and data.get('currentPrice') is not None`: no dictionary (`None`),
    an empty one, or one without a current price all fail the test.
   */
  predicate HasPrice(data: Option<Quote>)
    ensures data.None? ==> !HasPrice(data)
    ensures data.Some? ==> (HasPrice(data) <==> data.value.currentPrice.Some?)
  {
    data.Some? && data.value.currentPrice.Some?
  }

  datatype Trend = Up | Flat | Down

  /** The text colour of a rendered row. */
  datatype Colour = Green | Gray | Red

  /** Movement since the previous close: up when the last close is below the current price. */
  function TrendOf(lastClose: real, currentPrice: real): (t: Trend)
    ensures t == Up <==> lastClose < currentPrice
    ensures t == Flat <==> lastClose == currentPrice
    ensures t == Down <==> currentPrice < lastClose
  {
    if lastClose < currentPrice then Up
    else if lastClose == currentPrice then Flat
    else Down
  }

  /** Why rendering a row raises instead of drawing it. */
  datatype Fault =
    | NoLastClose   // `currentPrice - lastClose` with no last close: KeyError or TypeError
    | ZeroLastClose // `currentPrice / lastClose` with a zero last close: ZeroDivisionError
    | OneField      // unpacking `symbol, alias` from a one-field entry: ValueError

  /** What one row shows for a fetched quote, or the fault that stops the rendering. */
  datatype View =
    | NoData
    | Priced(price: real, lastClose: real, trend: Trend)
    | Raises(fault: Fault)

  /**
    The row for the quote `getData` returned. Without a current price the row
    reads "No data". With one, the change is computed before the last close
    is checked, so a missing last close raises, and so does a zero one (the
    percentage divides by it); otherwise the trend compares the two prices.
   */
  function ViewOf(data: Option<Quote>): (v: View)
    ensures v.NoData? <==> !HasPrice(data)
    ensures v.Raises? ==> HasPrice(data)
    ensures v == Raises(NoLastClose) <==> HasPrice(data) && data.value.lastClose.None?
    ensures v == Raises(ZeroLastClose) <==> HasPrice(data) && data.value.lastClose == Some(0.0)
    ensures v.Priced? ==> Some(v.price) == data.value.currentPrice && Some(v.lastClose) == data.value.lastClose
    ensures v.Priced? ==> v.lastClose != 0.0
    ensures HasPrice(data) && data.value.lastClose.Some? && data.value.lastClose.value != 0.0 ==> v.Priced?
    ensures v.Priced? ==> v.trend == TrendOf(v.lastClose, v.price)
  {
    if !HasPrice(data) then NoData
    else
      var q := data.value;
      if q.lastClose.None? then Raises(NoLastClose)
      else if q.lastClose.value == 0.0 then Raises(ZeroLastClose)
      else Priced(q.currentPrice.value, q.lastClose.value, TrendOf(q.lastClose.value, q.currentPrice.value))
  }

  /**
    The colour of a drawn row: green when the price rose above the last
    close, red when it fell below, gray when it is unchanged or there is no
    data. Exactly one of the three applies.
   */
  function RowColour(data: Option<Quote>): (c: Colour)
    requires !ViewOf(data).Raises?
    ensures c == Green <==> HasPrice(data) && data.value.lastClose.value < data.value.currentPrice.value
    ensures c == Red <==> HasPrice(data) && data.value.currentPrice.value < data.value.lastClose.value
    ensures c == Gray <==> !HasPrice(data) || data.value.lastClose == data.value.currentPrice
  {
    match ViewOf(data)
    case NoData => Gray
    case Priced(_, _, t) => if t == Up then Green else if t == Flat then Gray else Red
  }
}
