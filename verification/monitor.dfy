/**
  The market monitor window without its widgets: the watchlist store, the
  countdown counter and the last drawn price list, driven by discrete
  events (a countdown firing, a refresh firing, the Add button, a row's
  Remove button). Each event carries the quote source as it answers at
  that moment.
 */
module Monitor {
  import opened Wrappers
  import opened PyStr
  import opened SymbolStore
  import opened Quotes
  import opened PriceList
  import opened Watchlist
  import Countdown

  datatype State = State(store: Store, counter: int, screen: Screen)

  datatype Event =
    | CountdownFired
    | RefreshFired
    | AddPressed(text: string)
    | RemovePressed(symbol: string)

  /** Constructing the window either leaves it running or raises out of `__init__`. */
  datatype Startup = Running(state: State) | Crashed(fault: Fault)

  /** `_updatePrices` on a store: the counter is reset first, then the list is redrawn. */
  function Refreshed(st: Store, fetch: string -> Option<Quote>): (s: State)
    ensures s.store == st && s.counter == 15
    ensures s.screen.Shown? <==> forall i :: 0 <= i < |st.entries| ==> FaultOf(st.entries[i], fetch).None?
    ensures |s.screen.rows| <= |st.entries|
    ensures s.screen.Shown? ==> |s.screen.rows| == |st.entries|
    ensures s.screen.Aborted? ==>
      |s.screen.rows| < |st.entries| && FaultOf(st.entries[|s.screen.rows|], fetch) == Some(s.screen.fault)
    ensures forall i :: 0 <= i < |s.screen.rows| ==> RowFor(st.entries[i], fetch, s.screen.rows[i])
  {
    Countdown.FullIsFifteen();
    State(st, Countdown.Full, Refresh(st.entries, fetch))
  }

  /**
    `__init__`: the file is loaded (a missing file is created empty), the
    counter is set, fired once and reset by the first refresh. A refresh
    that raises escapes the constructor and ends the program, so a running
    window holds only two-field entries and a complete price list.
   */
  function Start(file: Option<string>, fetch: string -> Option<Quote>): (r: Startup)
    ensures r.Crashed? <==> file.Some? && Refresh(Load(file.value), fetch).Aborted?
    ensures file.Some? && !AllFull(Load(file.value)) ==> r.Crashed?
    ensures r.Running? ==>
      && r.state.counter == Countdown.Full
      && r.state.screen.Shown?
      && AllFull(r.state.store.entries)
      && Load(r.state.store.file) == r.state.store.entries
    ensures r.Running? ==>
      r.state.store == if file.None? then Store([], []) else Store(Load(file.value), file.value)
    ensures r.Running? ==> r.state.screen == Refresh(r.state.store.entries, fetch)
    ensures r.Crashed? ==> r.fault == Refresh(Load(file.value), fetch).fault
  {
    var st := if file.None? then Store([], []) else Store(Load(file.value), file.value);
    var s := Refreshed(st, fetch);
    SymbolOnlyAborts(st.entries, fetch);
    match s.screen
    case Aborted(_, f) => Crashed(f)
    case Shown(_) =>
      assert AllFull(st.entries) by {
        forall i | 0 <= i < |st.entries|
          ensures st.entries[i].Full?
        {
          assert FaultOf(st.entries[i], fetch).None?;
        }
      }
      Running(s)
  }

  /**
    One event. A countdown firing only moves the counter. A refresh firing,
    a successful add and any remove reset the counter and redraw the list
    from the new store; a refused add changes nothing.
   */
  function Step(s: State, ev: Event, fetch: string -> Option<Quote>): (r: State)
    ensures ev.CountdownFired? ==> r == s.(counter := Countdown.Tick(s.counter))
    ensures ev.AddPressed? && Add(s.store, ev.text, fetch).1 != Added ==> r == s
    ensures !ev.CountdownFired? && r != s ==>
      && r.counter == Countdown.Full
      && |r.screen.rows| <= |r.store.entries|
      && forall i :: 0 <= i < |r.screen.rows| ==> RowFor(r.store.entries[i], fetch, r.screen.rows[i])
    ensures ev.RemovePressed? ==> !Tracked(r.store.entries, ev.symbol)
    ensures ev.RefreshFired? ==> r.store == s.store
    ensures ev.AddPressed? ==> r.store == Add(s.store, ev.text, fetch).0
    ensures ev.RemovePressed? ==> r.store == Remove(s.store, ev.symbol)
    ensures !ev.CountdownFired? && (ev.AddPressed? ==> Add(s.store, ev.text, fetch).1 == Added) ==>
      r.counter == Countdown.Full && r.screen == Refresh(r.store.entries, fetch)
  {
    match ev
    case CountdownFired => s.(counter := Countdown.Tick(s.counter))
    case RefreshFired => Refreshed(s.store, fetch)
    case AddPressed(text) =>
      var (st, outcome) := Add(s.store, text, fetch);
      if outcome == Added then Refreshed(st, fetch) else s
    case RemovePressed(symbol) => Refreshed(Remove(s.store, symbol), fetch)
  }

  /** What holds of every running window: the counter is within [0, 15] and every entry has two fields. */
  predicate Inv(s: State) {
    0 <= s.counter <= Countdown.Full && AllFull(s.store.entries)
  }

  lemma {:induction false} StartInv(file: Option<string>, fetch: string -> Option<Quote>)
    requires Start(file, fetch).Running?
    ensures Inv(Start(file, fetch).state)
  {
  }

  /** Every event keeps the invariant. */
  lemma {:induction false} StepInv(s: State, ev: Event, fetch: string -> Option<Quote>)
    requires Inv(s)
    ensures Inv(Step(s, ev, fetch))
  {
    match ev
    case CountdownFired =>
      Countdown.TickInRange(s.counter);
    case RefreshFired =>
    case AddPressed(text) =>
      AddKeepsAllFull(s.store, text, fetch);
    case RemovePressed(symbol) =>
      RemoveKeepsAllFull(s.store, symbol);
  }

  /** Every event keeps symbols unique once they are. */
  lemma {:induction false} StepKeepsUnique(s: State, ev: Event, fetch: string -> Option<Quote>)
    requires UniqueSymbols(s.store.entries)
    ensures UniqueSymbols(Step(s, ev, fetch).store.entries)
  {
    match ev
    case CountdownFired =>
    case RefreshFired =>
    case AddPressed(text) => AddKeepsUnique(s.store, text, fetch);
    case RemovePressed(symbol) => WithoutKeepsUnique(s.store.entries, symbol);
  }

  /** The file loads back as the in-memory list, ends in a newline, and every entry round-trips. */
  predicate InSync(st: Store) {
    AllWellFormed(st.entries) && Load(st.file) == st.entries && ClosedOff(st.file)
  }

  /**
    Every event keeps file and list in step, provided text typed for an add
    holds no line break.
   */
  lemma {:induction false} StepKeepsSync(s: State, ev: Event, fetch: string -> Option<Quote>)
    requires InSync(s.store)
    requires ev.AddPressed? ==> NoLineBreak(ev.text)
    ensures InSync(Step(s, ev, fetch).store)
  {
    match ev
    case CountdownFired =>
    case RefreshFired =>
    case AddPressed(text) => AddKeepsLoad(s.store, text, fetch);
    case RemovePressed(symbol) => RemoveKeepsLoad(s.store, symbol);
  }

  /** A run of events, each with the quote source of its moment. */
  function Run(s: State, trace: seq<(Event, string -> Option<Quote>)>): State
    decreases |trace|
  {
    if trace == [] then s else Run(Step(s, trace[0].0, trace[0].1), trace[1..])
  }

  /** A running window keeps its invariant through any run of events. */
  lemma {:induction false} RunInv(s: State, trace: seq<(Event, string -> Option<Quote>)>)
    requires Inv(s)
    ensures Inv(Run(s, trace))
    decreases |trace|
  {
    if trace != [] {
      StepInv(s, trace[0].0, trace[0].1);
      RunInv(Step(s, trace[0].0, trace[0].1), trace[1..]);
    }
  }

  /** Only countdown firings in the run. */
  predicate OnlyCountdown(trace: seq<(Event, string -> Option<Quote>)>) {
    forall i :: 0 <= i < |trace| ==> trace[i].0 == CountdownFired
  }

  /** A run of countdown firings moves only the counter, as that many ticks would. */
  lemma {:induction false} RunCountdown(s: State, trace: seq<(Event, string -> Option<Quote>)>)
    requires OnlyCountdown(trace)
    ensures Run(s, trace) == s.(counter := Countdown.Ticks(s.counter, |trace|))
    decreases |trace|
  {
    if trace != [] {
      assert trace[0].0 == CountdownFired;
      var s1 := Step(s, trace[0].0, trace[0].1);
      assert OnlyCountdown(trace[1..]) by {
        forall i | 0 <= i < |trace[1..]|
          ensures trace[1..][i].0 == CountdownFired
        {
          assert trace[1..][i] == trace[i + 1];
        }
      }
      RunCountdown(s1, trace[1..]);
    }
  }

  /**
    After a refresh, `k` countdown firings leave the counter at
    `max(15 - k, 0)`.
   */
  lemma {:induction false} CountdownAfterRefresh(s: State, fetch: string -> Option<Quote>, trace: seq<(Event, string -> Option<Quote>)>)
    requires OnlyCountdown(trace)
    ensures var k := |trace|; Run(Step(s, RefreshFired, fetch), trace).counter == if k <= 15 then 15 - k else 0
  {
    RunCountdown(Step(s, RefreshFired, fetch), trace);
    Countdown.TicksAfterReset(|trace|);
  }
}
