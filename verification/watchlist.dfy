/**
  The two watchlist edits: adding a symbol typed as `SYMBOL ALIAS`
  (`_getSymbolFromInput`) and removing one (`_removeSymbol`). The store is
  the in-memory list together with the text of `symbols.txt`.
 */
module Watchlist {
  import opened Wrappers
  import opened PyStr
  import opened SymbolStore
  import opened Quotes

  datatype Store = Store(entries: seq<Entry>, file: string)

  /** The typed input after `strip().upper()`: empty, without a space, or cut into symbol and alias. */
  datatype Input = Blank | NoAlias | Request(symbol: string, alias: string)

  /** How an add attempt ends. */
  datatype AddOutcome = Added | EmptyInput | MissingAlias | Duplicate | UnknownSymbol

  /** Some entry of the list has exactly this first field (case matters). */
  predicate Tracked(entries: seq<Entry>, symbol: string) {
    exists i :: 0 <= i < |entries| && entries[i].symbol == symbol
  }

  /** No two entries share a first field. */
  predicate UniqueSymbols(entries: seq<Entry>) {
    forall i, j :: 0 <= i < j < |entries| ==> entries[i].symbol != entries[j].symbol
  }

  /**
    The whole input is stripped and upper-cased, alias included. Empty
    input and input without a space are refused; otherwise the symbol is
    the text before the first space and the alias the rest. Both are then
    non-empty, upper-case and joined by that space give the normalised input
    back; the symbol holds no space.
   */
  function ReadInput(text: string): (r: Input)
    ensures r.Blank? <==> Strip(text) == []
    ensures r.NoAlias? <==> Strip(text) != [] && ' ' !in Strip(text)
    ensures r.Request? ==> r.symbol + " " + r.alias == Upper(Strip(text))
    ensures r.Request? ==> |r.symbol| > 0 && |r.alias| > 0 && ' ' !in r.symbol
    ensures r.Request? ==> NoLower(r.symbol) && NoLower(r.alias)
  {
    var t := Upper(Strip(text));
    UpperKeepsSpaces(Strip(text));
    if t == [] then Blank
    else if ' ' !in t then NoAlias
    else
      var parts := SplitOnce(t);
      SplitStripped(t);
      Request(parts[0], parts[1])
  }

  /**
    Cutting a stripped, upper-case text at its first space leaves two
    non-empty upper-case parts; the symbol starts and the alias ends where
    the text does.
   */
  lemma {:induction false} SplitStripped(t: string)
    requires Stripped(t) && ' ' in t && NoLower(t)
    ensures var p := SplitOnce(t);
      && |p| == 2 && |p[0]| > 0 && |p[1]| > 0
      && p[0][0] == t[0] && p[1][|p[1]| - 1] == t[|t| - 1]
      && NoLower(p[0]) && NoLower(p[1])
  {
    var p := SplitOnce(t);
    var head, tail := p[0], p[1];
    JoinIndices(head, tail, t);
    assert IsSpace(t[|head|]) && !IsSpace(t[0]) && !IsSpace(t[|t| - 1]);
    assert |head| > 0 && |tail| > 0;
  }

  /** Where the characters of `head + " " + tail` come from; case is carried over to both parts. */
  lemma {:induction false} JoinIndices(head: string, tail: string, t: string)
    requires t == head + " " + tail
    ensures |t| == |head| + 1 + |tail| && t[|head|] == ' '
    ensures forall k :: 0 <= k < |head| ==> head[k] == t[k]
    ensures forall k :: 0 <= k < |tail| ==> tail[k] == t[|head| + 1 + k]
    ensures NoLower(t) ==> NoLower(head) && NoLower(tail)
  {
    assert forall k :: 0 <= k < |head| ==> head[k] == t[k];
    assert forall k :: 0 <= k < |tail| ==> tail[k] == t[|head| + 1 + k];
  }

  /**
    A request typed without line breaks yields an entry that saves as one
    line and loads back unchanged.
   */
  lemma {:induction false} RequestWellFormed(text: string)
    requires ReadInput(text).Request? && NoLineBreak(text)
    ensures var r := ReadInput(text); WellFormed(Full(r.symbol, r.alias))
  {
    var r := ReadInput(text);
    var s := Strip(text);
    var t := Upper(s);
    assert '\n' !in s && '\r' !in s by {
      if '\n' in s { StripChars(text, '\n'); }
      if '\r' in s { StripChars(text, '\r'); }
    }
    assert '\n' !in t && '\r' !in t by {
      UpperKeepsSpaces(s);
      assert IsSpace('\n') && IsSpace('\r');
    }
    assert Stripped(t) by {
      UpperKeepsSpaces(s);
    }
    JoinWellFormed(r.symbol, r.alias, t);
  }

  /** A stripped one-line text cut at a space into non-empty parts gives a well-formed entry. */
  lemma {:induction false} JoinWellFormed(symbol: string, alias: string, t: string)
    requires t == symbol + " " + alias && Stripped(t) && NoLineBreak(t)
    requires |symbol| > 0 && |alias| > 0 && ' ' !in symbol
    ensures WellFormed(Full(symbol, alias))
  {
    assert t[0] == symbol[0];
    assert t[|t| - 1] == alias[|alias| - 1];
    PartsOfJoin(symbol, alias);
  }

  /**
    `_getSymbolFromInput`: the checks run in the source's order (empty input,
    missing alias, duplicate symbol, validation fetch). Only when all pass
    is the entry appended to the list and its line to the file; every
    refusal leaves the store as it was.
   */
  function Add(st: Store, text: string, fetch: string -> Option<Quote>): (r: (Store, AddOutcome))
    ensures r.1 != Added ==> r.0 == st
    ensures r.1 == EmptyInput <==> Strip(text) == []
    ensures r.1 == MissingAlias <==> Strip(text) != [] && ' ' !in Strip(text)
    ensures r.1 == Duplicate <==> ReadInput(text).Request? && Tracked(st.entries, ReadInput(text).symbol)
    ensures r.1 == UnknownSymbol <==>
      ReadInput(text).Request? && !Tracked(st.entries, ReadInput(text).symbol) && !HasPrice(fetch(ReadInput(text).symbol))
    ensures r.1 == Added ==>
      var q := ReadInput(text);
      && q.Request?
      && r.0.entries == st.entries + [Full(q.symbol, q.alias)]
      && r.0.file == st.file + Line(q.symbol, q.alias)
  {
    match ReadInput(text)
    case Blank => (st, EmptyInput)
    case NoAlias => (st, MissingAlias)
    case Request(symbol, alias) =>
      if Tracked(st.entries, symbol) then (st, Duplicate)
      else if !HasPrice(fetch(symbol)) then (st, UnknownSymbol)
      else (Store(st.entries + [Full(symbol, alias)], st.file + Line(symbol, alias)), Added)
  }

  /** Adding never introduces a second entry with the same first field. */
  lemma {:induction false} AddKeepsUnique(st: Store, text: string, fetch: string -> Option<Quote>)
    requires UniqueSymbols(st.entries)
    ensures UniqueSymbols(Add(st, text, fetch).0.entries)
  {
    var r := Add(st, text, fetch);
    if r.1 == Added {
      var q := ReadInput(text);
      assert !Tracked(st.entries, q.symbol);
      SnocKeepsUnique(st.entries, Full(q.symbol, q.alias));
    }
  }

  /** Appending an entry whose symbol is untracked keeps symbols unique. */
  lemma {:induction false} SnocKeepsUnique(entries: seq<Entry>, e: Entry)
    requires UniqueSymbols(entries) && !Tracked(entries, e.symbol)
    ensures UniqueSymbols(entries + [e])
  {
    var es := entries + [e];
    forall i, j | 0 <= i < j < |es|
      ensures es[i].symbol != es[j].symbol
    {
      assert es[i] == entries[i];
      if j < |entries| {
        assert es[j] == entries[j];
      }
    }
  }

  /** Adding a symbol already on the list changes nothing, whatever the quote source says. */
  lemma {:induction false} AddDuplicateNoop(st: Store, text: string, fetch: string -> Option<Quote>)
    requires ReadInput(text).Request? && Tracked(st.entries, ReadInput(text).symbol)
    ensures Add(st, text, fetch) == (st, Duplicate)
  {
  }

  /**
    A file that is exactly the saved list stays so after an add: the one
    appended line is what saving the extended list would have written.
   */
  lemma {:induction false} AddMatchesSave(st: Store, text: string, fetch: string -> Option<Quote>)
    requires AllFull(st.entries) && st.file == Serialize(st.entries)
    ensures var st' := Add(st, text, fetch).0; st'.file == Serialize(st'.entries)
  {
    var r := Add(st, text, fetch);
    if r.1 == Added {
      var q := ReadInput(text);
      var e := Full(q.symbol, q.alias);
      SerializeSnoc(st.entries, e);
    }
  }

  /**
    A file that loads as the list and ends in a newline still does after an
    add typed without line breaks: the new line loads as the new entry.
   */
  lemma {:induction false} AddKeepsLoad(st: Store, text: string, fetch: string -> Option<Quote>)
    requires Load(st.file) == st.entries && ClosedOff(st.file) && AllWellFormed(st.entries)
    requires NoLineBreak(text)
    ensures var st' := Add(st, text, fetch).0;
      Load(st'.file) == st'.entries && ClosedOff(st'.file) && AllWellFormed(st'.entries)
  {
    if Add(st, text, fetch).1 == Added {
      var st' := AddedStore(st, text, fetch);
      var q := ReadInput(text);
      RequestWellFormed(text);
      AppendedKeepsLoad(st, st', Full(q.symbol, q.alias));
    }
  }

  /** A store grown by one well-formed entry and its line, from a closed-off file in sync, stays in sync. */
  lemma {:induction false} AppendedKeepsLoad(st: Store, st': Store, e: Entry)
    requires WellFormed(e)
    requires st'.entries == st.entries + [e] && st'.file == st.file + Line(e.symbol, e.alias)
    requires Load(st.file) == st.entries && ClosedOff(st.file) && AllWellFormed(st.entries)
    ensures Load(st'.file) == st'.entries && ClosedOff(st'.file) && AllWellFormed(st'.entries)
  {
    var l := Line(e.symbol, e.alias);
    LoadAppend(st.file, l);
    LoadLine(e);
    assert (st.file + l)[|st.file + l| - 1] == l[|l| - 1];
    forall i | 0 <= i < |st'.entries|
      ensures WellFormed(st'.entries[i])
    {
      if i < |st.entries| { assert st'.entries[i] == st.entries[i]; }
    }
  }

  /**
    The append does not start a new line: when the file's last line has no
    newline, the added line is glued onto it, so the next load finds no more
    entries than before and the file no longer matches the list.
   */
  lemma {:induction false} AddToOpenFile(st: Store, text: string, fetch: string -> Option<Quote>)
    requires Add(st, text, fetch).1 == Added && NoLineBreak(text)
    requires st.file != [] && st.file[|st.file| - 1] != '\n' && st.file[|st.file| - 1] != '\r'
    ensures |Load(Add(st, text, fetch).0.file)| == |Load(st.file)|
    ensures Load(st.file) == st.entries ==> Load(Add(st, text, fetch).0.file) != Add(st, text, fetch).0.entries
  {
    var st' := AddedStore(st, text, fetch);
    var q := ReadInput(text);
    RequestWellFormed(text);
    AppendedToOpenFile(st, st', Full(q.symbol, q.alias));
  }

  /** A store grown by one well-formed entry, whose line went onto an open last line. */
  lemma {:induction false} AppendedToOpenFile(st: Store, st': Store, e: Entry)
    requires WellFormed(e)
    requires st'.entries == st.entries + [e] && st'.file == st.file + Line(e.symbol, e.alias)
    requires st.file != [] && st.file[|st.file| - 1] != '\n' && st.file[|st.file| - 1] != '\r'
    ensures |Load(st'.file)| == |Load(st.file)|
    ensures Load(st.file) == st.entries ==> Load(st'.file) != st'.entries
  {
    AppendToOpenFile(st.file, e);
    assert |st'.entries| == |st.entries| + 1;
  }

  /** The store a successful add leaves, spelled out from the request it accepted. */
  lemma {:induction false} AddedStore(st: Store, text: string, fetch: string -> Option<Quote>) returns (st': Store)
    requires Add(st, text, fetch).1 == Added
    ensures ReadInput(text).Request? && st' == Add(st, text, fetch).0
    ensures var q := ReadInput(text);
      st' == Store(st.entries + [Full(q.symbol, q.alias)], st.file + Line(q.symbol, q.alias))
  {
    st' := Add(st, text, fetch).0;
  }

  /** `[s for s in entries if s[0] != symbol]`. */
  function Without(entries: seq<Entry>, symbol: string): (r: seq<Entry>)
    ensures forall e :: e in r <==> e in entries && e.symbol != symbol
    ensures |r| <= |entries|
    ensures !Tracked(r, symbol)
  {
    if entries == [] then []
    else if entries[0].symbol != symbol then [entries[0]] + Without(entries[1..], symbol)
    else Without(entries[1..], symbol)
  }

  /** Filtering works piecewise, so the kept entries keep their relative order. */
  lemma {:induction false} WithoutAppend(a: seq<Entry>, b: seq<Entry>, symbol: string)
    ensures Without(a + b, symbol) == Without(a, symbol) + Without(b, symbol)
  {
    if a == [] {
      assert a + b == b;
    } else {
      assert (a + b)[1..] == a[1..] + b;
      WithoutAppend(a[1..], b, symbol);
    }
  }

  /** Removing a symbol that is not on the list keeps the list as it is. */
  lemma {:induction false} WithoutAbsent(entries: seq<Entry>, symbol: string)
    requires !Tracked(entries, symbol)
    ensures Without(entries, symbol) == entries
  {
    if entries != [] {
      assert entries[0].symbol != symbol;
      assert !Tracked(entries[1..], symbol) by {
        forall i | 0 <= i < |entries[1..]|
          ensures entries[1..][i].symbol != symbol
        {
          assert entries[1..][i] == entries[i + 1];
        }
      }
      WithoutAbsent(entries[1..], symbol);
    }
  }

  /** Filtering a list with unique symbols leaves a list with unique symbols. */
  lemma {:induction false} WithoutKeepsUnique(entries: seq<Entry>, symbol: string)
    requires UniqueSymbols(entries)
    ensures UniqueSymbols(Without(entries, symbol))
  {
    if entries != [] {
      var rest := entries[1..];
      assert UniqueSymbols(rest) by {
        forall i, j | 0 <= i < j < |rest|
          ensures rest[i].symbol != rest[j].symbol
        {
          assert rest[i] == entries[i + 1] && rest[j] == entries[j + 1];
        }
      }
      WithoutKeepsUnique(rest, symbol);
      if entries[0].symbol != symbol {
        var r := [entries[0]] + Without(rest, symbol);
        forall i, j | 0 <= i < j < |r|
          ensures r[i].symbol != r[j].symbol
        {
          if i == 0 {
            assert r[j] in Without(rest, symbol);
            assert r[j] in rest;
            var k :| 0 <= k < |rest| && rest[k] == r[j];
            assert rest[k] == entries[k + 1];
          }
        }
      }
    }
  }

  /**
    `_removeSymbol`: the list keeps exactly the entries whose first field
    differs from the target, and the file is rewritten from that list.
   */
  function Remove(st: Store, symbol: string): (r: Store)
    ensures forall e :: e in r.entries <==> e in st.entries && e.symbol != symbol
    ensures !Tracked(r.entries, symbol)
    ensures r.file == Serialize(r.entries)
  {
    var kept := Without(st.entries, symbol);
    Store(kept, Serialize(kept))
  }

  /** Removing twice is removing once. */
  lemma {:induction false} RemoveIdempotent(st: Store, symbol: string)
    ensures Remove(Remove(st, symbol), symbol) == Remove(st, symbol)
  {
    WithoutAbsent(Remove(st, symbol).entries, symbol);
  }

  /** Removing an absent symbol keeps the list and rewrites the file as the saved list. */
  lemma {:induction false} RemoveAbsent(st: Store, symbol: string)
    requires !Tracked(st.entries, symbol)
    ensures Remove(st, symbol) == Store(st.entries, Serialize(st.entries))
  {
    WithoutAbsent(st.entries, symbol);
  }

  /** After a removal from a list of well-formed entries, the file loads back as the list. */
  lemma {:induction false} RemoveKeepsLoad(st: Store, symbol: string)
    requires AllWellFormed(st.entries)
    ensures var st' := Remove(st, symbol);
      Load(st'.file) == st'.entries && ClosedOff(st'.file) && AllWellFormed(st'.entries)
  {
    var kept := Without(st.entries, symbol);
    forall i | 0 <= i < |kept|
      ensures WellFormed(kept[i])
    {
      assert kept[i] in st.entries;
    }
    RoundTrip(kept);
  }

  /**
    Removing the symbol just added undoes the add: the list is the one
    before it, and the file is rewritten as that list saved.
   */
  lemma {:induction false} AddThenRemove(st: Store, text: string, fetch: string -> Option<Quote>)
    requires Add(st, text, fetch).1 == Added
    ensures var q := ReadInput(text);
      Remove(Add(st, text, fetch).0, q.symbol) == Store(st.entries, Serialize(st.entries))
  {
    var q := ReadInput(text);
    var e := Full(q.symbol, q.alias);
    assert Add(st, text, fetch).0.entries == st.entries + [e];
    WithoutAppend(st.entries, [e], q.symbol);
    WithoutAbsent(st.entries, q.symbol);
    assert Without([e], q.symbol) == [] by {
      assert [e][1..] == [];
    }
    assert st.entries + [] == st.entries;
  }

  /** Adding only ever appends a two-field entry. */
  lemma {:induction false} AddKeepsAllFull(st: Store, text: string, fetch: string -> Option<Quote>)
    requires AllFull(st.entries)
    ensures AllFull(Add(st, text, fetch).0.entries)
  {
    if Add(st, text, fetch).1 == Added {
      var q := ReadInput(text);
      SnocAllFull(st.entries, Full(q.symbol, q.alias));
    }
  }

  /** Appending a two-field entry to a list of two-field entries. */
  lemma {:induction false} SnocAllFull(entries: seq<Entry>, e: Entry)
    requires AllFull(entries) && e.Full?
    ensures AllFull(entries + [e])
  {
    var es := entries + [e];
    forall i | 0 <= i < |es|
      ensures es[i].Full?
    {
      if i < |entries| { assert es[i] == entries[i]; }
    }
  }

  /** Removing keeps only entries that were on the list. */
  lemma {:induction false} RemoveKeepsAllFull(st: Store, symbol: string)
    requires AllFull(st.entries)
    ensures AllFull(Remove(st, symbol).entries)
  {
    var kept := Remove(st, symbol).entries;
    forall i | 0 <= i < |kept|
      ensures kept[i].Full?
    {
      assert kept[i] in st.entries;
    }
  }
}
