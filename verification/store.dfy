/**
  The watchlist file `symbols.txt`: one `SYMBOL ALIAS` line per entry, loaded
  with `readlines()` and `line.strip().split(" ", 1)`, saved by writing
  `symbol + " " + alias + "\n"` for every entry.
 */
module SymbolStore {
  import opened PyStr
  import opened Seqs

  /**
    One watchlist entry. Python keeps the list `split(" ", 1)` returns: two
    fields when the stripped line holds a space, a single field otherwise.
   */
  datatype Entry = Full(symbol: string, alias: string) | SymbolOnly(symbol: string)

  /**
    One line of the file as the loader parses it: stripped, then cut at its
    first space. A line without a space (a blank line included) is a
    one-field entry, not an error.
   */
  function ParseLine(line: string): (e: Entry)
    ensures e.Full? <==> ' ' in Strip(line)
    ensures e.Full? ==> e.symbol + " " + e.alias == Strip(line) && ' ' !in e.symbol
    ensures e.SymbolOnly? ==> e.symbol == Strip(line)
  {
    var parts := SplitOnce(Strip(line));
    if |parts| == 1 then SymbolOnly(parts[0]) else Full(parts[0], parts[1])
  }

  predicate NoLineBreak(s: string) {
    '\n' !in s && '\r' !in s
  }

  /** An entry that is saved as exactly one line and loads back unchanged. */
  predicate WellFormed(e: Entry) {
    && e.Full?
    && |e.symbol| > 0 && !IsSpace(e.symbol[0]) && ' ' !in e.symbol
    && |e.alias| > 0 && !IsSpace(e.alias[|e.alias| - 1])
    && NoLineBreak(e.symbol) && NoLineBreak(e.alias)
  }

  predicate AllFull(entries: seq<Entry>) {
    forall i :: 0 <= i < |entries| ==> entries[i].Full?
  }

  predicate AllWellFormed(entries: seq<Entry>) {
    forall i :: 0 <= i < |entries| ==> WellFormed(entries[i])
  }

  /** The watchlist `_getSymbolsFromFile` builds from the file's text: one entry per line, in file order. */
  function Load(text: string): (entries: seq<Entry>)
    ensures |entries| == |ReadLines(Universal(text))|
    ensures forall i :: 0 <= i < |entries| ==> entries[i] == ParseLine(ReadLines(Universal(text))[i])
    ensures text == [] ==> entries == []
  {
    Map(ParseLine, ReadLines(Universal(text)))
  }

  /** The line written for one entry, both on save and on append. */
  function Line(symbol: string, alias: string): (l: string)
    ensures |l| == |symbol| + |alias| + 2
    ensures l[..|symbol|] == symbol && l[|symbol|] == ' '
    ensures l[|symbol| + 1..|l| - 1] == alias && Terminated(l)
  {
    symbol + " " + alias + "\n"
  }

  /**
    The file `_saveSymbolsToFile` leaves behind. The file is truncated and one
    line is written per entry; unpacking `symbol, alias` raises at the first
    one-field entry, the handler swallows the error, and only the lines
    written before it remain.
   */
  function Serialize(entries: seq<Entry>): (text: string)
    ensures ClosedOff(text)
    ensures text == [] <==> entries == [] || entries[0].SymbolOnly?
  {
    if entries == [] || entries[0].SymbolOnly? then []
    else
      var rest := Serialize(entries[1..]);
      var line := Line(entries[0].symbol, entries[0].alias);
      assert (line + rest)[|line + rest| - 1] == if rest == [] then '\n' else rest[|rest| - 1];
      line + rest
  }

  /** Saving a list of two-field entries writes the lines of its parts one after the other. */
  lemma {:induction false} SerializeAppend(a: seq<Entry>, b: seq<Entry>)
    requires AllFull(a)
    ensures Serialize(a + b) == Serialize(a) + Serialize(b)
  {
    if a == [] {
      assert a + b == b;
    } else {
      assert (a + b)[1..] == a[1..] + b;
      SerializeAppend(a[1..], b);
    }
  }

  /** Saving a list with one more two-field entry at the end writes one more line at the end. */
  lemma {:induction false} SerializeSnoc(entries: seq<Entry>, e: Entry)
    requires AllFull(entries) && e.Full?
    ensures Serialize(entries + [e]) == Serialize(entries) + Line(e.symbol, e.alias)
  {
    var l := Line(e.symbol, e.alias);
    assert Serialize([e]) == l by {
      assert [e][1..] == [];
      assert Serialize([e]) == l + Serialize([]);
      assert l + [] == l;
    }
    SerializeAppend(entries, [e]);
  }

  /** Saving stops silently at the first one-field entry: nothing from it onwards reaches the file. */
  lemma {:induction false} SerializeStopsAtSymbolOnly(a: seq<Entry>, symbol: string, b: seq<Entry>)
    requires AllFull(a)
    ensures Serialize(a + [SymbolOnly(symbol)] + b) == Serialize(a)
  {
    SerializeAppend(a, [SymbolOnly(symbol)] + b);
    assert a + [SymbolOnly(symbol)] + b == a + ([SymbolOnly(symbol)] + b);
  }

  /** Translation of line ends never removes the final newline. */
  lemma {:induction false} UniversalClosedOff(s: string)
    requires ClosedOff(s)
    ensures ClosedOff(Universal(s))
    decreases |s|
  {
    if s == [] {
    } else if s[0] == '\r' {
      if |s| >= 2 && s[1] == '\n' {
        if |s| > 2 { UniversalClosedOff(s[2..]); }
      } else {
        UniversalClosedOff(s[1..]);
      }
    } else if |s| > 1 {
      UniversalClosedOff(s[1..]);
    }
  }

  /** The text appended after a closed-off file loads as entries of its own, after the existing ones. */
  lemma {:induction false} LoadAppend(a: string, b: string)
    requires ClosedOff(a)
    ensures Load(a + b) == Load(a) + Load(b)
  {
    var ua, ub := Universal(a), Universal(b);
    UniversalAppend(a, b);
    UniversalClosedOff(a);
    ReadLinesAppend(ua, ub);
    MapAppend(ParseLine, ReadLines(ua), ReadLines(ub));
  }

  /** The line written for a well-formed entry parses back to that entry. */
  lemma {:induction false} ParseWrittenLine(e: Entry)
    requires WellFormed(e)
    ensures ParseLine(Line(e.symbol, e.alias)) == e
  {
    var t := e.symbol + " " + e.alias;
    var l := Line(e.symbol, e.alias);
    assert l == t + "\n";
    assert t[0] == e.symbol[0];
    assert t[|t| - 1] == e.alias[|e.alias| - 1];
    assert StripLeft(l) == l;
    assert StripRight(l) == StripRight(t) by {
      assert l[..|l| - 1] == t;
    }
    assert Strip(l) == t;
    SplitOnceJoin(e.symbol, e.alias);
  }

  /** The line written for a well-formed entry is one terminated line with no carriage return. */
  lemma {:induction false} WrittenLineShape(e: Entry)
    requires WellFormed(e)
    ensures var l := Line(e.symbol, e.alias); IsLine(l) && Terminated(l) && '\r' !in l
  {
    var l := Line(e.symbol, e.alias);
    assert '\r' !in l;
    assert IsLine(l) by {
      forall k | 0 <= k < |l| - 1
        ensures l[k] != '\n'
      {
        if k < |e.symbol| {
          assert l[k] == e.symbol[k];
        } else if k > |e.symbol| {
          assert l[k] == e.alias[k - |e.symbol| - 1];
        }
      }
    }
  }

  /** A file holding just the line of a well-formed entry loads as that one entry. */
  lemma {:induction false} LoadLine(e: Entry)
    requires WellFormed(e)
    ensures Load(Line(e.symbol, e.alias)) == [e]
  {
    var l := Line(e.symbol, e.alias);
    WrittenLineShape(e);
    assert Universal(l) == l;
    ReadOneLine(l);
    ParseWrittenLine(e);
  }

  /**
    A line appended to a file whose last line has no newline is glued onto
    that line: the file loads with as many entries as before the append.
   */
  lemma {:induction false} AppendToOpenFile(file: string, e: Entry)
    requires file != [] && file[|file| - 1] != '\n' && file[|file| - 1] != '\r'
    requires WellFormed(e)
    ensures |Load(file + Line(e.symbol, e.alias))| == |Load(file)|
  {
    var l := Line(e.symbol, e.alias);
    WrittenLineShape(e);
    UniversalAppend(file, l);
    UniversalOpen(file);
    ReadLinesJoinOpen(Universal(file), l);
  }

  /**
    Round trip: saving a list of well-formed entries and loading the file
    gives back the identical list, in the same order.
   */
  lemma {:induction false} RoundTrip(entries: seq<Entry>)
    requires AllWellFormed(entries)
    ensures Load(Serialize(entries)) == entries
  {
    if entries == [] {
    } else {
      var e, rest := entries[0], entries[1..];
      RoundTrip(rest);
      RoundTripStep(e, rest);
      assert [e] + rest == entries;
    }
  }

  /** Saving one more well-formed entry in front of a list that round-trips keeps the round trip. */
  lemma {:induction false} RoundTripStep(e: Entry, rest: seq<Entry>)
    requires WellFormed(e) && Load(Serialize(rest)) == rest
    ensures Load(Serialize([e] + rest)) == [e] + rest
  {
    var l := Line(e.symbol, e.alias);
    assert Serialize([e] + rest) == l + Serialize(rest) by {
      assert ([e] + rest)[1..] == rest;
    }
    LoadAppend(l, Serialize(rest));
    LoadLine(e);
  }

  /**
    Every two-field entry of a loaded line is well-formed: its symbol is
    non-empty, starts with no whitespace and holds no space; its alias is
    non-empty and ends in no whitespace; neither holds a line break.
   */
  lemma {:induction false} ParsedLineWellFormed(line: string)
    requires IsLine(line) && '\r' !in line
    requires ParseLine(line).Full?
    ensures WellFormed(ParseLine(line))
  {
    var e := ParseLine(line);
    var t := Strip(line);
    assert t == e.symbol + " " + e.alias;
    assert t[|e.symbol|] == ' ';
    assert !IsSpace(t[0]) && !IsSpace(t[|t| - 1]);
    assert |e.symbol| > 0 && |e.alias| > 0;
    assert t[0] == e.symbol[0];
    assert t[|t| - 1] == e.alias[|e.alias| - 1];
    StripOfLineHasNoNewline(line);
    assert '\r' !in t by {
      if '\r' in t { StripChars(line, '\r'); }
    }
    PartsOfJoin(e.symbol, e.alias);
  }

  /** Stripping a line removes its newline, and no other newline is left. */
  lemma {:induction false} StripOfLineHasNoNewline(line: string)
    requires IsLine(line)
    ensures '\n' !in Strip(line)
  {
    forall k | 0 <= k < |Strip(line)|
      ensures Strip(line)[k] != '\n'
    {
      StripCharOfLine(line, k);
    }
  }

  /** One character of a stripped line: not the newline, which only the stripped end could hold. */
  lemma {:induction false} StripCharOfLine(line: string, k: nat)
    requires IsLine(line) && k < |Strip(line)|
    ensures Strip(line)[k] != '\n'
  {
    var j := StripIndex(line, k);
    if j == |line| - 1 {
      StripLastIndex(line, k);
      assert !IsSpace(Strip(line)[k]);
    }
  }

  /** The two halves of a space-joined string hold only characters of the whole. */
  lemma {:induction false} PartsOfJoin(a: string, b: string)
    ensures forall c :: c in a ==> c in a + " " + b
    ensures forall c :: c in b ==> c in a + " " + b
  {
    var t := a + " " + b;
    forall c | c in b
      ensures c in t
    {
      var k :| 0 <= k < |b| && b[k] == c;
      assert t[|a| + 1 + k] == c;
    }
  }

  /** Every two-field entry loaded from any file is well-formed. */
  lemma {:induction false} LoadWellFormed(text: string)
    ensures forall i :: 0 <= i < |Load(text)| && Load(text)[i].Full? ==> WellFormed(Load(text)[i])
  {
    var lines := ReadLines(Universal(text));
    forall i | 0 <= i < |Load(text)| && Load(text)[i].Full?
      ensures WellFormed(Load(text)[i])
    {
      ReadLinesLackChar(Universal(text), '\r');
      ReadLinesShape(Universal(text));
      ParsedLineWellFormed(lines[i]);
    }
  }

  /**
    A file whose every line holds a space survives a save: saving what was
    loaded and loading again gives the same watchlist.
   */
  lemma {:induction false} LoadSaveLoad(text: string)
    requires AllFull(Load(text))
    ensures Load(Serialize(Load(text))) == Load(text)
  {
    LoadWellFormed(text);
    RoundTrip(Load(text));
  }
}
