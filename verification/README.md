# MarketMonitor watchlist engine in Dafny

This project models the window class `MonitorGieldowy` of MarketMonitor
(`source/main.py`) without its widgets. It covers:

- the watchlist file `symbols.txt`, with one `SYMBOL ALIAS` line per entry;
- loading the file: `readlines()` followed by `strip().split(" ", 1)` on each line;
- saving the file: one `f"{symbol} {alias}\n"` per entry;
- adding a symbol typed as `SYMBOL ALIAS`. The checks run in order: strip and upper-case, empty input, missing alias, duplicate symbol, a validation quote. On success the entry is appended to the list and its line to the file;
- removing a symbol: an order-preserving filter followed by a full rewrite of the file;
- the "Refresh in Ns" countdown: reset to `15000 // 1000 = 15`, then decremented with a floor at 0;
- the price-list pass: one row per entry, classified green, gray or red, or an exception that ends the pass;
- the window as a state machine driven by four events. A countdown fires, a refresh fires, Add is pressed, or a row's Remove is pressed.

## Modules

- `Wrappers` and `Seqs` hold `Option` and a sequence `Map`.
- `PyStr` models the parts of Python's `str` and text files that the watchlist relies on:
  - `isspace`, `strip`, `split(" ", 1)` and `upper`;
  - universal-newline translation on read;
  - `readlines`.
- `SymbolStore` holds entries, the parse of a line, `Load` and `Serialize`, and the round trip between them.
- `Quotes` holds the quote snapshot, the row view with its faults, and the trend colour.
- `PriceList` holds one `_updatePrices` pass.
- `Countdown` holds the counter.
- `Watchlist` holds `_getSymbolFromInput` and `_removeSymbol` on a store. A store is the list together with the file text.
- `Monitor` holds startup, the events, and the invariants they keep.

## Behaviour as the code has it

- A line with no space loads as a one-field entry (`SymbolOnly`) and is not an error. The `strip().split(" ", 1)` at line 53 never raises `ValueError`, so the handler at lines 60-62 that empties the list is not reached by the parse. It is reached only by a decoding error (`UnicodeDecodeError` is a `ValueError`), which is left out together with decoding.
- A one-field entry makes `for symbol, alias in ...` raise:
  - while saving, the error is swallowed, and the file keeps only the lines written before that entry;
  - while drawing the price list, the pass stops.
- The first pass runs inside `__init__`, so a file holding a one-field entry ends the program at startup (`Monitor.Start`).
- Drawing a row computes `currentPrice - lastClose` and `currentPrice / lastClose` before it checks `lastClose`. So a missing last close raises, and so does a zero one. The gray branch for a missing last close is never reached.
- Adding opens the file for appending. If the file's last line has no newline, the new line is glued onto it (`Watchlist.AddToOpenFile`).

## Model

| member | source | states |
|---|---|---|
| PyStr.IsSpace | source/main.py:53 | definition: the characters `str.isspace` accepts, which `strip()` removes at lines 53 and 66 |
| PyStr.Strip | source/main.py:53 | `strip()` leaves no whitespace at either end, and only whitespace was cut from around the result |
| PyStr.StripChars | source/main.py:53 | every character of a stripped line occurs in the line |
| PyStr.SplitOnce | source/main.py:53 | `split(" ", 1)` gives one part exactly when there is no space; otherwise two parts, a head with no space, which joined by one space give the input back |
| PyStr.SplitOnceJoin | source/main.py:75 | splitting `head + " " + tail` gives back `[head, tail]` whatever spaces the tail holds |
| PyStr.Upper | source/main.py:66 | upper-casing keeps the length, maps each ASCII lower-case letter to its capital and keeps every other character |
| PyStr.UpperKeepsSpaces | source/main.py:66 | upper-casing moves no whitespace, so stripping then upper-casing leaves a stripped text |
| PyStr.UpperIdempotent | source/main.py:66 | upper-casing twice equals upper-casing once |
| PyStr.Universal | source/main.py:51 | reading in text mode leaves no carriage return and leaves a text without one unchanged |
| PyStr.UniversalAppend | source/main.py:51 | newline translation of a text not ending in `'\r'` can be done piece by piece |
| PyStr.UniversalCrLf | source/main.py:51 | a `"\r\n"` pair is read as a single `'\n'`, wherever it sits and whatever follows |
| PyStr.UniversalLoneCr | source/main.py:51 | a `'\r'` not followed by `'\n'` is read as `'\n'`, wherever it sits |
| PyStr.ReadLines | source/main.py:53 | definition: `readlines()` cuts the text after every `'\n'`, the last piece kept even without one; its properties are the lemmas below |
| PyStr.ReadLinesShape | source/main.py:53 | `readlines()` gives non-empty lines, each holding a newline only as its last character, and all but possibly the last ending in one |
| PyStr.ReadLinesConcat | source/main.py:53 | joining the lines `readlines()` returns gives the text back |
| PyStr.ReadLinesAppend | source/main.py:53 | the lines of a text ending in a newline are unaffected by what follows it |
| PyStr.ReadLinesJoinOpen | source/main.py:88-89 | a terminated line appended to a text with an open last line adds no line |
| SymbolStore.ParseLine | source/main.py:52-54 | a line gives a two-field entry exactly when its stripped form holds a space, and the fields joined by one space rebuild it; otherwise one field, the stripped line |
| SymbolStore.Load | source/main.py:48-54 | the loaded list has one entry per line that `readlines` yields from the newline-translated text, entry `i` being line `i` parsed, and an empty file loads as the empty list |
| SymbolStore.Line | source/main.py:89 | the written line is the symbol, one space, the alias and a newline, in that order |
| SymbolStore.Serialize | source/main.py:106-113 | the saved file ends in a newline, and it is empty exactly when the list is empty or starts with a one-field entry |
| SymbolStore.SerializeAppend | source/main.py:109-111 | saving a list of two-field entries writes the lines of its parts one after the other |
| SymbolStore.SerializeSnoc | source/main.py:110-111 | saving a list with one more two-field entry appends exactly that entry's line |
| SymbolStore.SerializeStopsAtSymbolOnly | source/main.py:110-113 | nothing from the first one-field entry onwards reaches the file |
| SymbolStore.LoadAppend | source/main.py:51-54 | text appended after a file ending in a newline loads as entries of its own after the file's |
| SymbolStore.ParseWrittenLine | source/main.py:110-111 | the line written for a well-formed entry parses back to that entry |
| SymbolStore.LoadLine | source/main.py:89 | a file holding just the line of a well-formed entry loads as that one entry |
| SymbolStore.AppendToOpenFile | source/main.py:88-89 | appending a line to a file whose last line is open leaves the number of loaded entries unchanged |
| SymbolStore.RoundTrip | source/main.py:106-111 | saving well-formed entries and loading the file gives back the identical list in the same order |
| SymbolStore.ParsedLineWellFormed | source/main.py:53 | a two-field entry parsed from a line has a non-empty symbol with no space or leading whitespace and a non-empty alias with no trailing whitespace, and neither holds a line break |
| SymbolStore.StripOfLineHasNoNewline | source/main.py:53 | stripping a `readlines` line removes its newline and leaves no other |
| SymbolStore.LoadWellFormed | source/main.py:52-54 | every two-field entry loaded from any file is well-formed |
| SymbolStore.LoadSaveLoad | source/main.py:106-111 | a file whose every line holds a space loads as the same list after a save |
| Quotes.HasPrice | source/main.py:84 | a quote counts as valid exactly when there is one and its current price is present |
| Quotes.TrendOf | source/main.py:162-167 | the trend is up, flat or down exactly as the last close is below, equal to or above the current price |
| Quotes.ViewOf | source/main.py:154-172 | "No data" exactly when there is no quote or no current price; with a price, a missing last close raises, a zero last close raises, a present non-zero one gives a priced row, and a priced row shows both prices with the trend between them |
| Quotes.RowColour | source/main.py:161-172 | a drawn row is green exactly when the price rose above the last close, red exactly when it fell below, gray exactly when it is unchanged or there is no data |
| PriceList.Refresh | source/main.py:144-185 | rows are drawn in list order, row `i` for entry `i`; the pass completes exactly when no entry raises, and otherwise stops at the first entry that raises, with that entry's fault |
| PriceList.SymbolOnlyAborts | source/main.py:145 | a list holding a one-field entry never renders completely |
| Countdown.Tick | source/main.py:124-127 | a firing decrements a positive counter by one and leaves zero otherwise |
| Countdown.FullIsFifteen | source/main.py:43 | the reset value is the 15000 ms interval in whole seconds, 15 |
| Countdown.TickInRange | source/main.py:124-127 | a counter within [0, 15] stays within it |
| Countdown.TicksFloor | source/main.py:124-127 | `k` firings from a non-negative counter leave `max(counter - k, 0)` |
| Countdown.TicksAfterReset | source/main.py:133 | `k` firings after a reset leave `max(15 - k, 0)` |
| Watchlist.ReadInput | source/main.py:66-75 | input is refused as blank exactly when it strips to nothing and as lacking an alias exactly when the stripped text has no space; otherwise symbol and alias are non-empty, hold no lower-case ASCII letter, and joined by one space give the stripped, upper-cased input |
| Watchlist.RequestWellFormed | source/main.py:66-75 | an accepted input typed without line breaks yields a well-formed entry |
| Watchlist.Add | source/main.py:64-97 | each refusal leaves the store unchanged and happens exactly when its check fails in the source's order; on success the entry is appended to the list and its line to the file |
| Watchlist.AddKeepsUnique | source/main.py:77-79 | adding never creates a second entry with the same symbol |
| Watchlist.AddDuplicateNoop | source/main.py:77-79 | adding a tracked symbol changes nothing, whatever the quote source says |
| Watchlist.AddMatchesSave | source/main.py:85-89 | a file equal to the saved list stays equal to the saved list after an add |
| Watchlist.AddKeepsLoad | source/main.py:85-89 | a file that ends in a newline and loads as the list still does after an add typed without line breaks |
| Watchlist.AddToOpenFile | source/main.py:88-89 | when the file's last line is open, an add leaves the entry count on reload unchanged and the file no longer loads as the list |
| Watchlist.AddThenRemove | source/main.py:85-103 | removing the symbol just added restores the list from before the add and rewrites the file as that list saved |
| Watchlist.Without | source/main.py:102 | the filter keeps exactly the entries whose symbol differs from the target |
| Watchlist.WithoutAppend | source/main.py:102 | the filter works piecewise, so kept entries keep their order |
| Watchlist.WithoutKeepsUnique | source/main.py:102 | filtering keeps symbols unique |
| Watchlist.Remove | source/main.py:101-103 | the list keeps exactly the entries with other symbols, the target is gone, and the file is rewritten from the new list |
| Watchlist.RemoveIdempotent | source/main.py:101-103 | removing twice equals removing once |
| Watchlist.RemoveAbsent | source/main.py:101-103 | removing an absent symbol keeps the list and rewrites the file as the saved list |
| Watchlist.RemoveKeepsLoad | source/main.py:101-103 | after a removal from well-formed entries the file ends in a newline and loads as the list |
| Monitor.Start | source/main.py:17-46 | startup crashes exactly when the first pass raises, with that pass's fault, and always when the file holds a one-field entry; a running window holds the list loaded from the file (or an empty list and file when there is none), the counter at 15, the complete price list that pass drew, only two-field entries and a file that loads as the list |
| Monitor.StartInv | source/main.py:43-46 | a running window starts inside the invariant |
| Monitor.Refreshed | source/main.py:131-185 | a pass keeps the store, resets the counter to 15, completes exactly when no entry raises, drawing then one row per entry, and otherwise stops at the first entry that raises with that entry's fault; row `i` is drawn for entry `i` |
| Monitor.Step | source/main.py:33-41 | a countdown firing moves only the counter; a refresh keeps the store; an add leaves the store `Watchlist.Add` gives and a remove the one `Watchlist.Remove` gives; a refused add changes nothing; any other event resets the counter and redraws the price list for the new store; after a remove the symbol is untracked |
| Monitor.StepInv | source/main.py:124-133 | every event keeps the counter within [0, 15] and every entry two-field |
| Monitor.StepKeepsUnique | source/main.py:77-103 | every event keeps symbols unique |
| Monitor.StepKeepsSync | source/main.py:85-111 | every event keeps the file loading as the list, given that added text holds no line break |
| Monitor.RunInv | source/main.py:124-133 | any run of events keeps the invariant |
| Monitor.RunCountdown | source/main.py:38-41 | a run of countdown firings moves only the counter, as that many ticks would |
| Monitor.CountdownAfterRefresh | source/main.py:124-133 | `k` countdown firings after a refresh leave the counter at `max(15 - k, 0)` |

## Left out

- The Qt interface is not modelled: widgets, layouts, the icon, window geometry, the "Always on top" toggle, and the window-title text beyond the counter value.
- `getData` (`gettingData.py`) is not part of this model. It is a parameter `fetch` mapping a symbol to an optional quote. Its network access, its internals and any exception it raises are left out.
- Each event sees one `fetch`. The validation quote of an add and the quotes of the refresh that follows it are taken from the same function, although in reality they are separate network calls.
- Timers are discrete events, not wall-clock time.
- File I/O is modelled as the file's text, taken as already decoded. The following are left out:
  - opening or writing failures, and the exception handlers that print them (lines 91-92, 112-113 beyond truncation);
  - the creation of a missing file, which is modelled as an empty store.
- All `print` calls are left out.
- Prices are compared as mathematical reals. Float NaN and infinite quotes are left out. With a NaN last close, lines 155-156 do not raise, and neither `<` nor `==` holds at lines 162-164, so the row would be red; the model cannot represent that input.
- The display text is not modelled: the price difference and percentage (floating point), their `:.2f` formatting, and the currency.
- Exceptions are modelled as the `Fault` that ends a pass:
  - at startup it is `Monitor.Start` returning `Crashed`;
  - in an event it is a price list left `Aborted`, with the rows drawn before it.

  How Qt reports an exception from a slot is left out.
- PyStr.Upper: covers ASCII letters only. The source's `str.upper()` also maps non-ASCII letters, including some one-to-many mappings such as `'ß'` to `"SS"`. As a result the model treats non-ASCII lower-case input as already upper-case.
- Watchlist.ReadInput: its "no lower-case letter" claim is ASCII-only, for the same reason as `PyStr.Upper`.
- Watchlist.Remove: its contract states membership. The order of the kept entries is stated separately by `Watchlist.WithoutAppend`.
- The `ValueError` handler of `_getSymbolFromInput` (lines 98-99) has no counterpart in the model. The split at line 75 cannot raise, because it follows the space check at line 71. The `_updatePrices` call at line 95 is inside the same `try` and would raise `ValueError` on a one-field entry, but `Monitor.Start` keeps such entries out of a running window. Exceptions from `getData` are left out with it.
- Watchlist.Add and Watchlist.Remove: the file text is written with `'\n'` verbatim. A file opened for writing in text mode turns each `'\n'` into `os.linesep`, so their equalities about the file text hold only where `os.linesep` is `"\n"`. The entries loaded back are the same either way, because reading translates `"\r\n"` back to `'\n'` (`PyStr.UniversalCrLf`).
