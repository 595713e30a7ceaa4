/**
  The parts of Python's `str` and text-file behaviour the watchlist relies on:
  `isspace`, `strip()`, `split(" ", 1)`, `upper()`, the universal-newline
  translation of a file opened for reading, and `readlines()`.
 */
module PyStr {

  /** `c.isspace()`: the code points Python treats as whitespace. */
  predicate IsSpace(c: char) {
    var n := c as int;
    || n == 0x20
    || 0x09 <= n <= 0x0D
    || 0x1C <= n <= 0x1F
    || n == 0x85
    || n == 0xA0
    || n == 0x1680
    || 0x2000 <= n <= 0x200A
    || n == 0x2028
    || n == 0x2029
    || n == 0x202F
    || n == 0x205F
    || n == 0x3000
  }

  /** Nothing `strip()` would remove: empty, or whitespace at neither end. */
  predicate Stripped(s: string) {
    s == [] || (!IsSpace(s[0]) && !IsSpace(s[|s| - 1]))
  }

  /** How many whitespace characters `s` starts with. */
  function LeadingSpaces(s: string): (n: nat)
    ensures n <= |s|
    ensures forall k :: 0 <= k < n ==> IsSpace(s[k])
    ensures n == |s| || !IsSpace(s[n])
  {
    if |s| > 0 && IsSpace(s[0]) then 1 + LeadingSpaces(s[1..]) else 0
  }

  /** How many whitespace characters `s` ends with. */
  function TrailingSpaces(s: string): (n: nat)
    ensures n <= |s|
    ensures forall k :: |s| - n <= k < |s| ==> IsSpace(s[k])
    ensures n == |s| || !IsSpace(s[|s| - n - 1])
  {
    if |s| > 0 && IsSpace(s[|s| - 1]) then 1 + TrailingSpaces(s[..|s| - 1]) else 0
  }

  /** `s.lstrip()`: the suffix left after dropping leading whitespace. */
  function StripLeft(s: string): (r: string)
    ensures r == [] || !IsSpace(r[0])
  {
    s[LeadingSpaces(s)..]
  }

  /** `s.rstrip()`: the prefix left after dropping trailing whitespace. */
  function StripRight(s: string): (r: string)
    ensures r == [] || !IsSpace(r[|r| - 1])
  {
    s[..|s| - TrailingSpaces(s)]
  }

  /**
    `s.strip()`: the longest infix with no whitespace at either end, all of
    whose surroundings are whitespace.
   */
  function Strip(s: string): (r: string)
    ensures Stripped(r)
    ensures exists i :: StrippedAt(s, r, i)
  {
    StripBothAt(s);
    StripRight(StripLeft(s))
  }

  /** Stripping the left end and then the right end leaves an infix surrounded by whitespace. */
  lemma {:induction false} StripBothAt(s: string)
    ensures StrippedAt(s, StripRight(StripLeft(s)), |s| - |StripLeft(s)|)
  {
    var l := StripLeft(s);
    var r := StripRight(l);
    var i := |s| - |l|;
    forall k | 0 <= k < |r|
      ensures r[k] == s[i + k]
    {
      assert r[k] == l[k];
      assert l[k] == s[i + k];
    }
    assert r == s[i..i + |r|];
    forall k | i + |r| <= k < |s|
      ensures IsSpace(s[k])
    {
      assert s[k] == l[k - i];
    }
  }

  /** `r` sits in `s` at offset `i`, with only whitespace before and after it. */
  predicate StrippedAt(s: string, r: string, i: int) {
    && 0 <= i <= i + |r| <= |s|
    && r == s[i..i + |r|]
    && (forall k :: 0 <= k < i ==> IsSpace(s[k]))
    && (forall k :: i + |r| <= k < |s| ==> IsSpace(s[k]))
  }

  /** Characters of `s.strip()` are characters of `s`. */
  lemma {:induction false} StripChars(s: string, c: char)
    requires c in Strip(s)
    ensures c in s
  {
    var l := StripLeft(s);
    var r := StripRight(l);
    var k :| 0 <= k < |r| && r[k] == c;
    assert r[k] == l[k];
    assert l[k] == s[|s| - |l| + k];
  }

  /** Where character `k` of `s.strip()` sits in `s`. */
  lemma {:induction false} StripIndex(s: string, k: nat) returns (j: nat)
    requires k < |Strip(s)|
    ensures j == |s| - |StripLeft(s)| + k && j < |s| && Strip(s)[k] == s[j]
  {
    var l := StripLeft(s);
    j := |s| - |l| + k;
    assert Strip(s) == StripRight(l);
    assert Strip(s)[k] == l[k];
  }

  /** Only the last character of `s.strip()` can come from the last character of `s`. */
  lemma {:induction false} StripLastIndex(s: string, k: nat)
    requires k < |Strip(s)| && |s| - |StripLeft(s)| + k == |s| - 1
    ensures k == |Strip(s)| - 1
  {
    var l := StripLeft(s);
    assert |Strip(s)| <= |l|;
  }

  /** Index of the first `c` in `s`, or `|s|` when there is none (`s.find(c)` with -1 read as `|s|`). */
  function IndexOf(s: string, c: char): (r: nat)
    ensures r <= |s|
    ensures r < |s| ==> s[r] == c
    ensures forall k :: 0 <= k < r ==> s[k] != c
  {
    if |s| == 0 then 0 else if s[0] == c then 0 else 1 + IndexOf(s[1..], c)
  }

  /**
    `s.split(" ", 1)`: one part when `s` has no space, otherwise the text
    before the first space and everything after it, verbatim.
   */
  function SplitOnce(s: string): (parts: seq<string>)
    ensures |parts| == 1 || |parts| == 2
    ensures |parts| == 1 <==> ' ' !in s
    ensures |parts| == 1 ==> parts[0] == s
    ensures |parts| == 2 ==> parts[0] + " " + parts[1] == s && ' ' !in parts[0]
  {
    var i := IndexOf(s, ' ');
    if i == |s| then [s] else [s[..i], s[i + 1..]]
  }

  /** Splitting undoes joining with a single space, whatever spaces the tail holds. */
  lemma {:induction false} SplitOnceJoin(head: string, tail: string)
    requires ' ' !in head
    ensures SplitOnce(head + " " + tail) == [head, tail]
  {
    var s := head + " " + tail;
    assert s[|head|] == ' ';
    assert forall k :: 0 <= k < |head| ==> s[k] == head[k];
    var i := IndexOf(s, ' ');
    assert i == |head|;
    assert s[..i] == head;
    assert s[i + 1..] == tail;
  }

  /** ASCII `upper()` of one character. */
  function UpperChar(c: char): char {
    if 'a' <= c <= 'z' then (c as int - 32) as char else c
  }

  /** No ASCII lower-case letter occurs in `s`. */
  predicate NoLower(s: string) {
    forall k :: 0 <= k < |s| ==> !('a' <= s[k] <= 'z')
  }

  /**
    `s.upper()` restricted to ASCII: each lower-case letter becomes its
    capital, every other character is kept in place.
   */
  function Upper(s: string): (r: string)
    ensures |r| == |s|
    ensures NoLower(r)
    ensures forall k :: 0 <= k < |s| && 'a' <= s[k] <= 'z' ==> r[k] as int == s[k] as int - 32
    ensures forall k :: 0 <= k < |s| && !('a' <= s[k] <= 'z') ==> r[k] == s[k]
  {
    seq(|s|, k requires 0 <= k < |s| => UpperChar(s[k]))
  }

  /** Upper-casing keeps whitespace, spaces and line breaks exactly where they were. */
  lemma {:induction false} UpperKeepsSpaces(s: string)
    ensures forall k :: 0 <= k < |s| ==> (IsSpace(Upper(s)[k]) <==> IsSpace(s[k]))
    ensures forall c :: IsSpace(c) ==> (c in Upper(s) <==> c in s)
    ensures Stripped(s) ==> Stripped(Upper(s))
  {
    var u := Upper(s);
    forall c | IsSpace(c)
      ensures c in u <==> c in s
    {
      if c in s {
        var k :| 0 <= k < |s| && s[k] == c;
        assert u[k] == c;
      }
      if c in u {
        var k :| 0 <= k < |u| && u[k] == c;
        assert s[k] == c;
      }
    }
  }

  /** Upper-casing twice is upper-casing once. */
  lemma {:induction false} UpperIdempotent(s: string)
    ensures Upper(Upper(s)) == Upper(s)
  {
  }

  /**
    What a file opened in text mode with the default `newline=None` delivers:
    every `"\r\n"` and every lone `'\r'` is read as `'\n'`.
   */
  function Universal(s: string): (r: string)
    ensures '\r' !in r
    ensures '\r' !in s ==> r == s
    decreases |s|
  {
    if |s| == 0 then []
    else if s[0] == '\r' then
      if |s| >= 2 && s[1] == '\n' then "\n" + Universal(s[2..]) else "\n" + Universal(s[1..])
    else [s[0]] + Universal(s[1..])
  }

  /** Translation works line by line: a text not ending in '\r' can be translated on its own. */
  lemma {:induction false} UniversalAppend(a: string, b: string)
    requires a == [] || a[|a| - 1] != '\r'
    ensures Universal(a + b) == Universal(a) + Universal(b)
    decreases |a|
  {
    if a == [] {
      assert a + b == b;
    } else {
      var n := if a[0] == '\r' && a[1] == '\n' then 2 else 1;
      var head := [if a[0] == '\r' then '\n' else a[0]];
      assert Universal(a + b) == head + Universal(a[n..] + b) by {
        var s := a + b;
        assert s[0] == a[0];
        assert a[0] == '\r' ==> |a| >= 2 && s[1] == a[1];
        assert s[n..] == a[n..] + b;
      }
      assert Universal(a) == head + Universal(a[n..]);
      var rest := a[n..];
      assert rest == [] || rest[|rest| - 1] == a[|a| - 1];
      UniversalAppend(rest, b);
      AppendAssoc(head, Universal(rest), Universal(b));
    }
  }

  /** A `"\r\n"` pair is read as one `'\n'`. */
  lemma {:induction false} UniversalCrLf(a: string, b: string)
    requires '\r' !in a
    ensures Universal(a + "\r\n" + b) == a + "\n" + Universal(b)
  {
    var t := "\r\n" + b;
    assert a + "\r\n" + b == a + t;
    UniversalAppend(a, t);
    assert Universal(t) == "\n" + Universal(b) by {
      assert t[0] == '\r' && t[1] == '\n' && t[2..] == b;
    }
    AppendAssoc(a, "\n", Universal(b));
  }

  /** A `'\r'` not followed by `'\n'` is read as `'\n'`. */
  lemma {:induction false} UniversalLoneCr(a: string, b: string)
    requires '\r' !in a
    requires b == [] || b[0] != '\n'
    ensures Universal(a + "\r" + b) == a + "\n" + Universal(b)
  {
    var t := "\r" + b;
    assert a + "\r" + b == a + t;
    UniversalAppend(a, t);
    assert Universal(t) == "\n" + Universal(b) by {
      assert t[0] == '\r' && t[1..] == b;
      assert |t| >= 2 ==> t[1] != '\n';
    }
    AppendAssoc(a, "\n", Universal(b));
  }

  /** Concatenation is associative. */
  lemma {:induction false} AppendAssoc<T>(x: seq<T>, y: seq<T>, z: seq<T>)
    ensures x + (y + z) == (x + y) + z
  {
  }

  /** A text whose last line is open stays so, and keeps its last character, after translation. */
  lemma {:induction false} UniversalOpen(s: string)
    requires s != [] && s[|s| - 1] != '\n' && s[|s| - 1] != '\r'
    ensures Universal(s) != [] && Universal(s)[|Universal(s)| - 1] == s[|s| - 1]
    decreases |s|
  {
    if s[0] == '\r' {
      if s[1] == '\n' {
        UniversalOpen(s[2..]);
      } else {
        UniversalOpen(s[1..]);
      }
    } else if |s| > 1 {
      UniversalOpen(s[1..]);
    }
  }

  /** One element of `readlines()`: non-empty, with '\n' at most as its last character. */
  predicate IsLine(l: string) {
    |l| > 0 && forall k :: 0 <= k < |l| - 1 ==> l[k] != '\n'
  }

  /** `l` ends with a newline. */
  predicate Terminated(l: string) {
    |l| > 0 && l[|l| - 1] == '\n'
  }

  /** `"".join(lines)`. */
  function Concat(lines: seq<string>): string {
    if lines == [] then [] else lines[0] + Concat(lines[1..])
  }

  /** Joining a line in front of more lines. */
  lemma {:induction false} ConcatCons(head: string, lines: seq<string>)
    ensures Concat([head] + lines) == head + Concat(lines)
  {
    assert ([head] + lines)[0] == head && ([head] + lines)[1..] == lines;
  }

  /** `file.readlines()`: the text cut after every '\n'. */
  function ReadLines(s: string): seq<string>
    decreases |s|
  {
    if s == [] then []
    else
      var i := IndexOf(s, '\n');
      if i == |s| then [s] else [s[..i + 1]] + ReadLines(s[i + 1..])
  }

  /**
    Every line `readlines()` returns is non-empty and holds a newline at
    most as its last character; every line but possibly the last ends in one.
   */
  lemma {:induction false} ReadLinesShape(s: string)
    ensures LinesShaped(ReadLines(s))
    decreases |s|
  {
    if s != [] {
      var i := IndexOf(s, '\n');
      if i == |s| {
        assert ReadLines(s) == [s];
      } else {
        ReadLinesStep(s, i);
        FirstLineShape(s, i);
        ReadLinesShape(s[i + 1..]);
        ConsShaped(s[..i + 1], ReadLines(s[i + 1..]));
      }
    }
  }

  /** Each element is a line, and all but possibly the last are terminated. */
  predicate LinesShaped(lines: seq<string>) {
    && (forall i :: 0 <= i < |lines| ==> IsLine(lines[i]))
    && (forall i :: 0 <= i < |lines| - 1 ==> Terminated(lines[i]))
  }

  /** The text up to and including the first newline is one terminated line. */
  lemma {:induction false} FirstLineShape(s: string, i: nat)
    requires i == IndexOf(s, '\n') < |s|
    ensures IsLine(s[..i + 1]) && Terminated(s[..i + 1])
  {
    var head := s[..i + 1];
    assert forall k :: 0 <= k <= i ==> head[k] == s[k];
  }

  /** A terminated line in front of well-shaped lines keeps them well shaped. */
  lemma {:induction false} ConsShaped(head: string, rest: seq<string>)
    requires IsLine(head) && Terminated(head) && LinesShaped(rest)
    ensures LinesShaped([head] + rest)
  {
    var lines := [head] + rest;
    forall j | 0 < j < |lines|
      ensures lines[j] == rest[j - 1]
    {
    }
  }

  /** Joining the lines `readlines()` returns gives the text back: no character is lost or added. */
  lemma {:induction false} ReadLinesConcat(s: string)
    ensures Concat(ReadLines(s)) == s
    decreases |s|
  {
    if s != [] {
      var i := IndexOf(s, '\n');
      if i == |s| {
        assert Concat([s]) == s + Concat([]);
      } else {
        var head, tail := s[..i + 1], s[i + 1..];
        ReadLinesStep(s, i);
        ConcatCons(head, ReadLines(tail));
        ReadLinesConcat(tail);
        assert head + tail == s;
      }
    }
  }

  /** A character absent from the text is absent from each of its lines. */
  lemma {:induction false} ReadLinesLackChar(s: string, c: char)
    requires c !in s
    ensures forall i :: 0 <= i < |ReadLines(s)| ==> c !in ReadLines(s)[i]
    decreases |s|
  {
    if s != [] {
      var i := IndexOf(s, '\n');
      if i < |s| {
        ReadLinesStep(s, i);
        LackCharParts(s, i + 1, c);
        ReadLinesLackChar(s[i + 1..], c);
        ConsLackChar(s[..i + 1], ReadLines(s[i + 1..]), c);
      }
    }
  }

  /** A character absent from a text is absent from both sides of any cut. */
  lemma {:induction false} LackCharParts(s: string, n: nat, c: char)
    requires n <= |s| && c !in s
    ensures c !in s[..n] && c !in s[n..]
  {
    assert s == s[..n] + s[n..];
  }

  /** Putting a line without `c` in front of lines without `c`. */
  lemma {:induction false} ConsLackChar(head: string, rest: seq<string>, c: char)
    requires c !in head && forall i :: 0 <= i < |rest| ==> c !in rest[i]
    ensures forall i :: 0 <= i < |[head] + rest| ==> c !in ([head] + rest)[i]
  {
    var lines := [head] + rest;
    forall j | 0 < j < |lines|
      ensures lines[j] == rest[j - 1]
    {
    }
  }

  /** A text that is empty or ends in a newline: appending to it starts a new line. */
  predicate ClosedOff(s: string) {
    s == [] || s[|s| - 1] == '\n'
  }

  /** Lines of a closed-off text are unaffected by what is appended after it. */
  lemma {:induction false} ReadLinesAppend(a: string, b: string)
    requires ClosedOff(a)
    ensures ReadLines(a + b) == ReadLines(a) + ReadLines(b)
    decreases |a|
  {
    if a == [] {
      assert a + b == b;
    } else {
      var i := FirstNewline(a);
      FirstLineOfAppend(a, b, i);
      ReadLinesAppend(a[i + 1..], b);
      ReadLinesStep(a, i);
      AppendAssoc([a[..i + 1]], ReadLines(a[i + 1..]), ReadLines(b));
    }
  }

  /** A non-empty closed-off text has a first newline, and what follows it is closed off too. */
  lemma {:induction false} FirstNewline(a: string) returns (i: nat)
    requires a != [] && ClosedOff(a)
    ensures i == IndexOf(a, '\n') < |a| && ClosedOff(a[i + 1..])
  {
    i := IndexOf(a, '\n');
    assert i < |a| by { assert a[|a| - 1] == '\n'; }
    var rest := a[i + 1..];
    if rest != [] { assert rest[|rest| - 1] == a[|a| - 1]; }
  }

  /** `readlines()` cuts its first line at the first newline. */
  lemma {:induction false} ReadLinesStep(s: string, i: nat)
    requires i == IndexOf(s, '\n') < |s|
    ensures ReadLines(s) == [s[..i + 1]] + ReadLines(s[i + 1..])
  {
  }

  /** The first line of `a + b` is that of `a` when `a` holds a newline at `i`. */
  lemma {:induction false} FirstLineOfAppend(a: string, b: string, i: nat)
    requires i == IndexOf(a, '\n') < |a|
    ensures ReadLines(a + b) == [a[..i + 1]] + ReadLines(a[i + 1..] + b)
  {
    var s := a + b;
    assert IndexOf(s, '\n') == i by {
      assert s[i] == '\n';
      assert forall k :: 0 <= k < i ==> s[k] == a[k];
    }
    assert s[..i + 1] == a[..i + 1];
    assert s[i + 1..] == a[i + 1..] + b;
    ReadLinesStep(s, i);
  }

  /** A single terminated line reads back as itself. */
  lemma {:induction false} ReadOneLine(l: string)
    requires IsLine(l) && Terminated(l)
    ensures ReadLines(l) == [l]
  {
    var i := IndexOf(l, '\n');
    assert i == |l| - 1;
    assert l[..i + 1] == l;
    assert l[i + 1..] == [];
  }

  /**
    Appending a terminated line to a text whose last line has no newline
    extends that last line: the number of lines does not change.
   */
  lemma {:induction false} ReadLinesJoinOpen(u: string, l: string)
    requires u != [] && u[|u| - 1] != '\n'
    requires IsLine(l) && Terminated(l)
    ensures |ReadLines(u + l)| == |ReadLines(u)|
    decreases |u|
  {
    var i := IndexOf(u, '\n');
    if i == |u| {
      assert ReadLines(u) == [u];
      JoinOneLine(u, l);
    } else {
      var rest := u[i + 1..];
      assert rest != [] && rest[|rest| - 1] == u[|u| - 1] by {
        assert i < |u| - 1;
      }
      FirstLineOfAppend(u, l, i);
      ReadLinesStep(u, i);
      ReadLinesJoinOpen(rest, l);
    }
  }

  /** A text with no newline followed by one terminated line reads as a single line. */
  lemma {:induction false} JoinOneLine(u: string, l: string)
    requires IndexOf(u, '\n') == |u|
    requires IsLine(l) && Terminated(l)
    ensures ReadLines(u + l) == [u + l]
  {
    var s := u + l;
    assert IndexOf(s, '\n') == |s| - 1 by {
      assert s[|s| - 1] == '\n';
      forall k | 0 <= k < |s| - 1
        ensures s[k] != '\n'
      {
        if k < |u| { assert s[k] == u[k]; } else { assert s[k] == l[k - |u|]; }
      }
    }
    ReadLinesStep(s, |s| - 1);
    assert s[..|s|] == s && s[|s|..] == [];
  }

}
