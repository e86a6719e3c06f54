/**
 * The quote-aware tokenizer shared by every string entry point of the parser (`ParseHeaderFromString`,
 * `EnumerateString`, `ParseString`, in both source trees), and the newline counter of `CountRowsFromString`.
 *
 * The tokenizer is a single pass over the characters with three pieces of state: the fields of the row so far
 * (the last one is the field being filled), the flag `str` (true while field delimiters and newlines are active,
 * i.e. outside quotes) and a one-character look-behind `prev`. This module gives that pass as recursive functions;
 * the loops of module CsvParser are proved equal to them.
 */
module Tokenizer {
  import opened Wrappers
  import opened Text

  /** The loop state between two characters. `row` is never empty: its last element is the current field. */
  datatype State = State(row: seq<string>, str: bool, prev: Option<char>)

  /** The state before the first character, and again after every row. */
  const Init: State := State([""], true, None)

  /** What one character does to the state. */
  datatype Event =
    | Next(st: State)          // the row goes on
    | Emit(row: seq<string>)   // an unquoted newline ended the row
    | Fault                    // `Substring(0, -1)` on an empty field: a '\r' string delimiter right before the newline

  /** Drops the last character of the last field if it is there. */
  function TrimLast(row: seq<string>): (r: seq<string>)
    requires |row| > 0 && |row[|row| - 1]| > 0
    ensures |r| == |row|
  {
    var last := |row| - 1;
    row[last := row[last][..|row[last]| - 1]]
  }

  /** One step of the loop, with the branches in the source's order: the string delimiter first, then the field
      delimiter and the newline (both only outside quotes), then any other character. */
  function Step(c: char, st: State, fd: char, sd: Option<char>): (e: Event)
    requires |st.row| > 0
    ensures e.Next? ==> |e.st.row| >= |st.row|
    ensures e.Emit? ==> |e.row| == |st.row|
  {
    var last := |st.row| - 1;
    if sd == Some(c) then
      var str := !st.str;
      var row := if !str && st.prev == Some(c) then st.row[last := st.row[last] + [c]] else st.row;
      Next(State(row, str, Some(c)))
    else if st.str && c == fd then
      Next(State(st.row + [""], true, None))
    else if st.str && c == '\n' then
      if st.prev == Some('\r') then
        if |st.row[last]| == 0 then Fault else Emit(TrimLast(st.row))
      else
        Emit(st.row)
    else
      Next(State(st.row[last := st.row[last] + [c]], st.str, Some(c)))
  }

  /** The result of scanning for the end of one row. */
  datatype Scanned =
    | Found(row: seq<string>, next: nat)   // a row, and the position after its newline
    | Open(st: State)                      // the text ran out inside the row
    | Bad                                  // the step faulted

  /** Runs the loop on `s` from position `i` in state `st` until a row ends. */
  function Scan(s: string, i: nat, st: State, fd: char, sd: Option<char>): (o: Scanned)
    requires |st.row| > 0 && i <= |s|
    ensures o.Found? ==> |o.row| >= |st.row| && i < o.next <= |s|
    ensures o.Open? ==> |o.st.row| >= |st.row|
    decreases |s| - i
  {
    if i == |s| then Open(st)
    else
      match Step(s[i], st, fd, sd)
      case Next(st') => Scan(s, i + 1, st', fd, sd)
      case Emit(row) => Found(row, i + 1)
      case Fault => Bad
  }

  /** All rows `EnumerateString` yields, and whether it throws after the last of them. */
  datatype Rows = Rows(rows: seq<seq<string>>, fault: bool)

  /** The rows `before` followed by the rows of `r`. */
  function Prepend(before: seq<seq<string>>, r: Rows): (p: Rows)
    ensures |p.rows| == |before| + |r.rows| && p.fault == r.fault
  {
    Rows(before + r.rows, r.fault)
  }

  /** The rows of `s` from position `i` when the loop is in state `st` there; every later row starts in `Init`. */
  function RowsFrom(s: string, i: nat, st: State, fd: char, sd: Option<char>): (r: Rows)
    requires |st.row| > 0 && i <= |s|
    decreases |s| - i
  {
    match Scan(s, i, st, fd, sd)
    case Found(row, j) =>
      Prepend([row], RowsFrom(s, j, Init, fd, sd))
    case Open(_) => Rows([], false)
    case Bad => Rows([], true)
  }

  /** What `ParseHeaderFromString` returns: the first row, `None` (the source's null) when no unquoted newline
      ends one, or the exception of the faulting step. */
  function HeaderOf(csv: string, fd: char, sd: Option<char>): Result<Option<seq<string>>>
  {
    match Scan(EnsureNewline(csv), 0, Init, fd, sd)
    case Found(row, _) => Ok(Some(row))
    case Open(_) => Ok(None)
    case Bad => Err(ArgumentOutOfRange)
  }

  /** What `EnumerateString` yields. */
  function RowsOf(csv: string, fd: char, sd: Option<char>): Rows
  {
    RowsFrom(EnsureNewline(csv), 0, Init, fd, sd)
  }

  /** The newline counter of `CountRowsFromString` from position `i`: every string delimiter flips `str`, and a
      newline counts while `str` holds. */
  function CountFrom(s: string, i: nat, sd: Option<char>, str: bool): (n: nat)
    requires i <= |s|
    ensures n <= Newlines(s, i)
    decreases |s| - i
  {
    if i == |s| then 0
    else if sd == Some(s[i]) then CountFrom(s, i + 1, sd, !str)
    else (if str && s[i] == '\n' then 1 else 0) + CountFrom(s, i + 1, sd, str)
  }

  function RowCount(csv: string, sd: Option<char>): nat
  {
    CountFrom(EnsureNewline(csv), 0, sd, true)
  }

  /** The number of newline characters in `s` from position `i` on. */
  function Newlines(s: string, i: nat): nat
    requires i <= |s|
    decreases |s| - i
  {
    if i == |s| then 0 else (if s[i] == '\n' then 1 else 0) + Newlines(s, i + 1)
  }

  /** What the character at position `i` does to the row list from there on, one lemma per kind of step. */
  lemma RowsAt(s: string, i: nat, st: State, fd: char, sd: Option<char>)
    requires |st.row| > 0 && i < |s|
    ensures var e := Step(s[i], st, fd, sd);
            var r := RowsFrom(s, i, st, fd, sd);
            (e.Next? ==> r == RowsFrom(s, i + 1, e.st, fd, sd)) &&
            (e.Emit? ==> r == Prepend([e.row], RowsFrom(s, i + 1, Init, fd, sd))) &&
            (e.Fault? ==> r == Rows([], true))
  {
  }

  lemma PrependTwice(a: seq<seq<string>>, b: seq<seq<string>>, r: Rows)
    ensures Prepend(a, Prepend(b, r)) == Prepend(a + b, r)
  {
    assert a + (b + r.rows) == a + b + r.rows;
  }

  lemma RowsAtNext(s: string, i: nat, st: State, st': State, fd: char, sd: Option<char>)
    requires |st.row| > 0 && i < |s| && Step(s[i], st, fd, sd) == Next(st')
    ensures RowsFrom(s, i, st, fd, sd) == RowsFrom(s, i + 1, st', fd, sd)
  {
  }

  lemma RowsAtEmit(s: string, i: nat, st: State, row: seq<string>, fd: char, sd: Option<char>)
    requires |st.row| > 0 && i < |s| && Step(s[i], st, fd, sd) == Emit(row)
    ensures RowsFrom(s, i, st, fd, sd) == Prepend([row], RowsFrom(s, i + 1, Init, fd, sd))
  {
  }

  lemma RowsAtFault(s: string, i: nat, st: State, fd: char, sd: Option<char>)
    requires |st.row| > 0 && i < |s| && Step(s[i], st, fd, sd) == Fault
    ensures RowsFrom(s, i, st, fd, sd) == Rows([], true)
  {
  }

  /** The loop run over a whole piece of text `t` from state `st`: the state after it, or the first `Emit` or
      `Fault` inside it. */
  function Steps(t: string, st: State, fd: char, sd: Option<char>): (e: Event)
    requires |st.row| > 0
    ensures e.Next? ==> |e.st.row| >= |st.row|
    decreases |t|
  {
    if |t| == 0 then Next(st)
    else
      match Step(t[0], st, fd, sd)
      case Next(st') => Steps(t[1..], st', fd, sd)
      case Emit(row) => Emit(row)
      case Fault => Fault
  }

  lemma {:induction false} StepsConcat(a: string, b: string, st: State, fd: char, sd: Option<char>)
    requires |st.row| > 0
    ensures var e := Steps(a, st, fd, sd);
            Steps(a + b, st, fd, sd) == if e.Next? then Steps(b, e.st, fd, sd) else e
    decreases |a|
  {
    if |a| == 0 {
      assert a + b == b;
    } else {
      assert (a + b)[0] == a[0] && (a + b)[1..] == a[1..] + b;
      match Step(a[0], st, fd, sd)
      case Next(st') => StepsConcat(a[1..], b, st', fd, sd);
      case Emit(_) =>
      case Fault =>
    }
  }

  /** Scanning across a piece of text that ends no row is running the loop over it. */
  lemma {:induction false} ScanSteps(s: string, i: nat, t: string, st: State, fd: char, sd: Option<char>)
    requires |st.row| > 0 && i + |t| <= |s| && s[i..i + |t|] == t && Steps(t, st, fd, sd).Next?
    ensures Scan(s, i, st, fd, sd) == Scan(s, i + |t|, Steps(t, st, fd, sd).st, fd, sd)
    decreases |t|
  {
    if |t| > 0 {
      assert s[i] == t[0];
      assert s[i + 1..i + |t|] == t[1..];
      match Step(t[0], st, fd, sd)
      case Next(st') => ScanSteps(s, i + 1, t[1..], st', fd, sd);
      case Emit(_) =>
      case Fault =>
    }
  }

  /* ------------------------------------------------------------------------------------------------------------ */
  /* Agreement of the entry points                                                                                 */

  /** One scan accounts for exactly one counted newline. */
  lemma {:induction false} ScanCount(s: string, i: nat, st: State, fd: char, sd: Option<char>)
    requires |st.row| > 0 && i <= |s| && fd != '\n'
    ensures Scan(s, i, st, fd, sd).Open? ==> CountFrom(s, i, sd, st.str) == 0
    ensures Scan(s, i, st, fd, sd).Found? ==>
              CountFrom(s, i, sd, st.str) == 1 + CountFrom(s, Scan(s, i, st, fd, sd).next, sd, true)
    ensures Scan(s, i, st, fd, sd).Bad? ==> CountFrom(s, i, sd, st.str) >= 1
    decreases |s| - i
  {
    if i < |s| {
      match Step(s[i], st, fd, sd)
      case Next(st') =>
        assert st'.str == (if sd == Some(s[i]) then !st.str else st.str);
        ScanCount(s, i + 1, st', fd, sd);
      case Emit(_) =>
      case Fault =>
    }
  }

  lemma {:induction false} RowsCount(s: string, i: nat, st: State, fd: char, sd: Option<char>)
    requires |st.row| > 0 && i <= |s| && fd != '\n'
    ensures !RowsFrom(s, i, st, fd, sd).fault ==> |RowsFrom(s, i, st, fd, sd).rows| == CountFrom(s, i, sd, st.str)
    ensures RowsFrom(s, i, st, fd, sd).fault ==> |RowsFrom(s, i, st, fd, sd).rows| < CountFrom(s, i, sd, st.str)
    decreases |s| - i
  {
    ScanCount(s, i, st, fd, sd);
    match Scan(s, i, st, fd, sd)
    case Found(_, j) => RowsCount(s, j, Init, fd, sd);
    case Open(_) =>
    case Bad =>
  }

  /** `EnumerateString` yields as many rows as `CountRowsFromString` counts, unless it throws first; the field
      delimiter must not be the newline, which the counter never takes for a delimiter. */
  lemma EnumerateMatchesCount(csv: string, fd: char, sd: Option<char>)
    requires fd != '\n'
    ensures !RowsOf(csv, fd, sd).fault ==> |RowsOf(csv, fd, sd).rows| == RowCount(csv, sd)
    ensures RowsOf(csv, fd, sd).fault ==> |RowsOf(csv, fd, sd).rows| < RowCount(csv, sd)
  {
    RowsCount(EnsureNewline(csv), 0, Init, fd, sd);
  }

  /** The first row `EnumerateString` yields is what `ParseHeaderFromString` returns; with no row at all the header
      is null or the same exception. */
  lemma HeaderIsFirstRow(csv: string, fd: char, sd: Option<char>)
    ensures |RowsOf(csv, fd, sd).rows| > 0 ==> HeaderOf(csv, fd, sd) == Ok(Some(RowsOf(csv, fd, sd).rows[0]))
    ensures |RowsOf(csv, fd, sd).rows| == 0 ==>
              HeaderOf(csv, fd, sd) == (if RowsOf(csv, fd, sd).fault then Err(ArgumentOutOfRange) else Ok(None))
  {
  }

  /** The header is null exactly when the counter finds no unquoted newline. */
  lemma HeaderNullIffNoRows(csv: string, fd: char, sd: Option<char>)
    requires fd != '\n'
    ensures HeaderOf(csv, fd, sd) == Ok(None) <==> RowCount(csv, sd) == 0
  {
    ScanCount(EnsureNewline(csv), 0, Init, fd, sd);
  }

  /* ------------------------------------------------------------------------------------------------------------ */
  /* The newline counter                                                                                           */

  /** A doubled string delimiter leaves the counter's state as it was. */
  lemma DoubledDelimiterNeutral(s: string, i: nat, q: char, str: bool)
    requires i + 1 < |s| && s[i] == q && s[i + 1] == q
    ensures CountFrom(s, i, Some(q), str) == CountFrom(s, i + 2, Some(q), str)
  {
    assert CountFrom(s, i + 1, Some(q), !str) == CountFrom(s, i + 2, Some(q), str);
  }

  /** Without string delimiters in the text every newline counts. */
  lemma {:induction false} CountWithoutQuotes(s: string, i: nat, sd: Option<char>)
    requires i <= |s| && (sd.None? || sd.value !in s)
    ensures CountFrom(s, i, sd, true) == Newlines(s, i)
    decreases |s| - i
  {
    if i < |s| {
      assert s[i] in s;
      CountWithoutQuotes(s, i + 1, sd);
    }
  }

  lemma {:induction false} NewlineAtEnd(s: string, i: nat)
    requires i < |s| && s[|s| - 1] == '\n'
    ensures Newlines(s, i) >= 1
    decreases |s| - i
  {
    if i < |s| - 1 {
      NewlineAtEnd(s, i + 1);
    }
  }

  /** `CountRowsFromString` lies between 0 and the number of newlines of the normalised text; when that text holds
      no string delimiter the count is that number, so at least 1. */
  lemma RowCountBounds(csv: string, sd: Option<char>)
    ensures Newlines(EnsureNewline(csv), 0) >= 1
    ensures RowCount(csv, sd) <= Newlines(EnsureNewline(csv), 0)
    ensures sd.None? || sd.value !in EnsureNewline(csv) ==> RowCount(csv, sd) == Newlines(EnsureNewline(csv), 0)
  {
    var s := EnsureNewline(csv);
    NewlineAtEnd(s, 0);
    if sd.None? || sd.value !in s {
      CountWithoutQuotes(s, 0, sd);
    }
  }

  /* ------------------------------------------------------------------------------------------------------------ */
  /* The shape of one row                                                                                          */

  /** The number of field delimiters met outside quotes from position `i` up to the first newline met outside
      quotes. */
  function UnquotedDelimiters(s: string, i: nat, fd: char, sd: Option<char>, str: bool): nat
    requires i <= |s|
    decreases |s| - i
  {
    if i == |s| then 0
    else if sd == Some(s[i]) then UnquotedDelimiters(s, i + 1, fd, sd, !str)
    else if str && s[i] == fd then 1 + UnquotedDelimiters(s, i + 1, fd, sd, str)
    else if str && s[i] == '\n' then 0
    else UnquotedDelimiters(s, i + 1, fd, sd, str)
  }

  lemma {:induction false} ScanWidth(s: string, i: nat, st: State, fd: char, sd: Option<char>)
    requires |st.row| > 0 && i <= |s|
    ensures Scan(s, i, st, fd, sd).Found? ==>
              |Scan(s, i, st, fd, sd).row| == |st.row| + UnquotedDelimiters(s, i, fd, sd, st.str)
    decreases |s| - i
  {
    if i < |s| {
      match Step(s[i], st, fd, sd)
      case Next(st') =>
        assert st'.str == (if sd == Some(s[i]) then !st.str else st.str);
        assert |st'.row| == |st.row| + (if sd != Some(s[i]) && st.str && s[i] == fd then 1 else 0);
        ScanWidth(s, i + 1, st', fd, sd);
      case Emit(_) =>
      case Fault =>
    }
  }

  /** A header has one field more than there are unquoted field delimiters before its newline: never none. */
  lemma HeaderWidth(csv: string, fd: char, sd: Option<char>)
    ensures HeaderOf(csv, fd, sd).Ok? && HeaderOf(csv, fd, sd).value.Some? ==>
              |HeaderOf(csv, fd, sd).value.value| == 1 + UnquotedDelimiters(EnsureNewline(csv), 0, fd, sd, true)
  {
    ScanWidth(EnsureNewline(csv), 0, Init, fd, sd);
  }

  /** The look-behind never claims a '\r' for an empty field unless the string delimiter is '\r'. */
  predicate CrSafe(st: State)
    requires |st.row| > 0
  {
    st.prev == Some('\r') ==> |st.row[|st.row| - 1]| > 0
  }

  lemma {:induction false} ScanNoFault(s: string, i: nat, st: State, fd: char, sd: Option<char>)
    requires |st.row| > 0 && i <= |s| && CrSafe(st) && sd != Some('\r')
    ensures !Scan(s, i, st, fd, sd).Bad?
    decreases |s| - i
  {
    if i < |s| {
      match Step(s[i], st, fd, sd)
      case Next(st') => ScanNoFault(s, i + 1, st', fd, sd);
      case Emit(_) =>
      case Fault =>
    }
  }

  lemma {:induction false} RowsNoFault(s: string, i: nat, st: State, fd: char, sd: Option<char>)
    requires |st.row| > 0 && i <= |s| && CrSafe(st) && sd != Some('\r')
    ensures !RowsFrom(s, i, st, fd, sd).fault
    decreases |s| - i
  {
    ScanNoFault(s, i, st, fd, sd);
    match Scan(s, i, st, fd, sd)
    case Found(_, j) => RowsNoFault(s, j, Init, fd, sd);
    case Open(_) =>
    case Bad =>
  }

  /** The carriage-return trim can only throw when '\r' is the string delimiter. */
  lemma NoFaultUnlessCrDelimiter(csv: string, fd: char, sd: Option<char>)
    requires sd != Some('\r')
    ensures HeaderOf(csv, fd, sd).Ok?
    ensures !RowsOf(csv, fd, sd).fault
  {
    ScanNoFault(EnsureNewline(csv), 0, Init, fd, sd);
    RowsNoFault(EnsureNewline(csv), 0, Init, fd, sd);
  }

  /** With '\r' as string delimiter the trim does throw: a closed empty quote before the newline. */
  lemma CrDelimiterFault()
    ensures HeaderOf("\r\r", ',', Some('\r')) == Err(ArgumentOutOfRange)
  {
    var s := "\r\r\n";
    var st1 := State([""], false, Some('\r'));
    var st2 := State([""], true, Some('\r'));
    assert EnsureNewline("\r\r") == s;
    assert Step('\r', Init, ',', Some('\r')) == Next(st1);
    assert Step('\r', st1, ',', Some('\r')) == Next(st2);
    assert Step('\n', st2, ',', Some('\r')) == Fault;
    assert Scan(s, 2, st2, ',', Some('\r')) == Bad;
    assert Scan(s, 1, st1, ',', Some('\r')) == Bad;
  }

  /* ------------------------------------------------------------------------------------------------------------ */
  /* Lines without string delimiters                                                                               */

  /** Removes one '\r' that ends the last field. */
  function TrimCR(row: seq<string>): seq<string>
    requires |row| > 0
  {
    var f := row[|row| - 1];
    if |f| > 0 && f[|f| - 1] == '\r' then TrimLast(row) else row
  }

  /** Outside quotes the look-behind is the last character of the current field, or none for an empty field. */
  predicate PlainPrev(st: State)
    requires |st.row| > 0
  {
    var f := st.row[|st.row| - 1];
    st.prev == if |f| == 0 then None else Some(f[|f| - 1])
  }

  /** Continues the current field with the first piece and appends the other pieces. */
  function Merge(row: seq<string>, parts: seq<string>): seq<string>
    requires |row| > 0 && |parts| > 0
  {
    row[..|row| - 1] + [row[|row| - 1] + parts[0]] + parts[1..]
  }

  ghost predicate Plain(line: string, fd: char, sd: Option<char>)
  {
    fd != '\n' && '\n' !in line && (sd.None? || (sd.value !in line && sd.value != '\n'))
  }

  /** A line without string delimiters is split at every field delimiter and ends at its newline. */
  lemma {:induction false} ScanPlain(s: string, i: nat, j: nat, st: State, fd: char, sd: Option<char>)
    requires i <= j < |s| && s[j] == '\n'
    requires |st.row| > 0 && st.str && PlainPrev(st) && Plain(s[i..j], fd, sd)
    ensures Scan(s, i, st, fd, sd) == Found(TrimCR(Merge(st.row, Split(s[i..j], fd))), j + 1)
    decreases j - i
  {
    var row := st.row;
    var last := |row| - 1;
    if i == j {
      assert s[i..j] == "";
      assert Step('\n', st, fd, sd) == Emit(TrimCR(row));
      MergeEmpty(row);
    } else {
      var line := s[i..j];
      var c := s[i];
      assert line[0] == c && line[1..] == s[i + 1..j];
      assert c in line;
      assert Plain(s[i + 1..j], fd, sd) by {
        forall x | x in s[i + 1..j] ensures x in line { }
      }
      var st' := if c == fd then State(row + [""], true, None) else State(row[last := row[last] + [c]], true, Some(c));
      assert Step(c, st, fd, sd) == Next(st');
      ScanPlain(s, i + 1, j, st', fd, sd);
      var t := Split(s[i + 1..j], fd);
      assert Split(line, fd) == if c == fd then [""] + t else [[c] + t[0]] + t[1..];
      MergeStep(row, c, fd, t);
    }
  }

  lemma MergeEmpty(row: seq<string>)
    requires |row| > 0
    ensures Merge(row, [""]) == row
  {
    var last := |row| - 1;
    assert row[last] + "" == row[last];
    assert [""][1..] == [];
    assert row[..last] + [row[last]] == row;
  }

  lemma MergeStep(row: seq<string>, c: char, fd: char, t: seq<string>)
    requires |row| > 0 && |t| > 0
    ensures c == fd ==> Merge(row + [""], t) == Merge(row, [""] + t)
    ensures c != fd ==> Merge(row[|row| - 1 := row[|row| - 1] + [c]], t) == Merge(row, [[c] + t[0]] + t[1..])
  {
    var last := |row| - 1;
    if c == fd {
      assert (row + [""])[..|row|] == row && (row + [""])[|row|] == "";
      assert "" + t[0] == t[0] && [t[0]] + t[1..] == t;
      assert Merge(row + [""], t) == row + t;
      assert ([""] + t)[0] == "" && ([""] + t)[1..] == t;
      assert row[last] + "" == row[last];
      assert row[..last] + [row[last]] == row;
      assert Merge(row, [""] + t) == row + t;
    } else {
      assert row[last] + [c] + t[0] == row[last] + ([c] + t[0]);
      assert row[last := row[last] + [c]][..last] == row[..last];
    }
  }

  /** A line without string delimiters and without a newline is split at every field delimiter, and only a '\r'
      right before the appended newline is trimmed. This covers a null string delimiter, for which quote characters
      are ordinary characters. */
  lemma PlainLine(line: string, fd: char, sd: Option<char>)
    requires Plain(line, fd, sd)
    ensures HeaderOf(line, fd, sd) == Ok(Some(TrimCR(Split(line, fd))))
  {
    var s := EnsureNewline(line);
    assert s == line + "\n" by {
      if |line| > 0 { assert line[|line| - 1] in line; }
    }
    assert s[0..|line|] == line;
    ScanPlain(s, 0, |line|, Init, fd, sd);
    var p := Split(line, fd);
    assert Merge([""], p) == p by {
      assert "" + p[0] == p[0];
      assert [p[0]] + p[1..] == p;
    }
  }

  /** Joining the fields of such a line gives the line back, short of the one trimmed '\r'. */
  lemma PlainLineKeepsText(line: string, fd: char, sd: Option<char>)
    requires Plain(line, fd, sd) && fd != '\r'
    ensures HeaderOf(line, fd, sd).Ok? && HeaderOf(line, fd, sd).value.Some?
    ensures var row := HeaderOf(line, fd, sd).value.value;
            Join(fd, row) + (if |line| > 0 && line[|line| - 1] == '\r' then "\r" else "") == line
  {
    PlainLine(line, fd, sd);
    JoinTrimCR(line, fd);
  }

  lemma JoinTrimCR(line: string, fd: char)
    requires fd != '\r'
    ensures Join(fd, TrimCR(Split(line, fd))) + (if |line| > 0 && line[|line| - 1] == '\r' then "\r" else "") == line
  {
    var p := Split(line, fd);
    JoinSplit(line, fd);
    var n := |p| - 1;
    var f := p[n];
    if |f| > 0 && f[|f| - 1] == '\r' {
      var g := f[..|f| - 1];
      TrimLastJoin(p, fd, g);
      assert line[|line| - 1] == '\r' by { JoinEndsWithLast(p, fd); }
    } else {
      assert TrimCR(p) == p;
      if |line| > 0 && line[|line| - 1] == '\r' {
        JoinEndsWithLast(p, fd);
        assert false;
      }
    }
  }

  /** Joined parts end with the last part, and without it nothing of the last part is lost. */
  lemma JoinEndsWithLast(p: seq<string>, fd: char)
    requires |p| > 0 && fd != '\r'
    ensures var j := Join(fd, p); var f := p[|p| - 1];
            (|f| > 0 ==> |j| > 0 && j[|j| - 1] == f[|f| - 1]) &&
            (|f| == 0 && |j| > 0 ==> j[|j| - 1] == fd)
  {
    var n := |p| - 1;
    assert p == p[..n] + [p[n]];
    JoinSnoc(fd, p[..n], p[n]);
  }

  lemma TrimLastJoin(p: seq<string>, fd: char, g: string)
    requires |p| > 0 && p[|p| - 1] == g + "\r"
    ensures Join(fd, TrimCR(p)) + "\r" == Join(fd, p)
  {
    var n := |p| - 1;
    var f := p[n];
    assert f[..|f| - 1] == g;
    assert TrimCR(p) == p[..n] + [g] by {
      assert TrimCR(p) == p[n := g];
    }
    assert p == p[..n] + [f];
    JoinSnoc(fd, p[..n], f);
    JoinSnoc(fd, p[..n], g);
  }
}
