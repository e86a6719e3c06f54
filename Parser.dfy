/**
 * The string entry points of the static `CsvParser` class: `ParseHeaderFromString`, `EnumerateString`,
 * `CountRowsFromString` and `ParseString`. Each is the source's character loop, proved equal to the recursive
 * definitions of module Tokenizer (and, for `ParseString`, to `ParseOf` below).
 */
module CsvParser {
  import opened Wrappers
  import opened Text
  import opened Tokenizer

  /** The contents of the `CsvTable` that `ParseString` fills: its header and its data rows. */
  datatype TableData = TableData(header: seq<string>, rows: seq<seq<string>>)

  /** What `ParseString` does with one tokenized row. */
  datatype Absorbed = Continue(t: TableData) | Done(t: TableData) | Failed(e: Error)

  /** One row at raw line index `index` (the first line has index 0): while the table has no columns the row fixes
      the header, taken from the row itself or numbered; a non-empty row must then match the header's width unless
      errors are ignored, and it is kept from index `offset` on, `Done` once `limit` rows are kept. */
  function Absorb(t: TableData, row: seq<string>, index: int, header: bool, offset: int, limit: int, ignore: bool)
    : (a: Absorbed)
    ensures a.Continue? || a.Done? ==> |a.t.rows| >= |t.rows|
  {
    var h := if |t.header| < 1 then (if header then row else IndexNames(|row|)) else t.header;
    var r := if |t.header| < 1 && header then [] else row;
    if |r| == 0 then Continue(TableData(h, t.rows))
    else if !ignore && |r| != |h| then Failed(IndexOutOfRange)
    else if index >= offset then
      var rows := t.rows + [r];
      if limit > 0 && |rows| >= limit then Done(TableData(h, rows)) else Continue(TableData(h, rows))
    else Continue(TableData(h, t.rows))
  }

  /** Absorbs the rows in order; the tokenizer's fault, if any, comes after the last of them. */
  function Collect(rows: seq<seq<string>>, fault: bool, t: TableData, index: int, header: bool, offset: int,
                   limit: int, ignore: bool): Result<TableData>
    decreases |rows|
  {
    if |rows| == 0 then (if fault then Err(ArgumentOutOfRange) else Ok(t))
    else
      match Absorb(t, rows[0], index, header, offset, limit, ignore)
      case Continue(t') => Collect(rows[1..], fault, t', index + 1, header, offset, limit, ignore)
      case Done(t') => Ok(t')
      case Failed(e) => Err(e)
  }

  /** `ParseString`'s loop as one recursive definition over the characters from position `i`: the tokenizer's
      steps, with `Absorb` applied to every finished row. */
  function ParseFrom(s: string, i: nat, st: State, t: TableData, index: int, fd: char, sd: Option<char>,
                     header: bool, offset: int, limit: int, ignore: bool): Result<TableData>
    requires |st.row| > 0 && i <= |s|
    decreases |s| - i
  {
    if i == |s| then Ok(t)
    else
      match Step(s[i], st, fd, sd)
      case Next(st') => ParseFrom(s, i + 1, st', t, index, fd, sd, header, offset, limit, ignore)
      case Emit(row) =>
        (match Absorb(t, row, index, header, offset, limit, ignore)
         case Continue(t') => ParseFrom(s, i + 1, Init, t', index + 1, fd, sd, header, offset, limit, ignore)
         case Done(t') => Ok(t')
         case Failed(e) => Err(e))
      case Fault => Err(ArgumentOutOfRange)
  }

  /** The character-level definition is the row-level one: tokenize all rows, then absorb them in order. */
  lemma {:induction false} ParseFromRows(s: string, i: nat, st: State, t: TableData, index: int, fd: char,
                                         sd: Option<char>, header: bool, offset: int, limit: int, ignore: bool)
    requires |st.row| > 0 && i <= |s|
    ensures var rs := RowsFrom(s, i, st, fd, sd);
            ParseFrom(s, i, st, t, index, fd, sd, header, offset, limit, ignore) ==
            Collect(rs.rows, rs.fault, t, index, header, offset, limit, ignore)
    decreases |s| - i
  {
    if i < |s| {
      RowsAt(s, i, st, fd, sd);
      match Step(s[i], st, fd, sd)
      case Next(st') => ParseFromRows(s, i + 1, st', t, index, fd, sd, header, offset, limit, ignore);
      case Emit(row) =>
        var next := RowsFrom(s, i + 1, Init, fd, sd);
        CollectCons(row, next.rows, next.fault, t, index, header, offset, limit, ignore);
        var a := Absorb(t, row, index, header, offset, limit, ignore);
        if a.Continue? {
          ParseFromRows(s, i + 1, Init, a.t, index + 1, fd, sd, header, offset, limit, ignore);
        }
      case Fault =>
    }
  }

  lemma ParseAtNext(s: string, i: nat, st: State, st': State, t: TableData, index: int, fd: char, sd: Option<char>,
                    header: bool, offset: int, limit: int, ignore: bool)
    requires |st.row| > 0 && i < |s| && Step(s[i], st, fd, sd) == Next(st')
    ensures ParseFrom(s, i, st, t, index, fd, sd, header, offset, limit, ignore) ==
            ParseFrom(s, i + 1, st', t, index, fd, sd, header, offset, limit, ignore)
  {
  }

  lemma ParseAtEmit(s: string, i: nat, st: State, row: seq<string>, t: TableData, index: int, fd: char,
                    sd: Option<char>, header: bool, offset: int, limit: int, ignore: bool)
    requires |st.row| > 0 && i < |s| && Step(s[i], st, fd, sd) == Emit(row)
    ensures var a := Absorb(t, row, index, header, offset, limit, ignore);
            ParseFrom(s, i, st, t, index, fd, sd, header, offset, limit, ignore) ==
            if a.Continue? then ParseFrom(s, i + 1, Init, a.t, index + 1, fd, sd, header, offset, limit, ignore)
            else if a.Done? then Ok(a.t) else Err(a.e)
  {
  }

  lemma CollectCons(row: seq<string>, more: seq<seq<string>>, fault: bool, t: TableData, index: int, header: bool,
                    offset: int, limit: int, ignore: bool)
    ensures Collect([row] + more, fault, t, index, header, offset, limit, ignore) ==
            match Absorb(t, row, index, header, offset, limit, ignore)
            case Continue(t') => Collect(more, fault, t', index + 1, header, offset, limit, ignore)
            case Done(t') => Ok(t')
            case Failed(e) => Err(e)
  {
    assert ([row] + more)[0] == row && ([row] + more)[1..] == more;
  }

  /** The raw line index from which `ParseString` keeps rows: an offset of 0 or more is moved past the first line. */
  function FirstKept(offset: int): int
  {
    if offset > -1 then offset + 1 else offset
  }

  /** What `ParseString` returns or throws. */
  function ParseOf(csv: string, header: bool, fd: char, sd: Option<char>, offset: int, limit: int, ignore: bool)
    : Result<TableData>
  {
    ParseFrom(EnsureNewline(csv), 0, Init, TableData([], []), 0, fd, sd, header, FirstKept(offset), limit, ignore)
  }

  /* ------------------------------------------------------------------------------------------------------------ */
  /* Which rows `ParseString` keeps                                                                                */

  /** The reference selection: after the rows `acc` already kept, the rows of `rows` from position `skip` on, cut to
      `limit` rows when there are that many (the tokenizer fault is then never reached); otherwise the fault, if any. */
  function Selected(h: seq<string>, acc: seq<seq<string>>, rows: seq<seq<string>>, fault: bool, skip: int, limit: int)
    : (r: Result<TableData>)
    ensures r.Ok? ==> r.value.header == h
    ensures r.Ok? && limit > 0 ==> |r.value.rows| <= limit
  {
    var kept := acc + Skip(rows, skip);
    if limit > 0 && |kept| >= limit then Ok(TableData(h, Take(kept, limit)))
    else if fault then Err(ArgumentOutOfRange)
    else Ok(TableData(h, kept))
  }

  lemma SkipCons<T>(x: T, xs: seq<T>, n: int)
    ensures n <= 0 ==> Skip([x] + xs, n) == [x] + xs
    ensures n > 0 ==> Skip([x] + xs, n) == Skip(xs, n - 1)
  {
    if n > 0 {
      var m := Min(n, |xs| + 1);
      assert ([x] + xs)[m..] == xs[m - 1..];
    }
  }

  /** Once the header is fixed, with every row non-empty and of the header's width (or errors ignored), `Collect`
      makes the reference selection. */
  lemma {:induction false} CollectSelects(rows: seq<seq<string>>, fault: bool, h: seq<string>, acc: seq<seq<string>>,
                                          index: int, header: bool, offset: int, limit: int, ignore: bool)
    requires |h| > 0 && Fitting(rows, h, ignore)
    requires limit <= 0 || |acc| < limit
    ensures Collect(rows, fault, TableData(h, acc), index, header, offset, limit, ignore) ==
            Selected(h, acc, rows, fault, offset - index, limit)
    decreases |rows|
  {
    if |rows| == 0 {
      SelectedEmpty(h, acc, fault, offset - index, limit);
    } else {
      var acc', stop := CollectStep(rows, fault, h, acc, index, header, offset, limit, ignore);
      if !stop {
        assert offset - index - 1 == offset - (index + 1);
        CollectSelects(rows[1..], fault, h, acc', index + 1, header, offset, limit, ignore);
      }
    }
  }

  /** Every row is non-empty and, unless errors are ignored, as wide as the header `h`. */
  predicate Fitting(rows: seq<seq<string>>, h: seq<string>, ignore: bool)
    decreases |rows|
  {
    |rows| == 0 || (|rows[0]| > 0 && (ignore || |rows[0]| == |h|) && Fitting(rows[1..], h, ignore))
  }

  lemma {:induction false} AllFitting(rows: seq<seq<string>>, h: seq<string>, ignore: bool)
    requires forall k :: 0 <= k < |rows| ==> |rows[k]| > 0 && (ignore || |rows[k]| == |h|)
    ensures Fitting(rows, h, ignore)
    decreases |rows|
  {
    if |rows| > 0 {
      assert forall k :: 0 <= k < |rows| - 1 ==> rows[1..][k] == rows[k + 1];
      AllFitting(rows[1..], h, ignore);
    }
  }

  /** One row of `CollectSelects`: either the selection ends here, or `Collect` and the reference selection both go
      on with the rest of the rows and the same kept rows `acc'`. */
  lemma CollectStep(rows: seq<seq<string>>, fault: bool, h: seq<string>, acc: seq<seq<string>>, index: int,
                    header: bool, offset: int, limit: int, ignore: bool)
    returns (acc': seq<seq<string>>, stop: bool)
    requires |h| > 0 && |rows| > 0 && |rows[0]| > 0 && (ignore || |rows[0]| == |h|)
    requires limit <= 0 || |acc| < limit
    ensures stop ==> Collect(rows, fault, TableData(h, acc), index, header, offset, limit, ignore) ==
                     Selected(h, acc, rows, fault, offset - index, limit)
    ensures !stop ==> limit <= 0 || |acc'| < limit
    ensures !stop ==> Collect(rows, fault, TableData(h, acc), index, header, offset, limit, ignore) ==
                      Collect(rows[1..], fault, TableData(h, acc'), index + 1, header, offset, limit, ignore)
    ensures !stop ==> Selected(h, acc, rows, fault, offset - index, limit) ==
                      Selected(h, acc', rows[1..], fault, offset - index - 1, limit)
  {
    var r := rows[0];
    CollectHead(rows, fault, h, acc, index, header, offset, limit, ignore);
    if index < offset {
      acc', stop := acc, false;
      SelectedDrop(h, acc, rows, fault, offset - index, limit);
    } else if limit > 0 && |acc| + 1 >= limit {
      acc', stop := acc + [r], true;
      SelectedFull(h, acc, rows, fault, offset - index, limit);
    } else {
      acc', stop := acc + [r], false;
      SelectedKeep(h, acc, rows, fault, offset - index, limit);
    }
  }

  /** `Collect` on the first row once the header is fixed. */
  lemma CollectHead(rows: seq<seq<string>>, fault: bool, h: seq<string>, acc: seq<seq<string>>, index: int,
                    header: bool, offset: int, limit: int, ignore: bool)
    requires |h| > 0 && |rows| > 0 && |rows[0]| > 0 && (ignore || |rows[0]| == |h|)
    ensures Collect(rows, fault, TableData(h, acc), index, header, offset, limit, ignore) ==
            if index < offset then Collect(rows[1..], fault, TableData(h, acc), index + 1, header, offset, limit, ignore)
            else if limit > 0 && |acc| + 1 >= limit then Ok(TableData(h, acc + [rows[0]]))
            else Collect(rows[1..], fault, TableData(h, acc + [rows[0]]), index + 1, header, offset, limit, ignore)
  {
    AbsorbFixed(h, acc, rows[0], index, header, offset, limit, ignore);
  }

  /** Once the header is fixed, a row of the right width (or any row, in ignore mode) is kept or passed over. */
  lemma AbsorbFixed(h: seq<string>, acc: seq<seq<string>>, r: seq<string>, index: int, header: bool, offset: int,
                    limit: int, ignore: bool)
    requires |h| > 0 && |r| > 0 && (ignore || |r| == |h|)
    ensures Absorb(TableData(h, acc), r, index, header, offset, limit, ignore) ==
            if index < offset then Continue(TableData(h, acc))
            else if limit > 0 && |acc| + 1 >= limit then Done(TableData(h, acc + [r]))
            else Continue(TableData(h, acc + [r]))
  {
  }

  /** With no rows left and the limit not reached, the selection is what was kept, or the fault. */
  lemma SelectedEmpty(h: seq<string>, acc: seq<seq<string>>, fault: bool, skip: int, limit: int)
    requires limit <= 0 || |acc| < limit
    ensures Selected(h, acc, [], fault, skip, limit) == if fault then Err(ArgumentOutOfRange) else Ok(TableData(h, acc))
  {
    assert acc + [] == acc;
  }

  /** A row before the first kept one is passed over. */
  lemma SelectedDrop(h: seq<string>, acc: seq<seq<string>>, rows: seq<seq<string>>, fault: bool, skip: int,
                     limit: int)
    requires |rows| > 0 && skip > 0
    ensures Selected(h, acc, rows, fault, skip, limit) == Selected(h, acc, rows[1..], fault, skip - 1, limit)
  {
    SkipCons(rows[0], rows[1..], skip);
    assert [rows[0]] + rows[1..] == rows;
  }

  /** A row from the first kept one on is kept. */
  lemma SelectedKeep(h: seq<string>, acc: seq<seq<string>>, rows: seq<seq<string>>, fault: bool, skip: int,
                     limit: int)
    requires |rows| > 0 && skip <= 0
    ensures Selected(h, acc, rows, fault, skip, limit) == Selected(h, acc + [rows[0]], rows[1..], fault, skip - 1, limit)
  {
    assert Skip(rows[1..], skip - 1) == rows[1..] && Skip(rows, skip) == rows;
    assert acc + rows == acc + [rows[0]] + rows[1..] by { assert [rows[0]] + rows[1..] == rows; }
  }

  /** The row that reaches the limit ends the selection. */
  lemma SelectedFull(h: seq<string>, acc: seq<seq<string>>, rows: seq<seq<string>>, fault: bool, skip: int,
                     limit: int)
    requires |rows| > 0 && skip <= 0 && 0 < limit && |acc| < limit <= |acc| + 1
    ensures Selected(h, acc, rows, fault, skip, limit) == Ok(TableData(h, acc + [rows[0]]))
  {
    assert Skip(rows, skip) == rows;
    var kept := acc + rows;
    assert kept[..limit] == acc + [rows[0]];
  }

  /** Without ignore mode and without a limit, one row of the wrong width makes `ParseString` throw, wherever it is. */
  lemma {:induction false} CollectRejects(rows: seq<seq<string>>, fault: bool, h: seq<string>, acc: seq<seq<string>>,
                                          index: int, header: bool, offset: int, limit: int, k: nat)
    requires |h| > 0 && limit <= 0
    requires forall j :: 0 <= j < |rows| ==> |rows[j]| > 0
    requires k < |rows| && |rows[k]| != |h|
    ensures Collect(rows, fault, TableData(h, acc), index, header, offset, limit, false) == Err(IndexOutOfRange)
    decreases |rows|
  {
    if |rows[0]| == |h| {
      var acc' := if index >= offset then acc + [rows[0]] else acc;
      CollectRejects(rows[1..], fault, h, acc', index + 1, header, offset, limit, k - 1);
    }
  }

  /** Once `limit` rows are kept nothing after them is looked at: more rows, a width error among them or a tokenizer
      fault leave the result unchanged. */
  lemma {:induction false} CollectStopsAtLimit(rows: seq<seq<string>>, more: seq<seq<string>>, fault: bool,
                                               fault': bool, t: TableData, index: int, header: bool, offset: int,
                                               limit: int, ignore: bool)
    requires limit > 0 && |t.rows| < limit
    requires Collect(rows, fault, t, index, header, offset, limit, ignore).Ok?
    requires |Collect(rows, fault, t, index, header, offset, limit, ignore).value.rows| >= limit
    ensures Collect(rows + more, fault', t, index, header, offset, limit, ignore) ==
            Collect(rows, fault, t, index, header, offset, limit, ignore)
    decreases |rows|
  {
    assert (rows + more)[0] == rows[0] && (rows + more)[1..] == rows[1..] + more;
    match Absorb(t, rows[0], index, header, offset, limit, ignore)
    case Continue(t') =>
      CollectStopsAtLimit(rows[1..], more, fault, fault', t', index + 1, header, offset, limit, ignore);
    case Done(_) =>
    case Failed(_) =>
  }

  /** Every tokenized row has at least one field. */
  lemma {:induction false} RowsNonEmpty(s: string, i: nat, st: State, fd: char, sd: Option<char>)
    requires |st.row| > 0 && i <= |s|
    ensures forall k :: 0 <= k < |RowsFrom(s, i, st, fd, sd).rows| ==> |RowsFrom(s, i, st, fd, sd).rows[k]| > 0
    decreases |s| - i
  {
    match Scan(s, i, st, fd, sd)
    case Found(row, j) => RowsNonEmpty(s, j, Init, fd, sd);
    case Open(_) =>
    case Bad =>
  }

  /** `ParseString` is the absorption, in order, of the rows `EnumerateString` yields. */
  lemma ParseOfRows(csv: string, header: bool, fd: char, sd: Option<char>, offset: int, limit: int, ignore: bool)
    ensures var rs := RowsOf(csv, fd, sd);
            ParseOf(csv, header, fd, sd, offset, limit, ignore) ==
            Collect(rs.rows, rs.fault, TableData([], []), 0, header, FirstKept(offset), limit, ignore)
  {
    ParseFromRows(EnsureNewline(csv), 0, Init, TableData([], []), 0, fd, sd, header, FirstKept(offset), limit, ignore);
  }

  /** Text without a complete row gives an empty table, or the tokenizer's exception. */
  lemma ParseNoRows(csv: string, header: bool, fd: char, sd: Option<char>, offset: int, limit: int, ignore: bool)
    requires |RowsOf(csv, fd, sd).rows| == 0
    ensures ParseOf(csv, header, fd, sd, offset, limit, ignore) ==
            if RowsOf(csv, fd, sd).fault then Err(ArgumentOutOfRange) else Ok(TableData([], []))
  {
    ParseOfRows(csv, header, fd, sd, offset, limit, ignore);
  }

  /** With `header`, the first row is the header and is not data; an offset of n >= 0 skips n data rows (the
      default -1 skips none), and a positive limit keeps at most that many. */
  lemma ParseWithHeader(csv: string, fd: char, sd: Option<char>, offset: int, limit: int, ignore: bool)
    requires |RowsOf(csv, fd, sd).rows| > 0
    requires ignore || forall k :: 1 <= k < |RowsOf(csv, fd, sd).rows| ==>
                                      |RowsOf(csv, fd, sd).rows[k]| == |RowsOf(csv, fd, sd).rows[0]|
    ensures var rs := RowsOf(csv, fd, sd);
            ParseOf(csv, true, fd, sd, offset, limit, ignore) ==
            Selected(rs.rows[0], [], rs.rows[1..], rs.fault, FirstKept(offset) - 1, limit)
  {
    var rs := RowsOf(csv, fd, sd);
    ParseOfRows(csv, true, fd, sd, offset, limit, ignore);
    RowsNonEmpty(EnsureNewline(csv), 0, Init, fd, sd);
    CollectWithHeader(rs.rows, rs.fault, FirstKept(offset), limit, ignore);
  }

  /** The absorption behind `ParseWithHeader`, for any list of rows. */
  lemma CollectWithHeader(rows: seq<seq<string>>, fault: bool, kept: int, limit: int, ignore: bool)
    requires |rows| > 0 && forall k :: 0 <= k < |rows| ==> |rows[k]| > 0
    requires ignore || forall k :: 1 <= k < |rows| ==> |rows[k]| == |rows[0]|
    ensures Collect(rows, fault, TableData([], []), 0, true, kept, limit, ignore) ==
            Selected(rows[0], [], rows[1..], fault, kept - 1, limit)
  {
    assert rows == [rows[0]] + rows[1..];
    CollectCons(rows[0], rows[1..], fault, TableData([], []), 0, true, kept, limit, ignore);
    AllFitting(rows[1..], rows[0], ignore);
    CollectSelects(rows[1..], fault, rows[0], [], 1, true, kept, limit, ignore);
  }

  /** Without `header`, the columns are numbered "0" .. "n-1" after the first row, which is data like the others;
      an offset of n >= 0 skips n + 1 rows, so that the first row is only kept when the offset is negative. */
  lemma ParseWithoutHeader(csv: string, fd: char, sd: Option<char>, offset: int, limit: int, ignore: bool)
    requires |RowsOf(csv, fd, sd).rows| > 0
    requires ignore || forall k :: 0 <= k < |RowsOf(csv, fd, sd).rows| ==>
                                      |RowsOf(csv, fd, sd).rows[k]| == |RowsOf(csv, fd, sd).rows[0]|
    ensures var rs := RowsOf(csv, fd, sd);
            ParseOf(csv, false, fd, sd, offset, limit, ignore) ==
            Selected(IndexNames(|rs.rows[0]|), [], rs.rows, rs.fault, FirstKept(offset), limit)
  {
    var rs := RowsOf(csv, fd, sd);
    ParseOfRows(csv, false, fd, sd, offset, limit, ignore);
    RowsNonEmpty(EnsureNewline(csv), 0, Init, fd, sd);
    CollectWithoutHeader(rs.rows, rs.fault, FirstKept(offset), limit, ignore);
  }

  /** The absorption behind `ParseWithoutHeader`, for any list of rows. */
  lemma CollectWithoutHeader(rows: seq<seq<string>>, fault: bool, kept: int, limit: int, ignore: bool)
    requires |rows| > 0 && forall k :: 0 <= k < |rows| ==> |rows[k]| > 0
    requires ignore || forall k :: 0 <= k < |rows| ==> |rows[k]| == |rows[0]|
    ensures Collect(rows, fault, TableData([], []), 0, false, kept, limit, ignore) ==
            Selected(IndexNames(|rows[0]|), [], rows, fault, kept, limit)
  {
    var h := IndexNames(|rows[0]|);
    assert Absorb(TableData([], []), rows[0], 0, false, kept, limit, ignore) ==
           Absorb(TableData(h, []), rows[0], 0, false, kept, limit, ignore);
    assert Collect(rows, fault, TableData([], []), 0, false, kept, limit, ignore) ==
           Collect(rows, fault, TableData(h, []), 0, false, kept, limit, ignore);
    AllFitting(rows, h, ignore);
    CollectSelects(rows, fault, h, [], 0, false, kept, limit, ignore);
  }

  /** Without ignore mode and without a limit, a data row whose width differs from the header's makes
      `ParseString` throw `IndexOutOfRangeException`, whether or not the offset would have kept it. */
  lemma ParseRejectsWidth(csv: string, header: bool, fd: char, sd: Option<char>, offset: int, limit: int, k: nat)
    requires limit <= 0
    requires (if header then 1 else 0) <= k < |RowsOf(csv, fd, sd).rows|
    requires |RowsOf(csv, fd, sd).rows[k]| != |RowsOf(csv, fd, sd).rows[0]|
    ensures ParseOf(csv, header, fd, sd, offset, limit, false) == Err(IndexOutOfRange)
  {
    var rs := RowsOf(csv, fd, sd);
    var r := rs.rows[0];
    ParseOfRows(csv, header, fd, sd, offset, limit, false);
    RowsNonEmpty(EnsureNewline(csv), 0, Init, fd, sd);
    assert rs.rows == [r] + rs.rows[1..];
    CollectCons(r, rs.rows[1..], rs.fault, TableData([], []), 0, header, FirstKept(offset), limit, false);
    if header {
      CollectRejects(rs.rows[1..], rs.fault, r, [], 1, header, FirstKept(offset), limit, k - 1);
    } else {
      var h := IndexNames(|r|);
      CollectCons(r, rs.rows[1..], rs.fault, TableData(h, []), 0, false, FirstKept(offset), limit, false);
      CollectRejects(rs.rows, rs.fault, h, [], 0, false, FirstKept(offset), limit, k);
    }
  }

  /* ------------------------------------------------------------------------------------------------------------ */
  /* The loops                                                                                                     */

  /** The body of the tokenizer loop for one character, shared by every copy of the loop up to the point where the
      copies differ, the handling of a finished row: the string-delimiter, field-delimiter and ordinary-character
      branches, and the carriage-return trim of the newline branch. `ended` reports a finished row, left in `row'`;
      `fault` reports the exception of the trim. */
  method Advance(ch: char, row: seq<string>, col: nat, str: bool, prev: Option<char>, fd: char, sd: Option<char>)
    returns (row': seq<string>, col': nat, str': bool, prev': Option<char>, ended: bool, fault: bool)
    requires |row| > 0 && col == |row| - 1
    ensures |row'| > 0 && col' == |row'| - 1
    ensures Step(ch, State(row, str, prev), fd, sd) ==
            if fault then Fault else if ended then Emit(row') else Next(State(row', str', prev'))
  {
    row', col', str', prev', ended, fault := row, col, str, prev, false, false;
    var c: Option<char> := Some(ch);
    if c == sd {
      str' := !str';
      if !str' && c == prev {
        row' := row'[col' := row'[col'] + [ch]];
      }
    } else if str' && ch == fd {
      row' := row' + [""];
      c := None;
      col' := col' + 1;
    } else if str' && ch == '\n' {
      if prev == Some('\r') {
        if |row'[col']| == 0 {
          fault := true;
          return;
        }
        row' := row'[col' := row'[col'][..|row'[col']| - 1]];
      }
      ended := true;
    } else {
      row' := row'[col' := row'[col'] + [ch]];
    }
    prev' := c;
  }

  /** `ParseHeaderFromString`; the legacy copy of it is the same loop. */
  method ParseHeaderFromString(csv: string, fd: char, sd: Option<char>) returns (r: Result<Option<seq<string>>>)
    ensures r == HeaderOf(csv, fd, sd)
  {
    var s := if |csv| > 0 && csv[|csv| - 1] == '\n' then csv else csv + "\n";
    assert s == EnsureNewline(csv);
    var prev: Option<char> := None;
    var row: seq<string> := [""];
    var col: nat := 0;
    var str := true;
    var i := 0;
    while i < |s|
      invariant 0 <= i <= |s| && |row| > 0 && col == |row| - 1
      invariant Scan(s, i, State(row, str, prev), fd, sd) == Scan(s, 0, Init, fd, sd)
    {
      var ended, fault;
      row, col, str, prev, ended, fault := Advance(s[i], row, col, str, prev, fd, sd);
      if fault {
        return Err(ArgumentOutOfRange);
      }
      if ended {
        return Ok(Some(row));
      }
      i := i + 1;
    }
    return Ok(None);
  }

  /** `EnumerateString`: the rows it yields, in order, and whether it throws after them. */
  method EnumerateString(csv: string, fd: char, sd: Option<char>) returns (r: Rows)
    ensures r == RowsOf(csv, fd, sd)
  {
    var s := if |csv| > 0 && csv[|csv| - 1] == '\n' then csv else csv + "\n";
    assert s == EnsureNewline(csv);
    r := EnumerateLines(s, fd, sd);
  }

  /** The loop of `EnumerateString` over the normalised text. */
  method EnumerateLines(s: string, fd: char, sd: Option<char>) returns (r: Rows)
    ensures r == RowsFrom(s, 0, Init, fd, sd)
  {
    ghost var goal := RowsFrom(s, 0, Init, fd, sd);
    var prev: Option<char> := None;
    var row: seq<string> := [""];
    var col: nat := 0;
    var str := true;
    var yielded: seq<seq<string>> := [];
    var i := 0;
    while i < |s|
      invariant 0 <= i <= |s| && |row| > 0 && col == |row| - 1
      invariant Prepend(yielded, RowsFrom(s, i, State(row, str, prev), fd, sd)) == goal
    {
      ghost var st := State(row, str, prev);
      var ended, fault;
      row, col, str, prev, ended, fault := Advance(s[i], row, col, str, prev, fd, sd);
      if fault {
        RowsAtFault(s, i, st, fd, sd);
        assert yielded + [] == yielded;
        return Rows(yielded, true);
      }
      if ended {
        RowsAtEmit(s, i, st, row, fd, sd);
        PrependTwice(yielded, [row], RowsFrom(s, i + 1, Init, fd, sd));
        yielded := yielded + [row];
        row, col, str, prev := [""], 0, true, None;
      } else {
        RowsAtNext(s, i, st, State(row, str, prev), fd, sd);
      }
      i := i + 1;
    }
    assert yielded + [] == yielded;
    return Rows(yielded, false);
  }

  /** `CountRowsFromString`; the legacy copy of it is the same loop. */
  method CountRowsFromString(csv: string, sd: Option<char>) returns (n: nat)
    ensures n == RowCount(csv, sd)
  {
    var s := if |csv| > 0 && csv[|csv| - 1] == '\n' then csv else csv + "\n";
    assert s == EnsureNewline(csv);
    n := 0;
    var str := true;
    var i := 0;
    while i < |s|
      invariant 0 <= i <= |s|
      invariant n + CountFrom(s, i, sd, str) == CountFrom(s, 0, sd, true)
    {
      if Some(s[i]) == sd {
        str := !str;
      } else if str && s[i] == '\n' {
        n := n + 1;
      }
      i := i + 1;
    }
  }

  /** `ParseString` with its header, offset and limit arguments; `ignore` is the global `IgnoreErrors`. */
  method ParseString(csv: string, header: bool, fd: char, sd: Option<char>, offset: int, limit: int, ignore: bool)
    returns (r: Result<TableData>)
    ensures r == ParseOf(csv, header, fd, sd, offset, limit, ignore)
  {
    var s := if |csv| < 1 || csv[|csv| - 1] != '\n' then csv + "\n" else csv;
    assert s == EnsureNewline(csv);
    var offset' := offset;
    if offset' > -1 {
      offset' := offset' + 1;
    }
    assert offset' == FirstKept(offset);
    r := ParseLines(s, header, fd, sd, offset', limit, ignore);
  }

  /** The loop of `ParseString` over the normalised text, with the offset already moved past the first line. */
  method ParseLines(s: string, header: bool, fd: char, sd: Option<char>, offset: int, limit: int, ignore: bool)
    returns (r: Result<TableData>)
    ensures r == ParseFrom(s, 0, Init, TableData([], []), 0, fd, sd, header, offset, limit, ignore)
  {
    ghost var goal := ParseFrom(s, 0, Init, TableData([], []), 0, fd, sd, header, offset, limit, ignore);
    var prev: Option<char> := None;
    var row: seq<string> := [""];
    var col: nat := 0;
    var index := 0;
    var str := true;
    var res := TableData([], []);
    var i := 0;
    while i < |s|
      invariant 0 <= i <= |s| && |row| > 0 && col == |row| - 1
      invariant ParseFrom(s, i, State(row, str, prev), res, index, fd, sd, header, offset, limit, ignore) == goal
    {
      ghost var st := State(row, str, prev);
      var ended, fault;
      row, col, str, prev, ended, fault := Advance(s[i], row, col, str, prev, fd, sd);
      if fault {
        return Err(ArgumentOutOfRange);
      }
      if !ended {
        ParseAtNext(s, i, st, State(row, str, prev), res, index, fd, sd, header, offset, limit, ignore);
      } else {
        ParseAtEmit(s, i, st, row, res, index, fd, sd, header, offset, limit, ignore);
        var outcome := AddParsedRow(res, row, index, header, offset, limit, ignore);
        if outcome.Failed? {
          return Err(outcome.e);
        } else if outcome.Done? {
          return Ok(outcome.t);
        }
        res := outcome.t;
        row, col, str, prev := [""], 0, true, None;
        index := index + 1;
      }
      i := i + 1;
    }
    return Ok(res);
  }

  /** The newline branch of `ParseString` once the row is complete: the header is fixed from the first row, the
      width is checked, and the row is kept or skipped. The `CsvTable` under construction is passed by value. */
  method AddParsedRow(res: TableData, row: seq<string>, index: int, header: bool, offset: int, limit: int,
                      ignore: bool) returns (a: Absorbed)
    ensures a == Absorb(res, row, index, header, offset, limit, ignore)
  {
    var h, rows := res.header, res.rows;
    var fields := row;
    if |h| < 1 {
      h := h + (if header then fields else IndexNames(|fields|));
      if header {
        fields := [];
      }
    }
    if |fields| > 0 {
      if !ignore && |fields| != |h| {
        return Failed(IndexOutOfRange);
      }
      if index >= offset {
        rows := rows + [fields];
        if limit > 0 && |rows| >= limit {
          return Done(TableData(h, rows));
        }
      }
    }
    return Continue(TableData(h, rows));
  }

  /** The legacy `ParseString`: no ignore mode, no offset and no limit. */
  method LegacyParseString(csv: string, header: bool, fd: char, sd: Option<char>) returns (r: Result<TableData>)
    ensures r == ParseOf(csv, header, fd, sd, -1, 0, false)
  {
    r := ParseString(csv, header, fd, sd, -1, 0, false);
  }
}
