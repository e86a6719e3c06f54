/**
 * `CsvTable` of the current source tree: a header and a list of rows, filled by the constructor, read through two
 * indexers and the dictionary views, copied by `Clone` and written out by `ToString` through a `CsvStream` over a
 * memory stream.
 */
module Table {
  import opened Wrappers
  import opened Text
  import opened Dictionaries
  import opened CsvWriter
  import opened Base
  import opened Stream

  /** The header the constructor settles on: the given names; when there are none and rows are given, the numbers
      "0" .. "k-1" for the length k of the first row (0 without rows). */
  function InitialHeader(given: Option<seq<string>>, rows: Option<seq<seq<string>>>): (h: seq<string>)
    ensures rows.None? || (given.Some? && |given.value| > 0) ==> h == (if given.Some? then given.value else [])
    ensures rows.Some? && (given.None? || |given.value| == 0) ==>
              |h| == (if |rows.value| > 0 then |rows.value[0]| else 0) &&
              forall i :: 0 <= i < |h| ==> h[i] == NatToString(i)
  {
    var h := if given.Some? then given.value else [];
    if rows.None? || |h| > 0 then h
    else IndexNames(if |rows.value| > 0 then |rows.value[0]| else 0)
  }

  /** `List.IndexOf`: the first position holding `x`, or -1. */
  function IndexOf(s: seq<string>, x: string): (k: int)
    ensures k == -1 <==> x !in s
    ensures k != -1 ==> 0 <= k < |s| && s[k] == x && x !in s[..k]
    decreases |s|
  {
    if |s| == 0 then -1
    else if s[0] == x then 0
    else
      var k := IndexOf(s[1..], x);
      assert s[1..][..if k < 0 then 0 else k] == s[1..1 + if k < 0 then 0 else k];
      if k == -1 then -1 else k + 1
  }

  /** The rows of `ToString` are written one `WriteRows` call at a time: that is `WriteRows` of all of them, the
      first failing row ending it. */
  lemma OneRowAtATime(rows: seq<seq<string>>, i: nat, header: Option<seq<string>>, written: bool, done: seq<byte>,
                      fd: char, sd: Option<char>, nl: NewLine, ignore: bool)
    requires i < |rows|
    ensures var w := RowsOut([rows[i]], 0, header, written, [], fd, sd, nl, ignore);
            RowsOut(rows, i, header, written, done, fd, sd, nl, ignore) ==
              if w.outcome.Fail? then Emitted(w.outcome, done + w.out, w.written)
              else RowsOut(rows, i + 1, header, true, done + w.out, fd, sd, nl, ignore)
  {
    var v := RowOut(rows[i], header, written, fd, sd, nl, ignore);
    assert [] + v.out == v.out;
    assert RowsOut([rows[i]], 0, header, written, [], fd, sd, nl, ignore) ==
           RoundOut([rows[i]], 0, header, written, [], fd, sd, nl, ignore);
    if v.outcome.Pass? {
      assert RowsOut([rows[i]], 1, header, true, v.out, fd, sd, nl, ignore) == Emitted(Pass, v.out, true);
    }
    assert RowsOut(rows, i, header, written, done, fd, sd, nl, ignore) ==
           RoundOut(rows, i, header, written, done, fd, sd, nl, ignore);
  }

  class CsvTable {
    const hasHeader: bool
    const fieldDelimiter: char
    const stringDelimiter: Option<char>
    var header: seq<string>
    var rows: seq<seq<string>>

    /** The constructor: `hasHeader` defaults to whether header names are given; the rows are taken as they are,
        without a width check. */
    constructor (hasHeader: Option<bool>, fd: char, sd: Option<char>, header: Option<seq<string>>,
                 rows: Option<seq<seq<string>>>)
      ensures this.hasHeader == (if hasHeader.Some? then hasHeader.value else header.Some?)
      ensures fieldDelimiter == fd && stringDelimiter == sd
      ensures this.header == InitialHeader(header, rows)
      ensures this.rows == if rows.Some? then rows.value else []
    {
      this.hasHeader := if hasHeader.Some? then hasHeader.value else header.Some?;
      fieldDelimiter, stringDelimiter := fd, sd;
      this.header := if header.Some? then header.value else [];
      this.rows := [];
      new;
      if rows.None? {
        return;
      }
      if |this.header| < 1 {
        this.header := IndexNames(if |rows.value| > 0 then |rows.value[0]| else 0);
      }
      this.rows := rows.value;
    }

    function CountColumns(): (n: nat)
      reads this
      ensures n == |header|
    {
      |header|
    }

    function CountRows(): (n: nat)
      reads this
      ensures n == |rows|
    {
      |rows|
    }

    /** `this[index]`: the row at `index`, an `ArgumentException` outside `0 .. CountRows - 1`. */
    function Row(index: int): (r: Result<seq<string>>)
      reads this
      ensures r.Ok? <==> 0 <= index < |rows|
      ensures r.Ok? ==> r.value == rows[index]
      ensures r.Err? ==> r.error == Argument("Invalid index")
    {
      if index < 0 || index >= |rows| then Err(Argument("Invalid index")) else Ok(rows[index])
    }

    /** `this[index, name]`: the field of the row at `index` in the first column named `name`. */
    function Field(index: int, name: string): (r: Result<string>)
      reads this
      ensures !(0 <= index < |rows|) ==> r == Err(Argument("Invalid index"))
      ensures 0 <= index < |rows| && name !in header ==> r == Err(Argument("Invalid header"))
      ensures 0 <= index < |rows| && name in header ==>
                exists k :: 0 <= k < |header| && header[k] == name && name !in header[..k] &&
                            r == if k < |rows[index]| then Ok(rows[index][k])
                                 else Err(InvalidData("Row doesn't seem to contain a value for the requested column"))
    {
      match Row(index)
      case Err(e) => Err(e)
      case Ok(row) =>
        var k := IndexOf(header, name);
        if k < 0 then Err(Argument("Invalid header"))
        else if k >= |row| then Err(InvalidData("Row doesn't seem to contain a value for the requested column"))
        else Ok(row[k])
    }

    /** `Clone`: a new table with the same settings, header and rows. */
    method Clone() returns (t: CsvTable)
      ensures fresh(t)
      ensures t.hasHeader == hasHeader && t.fieldDelimiter == fieldDelimiter && t.stringDelimiter == stringDelimiter
      ensures t.header == header && t.rows == rows
    {
      t := new CsvTable(Some(hasHeader), fieldDelimiter, stringDelimiter, None, None);
      t.header := header;
      t.rows := rows;
    }

    /** `ToDictionary`: every header name mapped to the row's field at its index, the last of equal names winning;
        a row shorter than the header fails in the indexing. */
    method ToDictionary(row: seq<string>) returns (r: Result<map<string, string>>)
      ensures |row| < |header| ==> r == Err(IndexOutOfRange)
      ensures |row| >= |header| ==> r == Ok(DictOf(header, row, |header|))
    {
      if |row| < |header| {
        return Err(IndexOutOfRange);
      }
      var m := FillDictionary(header, row, |header|);
      return Ok(m);
    }

    /** `AsDictionary`: the index is checked against the column count, as the source does; past the last row the
        list indexer fails. */
    method AsDictionary(index: int) returns (r: Result<map<string, string>>)
      ensures index < 0 || index >= |header| ==> r == Err(Argument("Invalid index"))
      ensures 0 <= index < |header| && index >= |rows| ==> r == Err(ArgumentOutOfRange)
      ensures 0 <= index < |header| && index < |rows| ==>
                r == if |rows[index]| < |header| then Err(IndexOutOfRange) else Ok(DictOf(header, rows[index], |header|))
    {
      if index < 0 || index >= |header| {
        return Err(Argument("Invalid index"));
      }
      if index >= |rows| {
        return Err(ArgumentOutOfRange);
      }
      r := ToDictionary(rows[index]);
    }

    /** `AsDictionaries`: one dictionary per row, in row order; the first row shorter than the header fails. */
    method AsDictionaries() returns (r: Result<seq<map<string, string>>>)
      ensures r.Ok? <==> forall k :: 0 <= k < |rows| ==> |rows[k]| >= |header|
      ensures r.Err? ==> r.error == IndexOutOfRange
      ensures r.Ok? ==> |r.value| == |rows| && forall k :: 0 <= k < |rows| ==> r.value[k] == DictOf(header, rows[k], |header|)
    {
      var ds: seq<map<string, string>> := [];
      var i := 0;
      while i < |rows|
        invariant 0 <= i <= |rows| && |ds| == i
        invariant forall k :: 0 <= k < i ==> |rows[k]| >= |header| && ds[k] == DictOf(header, rows[k], |header|)
      {
        var d := ToDictionary(rows[i]);
        if d.Err? {
          return Err(d.error);
        }
        ds := ds + [d.value];
        i := i + 1;
      }
      return Ok(ds);
    }

    /** `ToString`: a `CsvStream` over a memory stream, knowing the table's header, gets one `WriteRows` call per
        row; the bytes written are the text. The field delimiter defaults to the table's; the table's string
        delimiter is taken only when neither `header` nor a string delimiter is given. */
    method ToString(header: Option<bool>, fd: Option<char>, sd: Option<char>, nl: NewLine, ignore: bool)
      returns (r: Result<string>)
      ensures var fd' := if fd.Some? then fd.value else fieldDelimiter;
              var sd' := if header.None? && sd.None? then stringDelimiter else sd;
              var w := RowsOut(rows, 0, Some(this.header), false, [], fd', sd', nl, ignore);
              r == if w.outcome.Pass? then Ok(DecodeBytes(w.out)) else Err(w.outcome.error)
    {
      var fd' := if fd.Some? then fd.value else fieldDelimiter;
      var sd' := if header.None? && sd.None? then stringDelimiter else sd;
      var ms := new ByteStream([], 0);
      var made := CsvStream.Open(ms, Some(this.header), fd', sd', DefaultBufferSize, DefaultChunkSize, false);
      var csv: CsvStream := made.value;
      ghost var h := Some(this.header);
      ghost var goal := RowsOut(rows, 0, h, false, [], fd', sd', nl, ignore);
      var i := 0;
      while i < |rows|
        invariant 0 <= i <= |rows| && csv.Valid() && !csv.closed && csv.base == ms && csv.header == h
        invariant csv.fieldDelimiter == fd' && csv.stringDelimiter == sd'
        invariant ms.position == |ms.data|
        invariant goal == RowsOut(rows, i, h, csv.headerWritten, ms.data, fd', sd', nl, ignore)
        modifies csv`header, csv`columnCount, csv`headerWritten, ms`data, ms`position
      {
        OneRowAtATime(rows, i, h, csv.headerWritten, ms.data, fd', sd', nl, ignore);
        ghost var before := ms.data;
        ghost var w := RowsOut([rows[i]], 0, h, csv.headerWritten, [], fd', sd', nl, ignore);
        OverwriteAtEnd(before, w.out);
        var o := csv.WriteRows([rows[i]], nl, ignore);
        if o.Fail? {
          return Err(o.error);
        }
        i := i + 1;
      }
      return Ok(DecodeBytes(ms.data));
    }
  }
}
