/**
 * The stream entry points of the static `CsvParser` class. The legacy `ParseStream` and both trees'
 * `CountRowsFromStream` read the whole base stream into one array and hand its text to the string entry points. The
 * current `ParseHeaderFromStream` is one `CsvStream.ReadRow`; the current `ParseStream` reads the header and then
 * the rows of a `CsvStream`, from the offset on and up to the limit. The legacy `ParseHeaderFromStream` has a fill
 * loop of its own over a fresh buffer.
 *
 * Each entry point that owns the base stream closes it at the end, also after an exception, unless it is told to
 * leave it open.
 */
module StreamParser {
  import opened Wrappers
  import opened Text
  import opened Tokenizer
  import opened Base
  import opened Stream
  import CsvParser
  import Table
  import LegacyStream

  /* ------------------------------------------------------------------------------------------------------------ */
  /* Reading the whole stream                                                                                      */

  /** What reading the whole base stream into an array of its length gives: nothing to read is "No CSV data"; a
      read that delivers fewer bytes than the length, because the position is not at the start or one read delivers
      less, is an `IOException`. */
  function Whole(data: seq<byte>, pos: nat, maxRead: nat): (r: Result<seq<byte>>)
    requires pos <= |data|
    ensures |data| == 0 ==> r == Err(InvalidData("No CSV data"))
    ensures |data| > 0 ==> (r.Ok? <==> pos == 0 && |data| <= maxRead)
    ensures r.Ok? ==> r.value == data
  {
    if |data| < 1 then Err(InvalidData("No CSV data"))
    else if Min(Min(|data|, maxRead), |data| - pos) != |data| then Err(IOFailure)
    else Ok(data)
  }

  /** `byte[] buffer = new byte[stream.Length]`, the "No CSV data" and short-read checks, and the `using` that closes
      the stream unless `leaveOpen`. */
  method ReadWhole(s: ByteStream, leaveOpen: bool) returns (r: Result<seq<byte>>)
    requires s.Valid()
    modifies s`position, s`closed
    ensures s.Valid()
    ensures s.closed == (old(s.closed) || !leaveOpen)
    ensures r == Whole(s.data, old(s.position), s.maxRead)
  {
    var buffer := new byte[|s.data|];
    if buffer.Length < 1 {
      r := Err(InvalidData("No CSV data"));
    } else {
      var n := s.Read(buffer, 0, buffer.Length);
      if n.Err? || n.value != buffer.Length {
        r := Err(IOFailure);
      } else {
        assert s.position == |s.data| && old(s.position) == 0;
        assert buffer[..] == buffer[0..n.value] == s.data[0..|s.data|] == s.data;
        r := Ok(buffer[..]);
      }
    }
    if !leaveOpen {
      s.Close();
    }
  }

  /** `CountRowsFromStream` (the same in both trees): the rows of the whole text. */
  method CountRowsFromStream(s: ByteStream, sd: Option<char>, leaveOpen: bool) returns (r: Result<nat>)
    requires s.Valid()
    modifies s`position, s`closed
    ensures s.closed == (old(s.closed) || !leaveOpen)
    ensures var w := Whole(s.data, old(s.position), s.maxRead);
            r == if w.Ok? then Ok(RowCount(DecodeBytes(w.value), sd)) else Err(w.error)
  {
    var w := ReadWhole(s, leaveOpen);
    if w.Err? {
      return Err(w.error);
    }
    var n := CsvParser.CountRowsFromString(DecodeBytes(w.value), sd);
    return Ok(n);
  }

  /** The legacy `ParseStream`: the legacy `ParseString` of the whole text. */
  method LegacyParseStream(s: ByteStream, header: bool, fd: char, sd: Option<char>, leaveOpen: bool)
    returns (r: Result<CsvParser.TableData>)
    requires s.Valid()
    modifies s`position, s`closed
    ensures s.closed == (old(s.closed) || !leaveOpen)
    ensures var w := Whole(s.data, old(s.position), s.maxRead);
            r == if w.Ok? then CsvParser.ParseOf(DecodeBytes(w.value), header, fd, sd, -1, 0, false) else Err(w.error)
  {
    var w := ReadWhole(s, leaveOpen);
    if w.Err? {
      return Err(w.error);
    }
    r := CsvParser.LegacyParseString(DecodeBytes(w.value), header, fd, sd);
  }


  /* ------------------------------------------------------------------------------------------------------------ */
  /* The current tree: through a `CsvStream`                                                                       */

  /** The current `ParseHeaderFromStream`: a `CsvStream` over the stream without a header, one `ReadRow`, then the
      `using` closes the `CsvStream`, and with it the base stream unless `leaveOpen`. Invalid buffer or chunk sizes
      fail in the constructor, before any read. */
  method ParseHeaderFromStream(s: ByteStream, fd: char, sd: Option<char>, leaveOpen: bool, bufferSize: int,
                               chunkSize: int, ignore: bool)
    returns (r: Result<Option<seq<string>>>)
    requires s.Valid()
    modifies s`position, s`closed
    ensures bufferSize < chunkSize ==> r == Err(Argument("Invalid buffer size")) && unchanged(s)
    ensures chunkSize <= bufferSize && chunkSize < 4 ==> r == Err(Argument("Invalid chunk size")) && unchanged(s)
    ensures 4 <= chunkSize <= bufferSize ==>
              var u := old(s.data[s.position..]);
              var want := NextRow(u, fd, sd, 0, ignore).0;
              && s.closed == (old(s.closed) || !leaveOpen)
              && (r == want || (r.Err? && BufferFault(r.error)))
              && (|u| == 0 || Roomy(u, [NL], s.maxRead, chunkSize, bufferSize) ==> r == want)
  {
    ghost var u := s.data[s.position..];
    var made := CsvStream.Open(s, None, fd, sd, bufferSize, chunkSize, leaveOpen);
    if made.Err? {
      return Err(made.error);
    }
    r := FirstRow(made.value, ignore, u, s.maxRead, chunkSize, bufferSize);
  }

  /** One `ReadRow` of a fresh `CsvStream` whose unread bytes are `u`, then its `Close`. */
  method FirstRow(csv: CsvStream, ignore: bool, ghost u: seq<byte>, ghost m: nat, ghost chunk: nat, ghost size: nat)
    returns (r: Result<Option<seq<string>>>)
    requires csv.Valid() && !csv.closed && csv.columnCount.None? && u == csv.Unread()
    requires m == csv.base.maxRead && chunk == csv.chunkSize && size == csv.readBuffer.Length
    modifies csv`closed, csv`bufferIndex, csv`bufferPosition, csv.readBuffer, csv.base`position, csv.base`closed
    ensures csv.base.closed == (old(csv.base.closed) || !csv.leaveOpen)
    ensures var want := NextRow(u, csv.fieldDelimiter, csv.stringDelimiter, 0, ignore).0;
            && (r == want || (r.Err? && BufferFault(r.error)))
            && (|u| == 0 || Roomy(u, [NL], m, chunk, size) ==> r == want)
  {
    r := csv.ReadRow(ignore);
    csv.Close();
  }

  /** Which of the enumerated rows `Skip(offset).Take(limit)` keeps, or the exception that ends the enumeration
      before it has them all; a limit below one keeps every row from the offset on. */
  function Picked(d: Drain, offset: int, limit: int): (r: Result<seq<seq<string>>>)
    ensures r.Ok? && limit > 0 ==> |r.value| <= limit
    ensures r.Ok? ==> r.value <= Skip(d.rows, offset)
    ensures r.Err? ==> d.error == Some(r.error)
  {
    var kept := Skip(d.rows, offset);
    if limit > 0 && |kept| >= limit then Ok(Take(kept, limit))
    else if d.error.Some? then Err(d.error.value)
    else Ok(kept)
  }

  /** The kept rows of a prefix of the enumeration grow by the next row once the offset is passed. */
  lemma SkipSnoc<T>(s: seq<T>, x: T, n: int)
    ensures Skip(s + [x], n) == if |s| >= n then Skip(s, n) + [x] else Skip(s, n)
  {
    if n > 0 && |s| >= n {
      assert (s + [x])[n..] == s[n..] + [x];
    }
  }

  /** Once the offset is passed, what follows a prefix of the enumeration follows its kept rows. */
  lemma SkipAppend<T>(a: seq<T>, b: seq<T>, n: int)
    requires |a| >= n
    ensures Skip(a + b, n) == Skip(a, n) + b
  {
    if n > 0 {
      assert (a + b)[n..] == a[n..] + b;
    }
  }

  /** The row loop after the rows `seen` of the enumeration `want`, of which `rows` are kept and `rest` is still to
      come. */
  ghost predicate Selecting(want: Drain, seen: seq<seq<string>>, rows: seq<seq<string>>, rest: Drain, offset: int,
                            limit: int)
  {
    && want.rows == seen + rest.rows && want.error == rest.error
    && rows == Skip(seen, offset) && (limit <= 0 || |rows| < limit)
  }

  /** One more row: it is kept once the offset is passed, and the loop ends with the rows `Picked` keeps when it
      reaches the limit. */
  lemma SelectOn(want: Drain, seen: seq<seq<string>>, rows: seq<seq<string>>, was: Drain, now: Drain,
                 row: seq<string>, offset: int, limit: int)
    requires Selecting(want, seen, rows, was, offset, limit)
    requires was.rows == [row] + now.rows && was.error == now.error
    ensures var kept := if |seen| >= offset then rows + [row] else rows;
            if limit > 0 && |kept| >= limit then Picked(want, offset, limit) == Ok(kept)
            else Selecting(want, seen + [row], kept, now, offset, limit)
  {
    var kept := if |seen| >= offset then rows + [row] else rows;
    SkipSnoc(seen, row, offset);
    Regroup(seen, [row], now.rows);
    if limit > 0 && |kept| >= limit {
      SkipAppend(seen + [row], now.rows, offset);
      assert Take(kept + now.rows, limit) == kept;
    }
  }

  /** The end of the enumeration, by its end or by its exception, before the limit: `Picked` keeps the rows kept. */
  lemma SelectEnd(want: Drain, seen: seq<seq<string>>, rows: seq<seq<string>>, was: Drain,
                  r: Result<Option<seq<string>>>, offset: int, limit: int)
    requires Selecting(want, seen, rows, was, offset, limit)
    requires r.Ok? ==> r.value.None? && was == Drain([], None)
    requires r.Err? ==> was == Drain([], Some(r.error))
    ensures Picked(want, offset, limit) == if r.Err? then Err(r.error) else Ok(rows)
  {
    assert seen + [] == seen;
  }

  /** One `ReadRow` of the row loop, on the unread bytes `u`. */
  method Pull(csv: CsvStream, ignore: bool, ghost u: seq<byte>, ghost cc: int, ghost m: nat, ghost chunk: nat,
              ghost size: nat)
    returns (r: Result<Option<seq<string>>>, ghost v: seq<byte>)
    requires csv.Valid() && !csv.closed && u == csv.Unread() && cc == csv.ColumnCount()
    requires m == csv.base.maxRead && chunk == csv.chunkSize && size == csv.readBuffer.Length
    modifies csv`bufferIndex, csv`bufferPosition, csv.readBuffer, csv.base`position
    ensures csv.Valid() && v == csv.Unread()
    ensures DrainRound(u, v, r, csv.fieldDelimiter, csv.stringDelimiter, cc, ignore, AllRoomy(u, m, chunk, size))
    ensures AllRoomy(u, m, chunk, size) ==> AllRoomy(v, m, chunk, size)
  {
    r, v := csv.ReadRound(ignore, u);
  }

  /** The row loop of `ParseStreamAsync`, which keeps the rows that `Skip(offset).Take(limit)` pulls from `Rows` in
      `ParseStream`: rows before the offset are counted and dropped, and reading stops once `limit` rows are kept. */
  method SelectRows(csv: CsvStream, ignore: bool, offset: int, limit: int) returns (r: Result<seq<seq<string>>>)
    requires csv.Valid() && !csv.closed
    modifies csv`bufferIndex, csv`bufferPosition, csv.readBuffer, csv.base`position
    ensures csv.Valid()
    ensures var want := Picked(StreamRows(old(csv.Unread()), csv.fieldDelimiter, csv.stringDelimiter,
                                          csv.ColumnCount(), ignore), offset, limit);
            && (r == want || (r.Err? && BufferFault(r.error)))
            && (AllRoomy(old(csv.Unread()), csv.base.maxRead, csv.chunkSize, csv.readBuffer.Length) ==> r == want)
  {
    ghost var u := csv.Unread();
    ghost var cc := csv.ColumnCount();
    ghost var fd, sd := csv.fieldDelimiter, csv.stringDelimiter;
    ghost var m, chunk, size := csv.base.maxRead, csv.chunkSize, csv.readBuffer.Length;
    ghost var want := StreamRows(u, fd, sd, cc, ignore);
    ghost var room := AllRoomy(u, m, chunk, size);
    ghost var v := u;
    ghost var seen: seq<seq<string>> := [];
    var rows: seq<seq<string>> := [];
    var current := 0;
    while true
      invariant csv.Valid() && !csv.closed && v == csv.Unread() && cc == csv.ColumnCount() && m == csv.base.maxRead
      invariant Selecting(want, seen, rows, StreamRows(v, fd, sd, cc, ignore), offset, limit)
      invariant current == |seen|
      invariant room ==> AllRoomy(v, m, chunk, size)
      decreases |v|
    {
      ghost var v0 := v;
      var row;
      row, v := Pull(csv, ignore, v, cc, m, chunk, size);
      ghost var was, now := StreamRows(v0, fd, sd, cc, ignore), StreamRows(v, fd, sd, cc, ignore);
      if row.Err? || row.value.None? {
        if row.Ok? || was == Drain([], Some(row.error)) {
          SelectEnd(want, seen, rows, was, row, offset, limit);
        }
        return if row.Err? then Err(row.error) else Ok(rows);
      }
      SelectOn(want, seen, rows, was, now, row.value.value, offset, limit);
      if current >= offset {
        rows := rows + [row.value.value];
      }
      current := current + 1;
      seen := seen + [row.value.value];
      if limit > 0 && |rows| >= limit {
        return Ok(rows);
      }
    }
  }

  /** The header the current `ParseStream` reads from the unread bytes `u`: none without `header`; otherwise the
      row of the first line, which must be there. */
  function HeaderColumns(u: seq<byte>, header: bool, fd: char, sd: Option<char>): (r: Result<Option<seq<string>>>)
    ensures r.Ok? ==> (r.value.Some? <==> header)
    ensures header && |u| == 0 ==> r == Err(InvalidData("No header"))
    ensures !header ==> r == Ok(None)
  {
    if !header then Ok(None)
    else if |u| == 0 then Err(InvalidData("No header"))
    else
      match HeaderLine(u[..LineEnd(u, [NL])], fd, sd)
      case Err(e) => Err(e)
      case Ok(names) => Ok(Some(names))
  }

  /** The bytes left after the header. */
  function AfterHeader(u: seq<byte>, header: bool): (v: seq<byte>)
    ensures |v| <= |u|
  {
    if header && |u| > 0 then u[LineEnd(u, [NL])..] else u
  }

  /** `if (header) columns = csv.ReadHeader();` on a stream of no header and no column count. */
  method ReadColumns(csv: CsvStream, header: bool) returns (r: Result<Option<seq<string>>>)
    requires csv.Valid() && !csv.closed && csv.header.None?
    modifies csv`header, csv`bufferIndex, csv`bufferPosition, csv.readBuffer, csv.base`position
    ensures csv.Valid()
    ensures var u := old(csv.Unread());
            var want := HeaderColumns(u, header, csv.fieldDelimiter, csv.stringDelimiter);
            && ((r == want && (r.Ok? ==> csv.Unread() == AfterHeader(u, header))) || (r.Err? && BufferFault(r.error)))
            && (AllRoomy(u, csv.base.maxRead, csv.chunkSize, csv.readBuffer.Length) ==> r == want)
  {
    if !header {
      return Ok(None);
    }
    var h := csv.ReadHeader();
    if h.Err? {
      return Err(h.error);
    }
    return Ok(Some(h.value));
  }

  /** The header names, if read, and the rows a parse keeps. */
  datatype Parsed = Parsed(columns: Option<seq<string>>, rows: seq<seq<string>>)

  /** What the current `ParseStream` reads from the unread bytes `u`: with `header`, the header line, which must be
      there; then the rows `Skip(offset).Take(limit)` keeps of the rows that follow, none of them checked against
      the header. */
  function StreamParse(u: seq<byte>, header: bool, fd: char, sd: Option<char>, offset: int, limit: int, ignore: bool)
    : (r: Result<Parsed>)
    ensures r.Ok? ==> (r.value.columns.Some? <==> header)
    ensures r.Ok? && limit > 0 ==> |r.value.rows| <= limit
    ensures header && |u| == 0 ==> r == Err(InvalidData("No header"))
  {
    match HeaderColumns(u, header, fd, sd)
    case Err(e) => Err(e)
    case Ok(columns) =>
      match Picked(StreamRows(AfterHeader(u, header), fd, sd, 0, ignore), offset, limit)
      case Err(e) => Err(e)
      case Ok(rows) => Ok(Parsed(columns, rows))
  }

  /** The reading part of the current `ParseStream` on a fresh `CsvStream`. */
  method ParseOpen(csv: CsvStream, header: bool, offset: int, limit: int, ignore: bool) returns (r: Result<Parsed>)
    requires csv.Valid() && !csv.closed && csv.header.None? && csv.columnCount.None?
    modifies csv`header, csv`bufferIndex, csv`bufferPosition, csv.readBuffer, csv.base`position
    ensures csv.Valid() && !csv.closed
    ensures var want := StreamParse(old(csv.Unread()), header, csv.fieldDelimiter, csv.stringDelimiter, offset, limit,
                                    ignore);
            && (r == want || (r.Err? && BufferFault(r.error)))
            && (AllRoomy(old(csv.Unread()), csv.base.maxRead, csv.chunkSize, csv.readBuffer.Length) ==> r == want)
  {
    ghost var u := csv.Unread();
    ghost var m, chunk, size := csv.base.maxRead, csv.chunkSize, csv.readBuffer.Length;
    var columns := ReadColumns(csv, header);
    if columns.Err? {
      return Err(columns.error);
    }
    assert AllRoomy(u, m, chunk, size) ==> AllRoomy(AfterHeader(u, header), m, chunk, size);
    var rows := SelectRows(csv, ignore, offset, limit);
    if rows.Err? {
      return Err(rows.error);
    }
    return Ok(Parsed(columns.value, rows.value));
  }

  /** The current `ParseStream`: a `CsvStream` with the default sizes, `ReadHeader` when the first row is the
      header, the selected rows, and a new `CsvTable` of them. `ReadHeader` sets no column count, so no row is
      checked against the header. The `using` closes the `CsvStream`, and the base stream unless `leaveOpen`. */
  method ParseStream(s: ByteStream, header: bool, fd: char, sd: Option<char>, leaveOpen: bool, offset: int,
                     limit: int, ignore: bool)
    returns (r: Result<Table.CsvTable>)
    requires s.Valid()
    modifies s`position, s`closed
    ensures s.closed == (old(s.closed) || !leaveOpen)
    ensures var want := StreamParse(old(s.data[s.position..]), header, fd, sd, offset, limit, ignore);
            && (r.Ok? ==> want.Ok? && fresh(r.value) && r.value.hasHeader == header &&
                          r.value.fieldDelimiter == fd && r.value.stringDelimiter == sd &&
                          r.value.header == Table.InitialHeader(want.value.columns, Some(want.value.rows)) &&
                          r.value.rows == want.value.rows)
            && (r.Err? ==> want == Err(r.error) || BufferFault(r.error))
            && (AllRoomy(old(s.data[s.position..]), s.maxRead, DefaultChunkSize, DefaultBufferSize) ==>
                  r.Ok? == want.Ok? && (r.Err? ==> want == Err(r.error)))
  {
    var made := CsvStream.Open(s, None, fd, sd, DefaultBufferSize, DefaultChunkSize, leaveOpen);
    var csv := made.value;
    var p := ParseOpen(csv, header, offset, limit, ignore);
    csv.Close();
    if p.Err? {
      return Err(p.error);
    }
    var t := new Table.CsvTable(Some(header), fd, sd, p.value.columns, Some(p.value.rows));
    return Ok(t);
  }

  /* ------------------------------------------------------------------------------------------------------------ */
  /* The legacy `ParseHeaderFromStream`                                                                            */

  /** What the legacy `ParseHeaderFromStream` makes of the way its fill loop ended, `line` being the bytes up to the
      cursor: an `IOException` for a short read, null when the requests ran out, and otherwise the first row of
      the line. */
  function HeaderOfRun(halt: LegacyStream.Halt, line: seq<byte>, fd: char, sd: Option<char>)
    : (r: Result<Option<seq<string>>>)
    ensures halt.Short? ==> r == Err(IOFailure)
    ensures halt.Spent? ==> r == Ok(None)
  {
    match halt
    case Short => Err(IOFailure)
    case Spent => Ok(None)
    case Stop => HeaderOf(DecodeBytes(line), fd, sd)
  }

  /** What the legacy `ParseHeaderFromStream`'s fill loop gives for a fresh buffer of `size` bytes: "No CSV data"
      for an empty buffer, and otherwise what the fill from the start of the buffer ends with. `rest` tells whether
      each request is capped by what is left of the stream (`true`) or, as written, by its whole length. */
  function HeaderFill(data: seq<byte>, pos: nat, maxRead: nat, size: nat, chunk: int, fd: char, sd: Option<char>,
                      rest: bool): (r: Result<Option<seq<string>>>)
    requires pos <= |data|
    ensures size == 0 ==> r == Err(InvalidData("No CSV data"))
  {
    if size < 1 then Err(InvalidData("No CSV data"))
    else
      var f := LegacyStream.FillRun(size, 0, data, pos, maxRead, chunk, [NL], rest);
      HeaderOfRun(f.halt, data[pos..pos + f.index], fd, sd)
  }

  /** The legacy `ParseHeaderFromStream` as written: every request is capped by the base stream's whole length. */
  method LegacyParseHeaderFromStream(s: ByteStream, fd: char, sd: Option<char>, leaveOpen: bool, bufferSize: nat,
                                     chunkSize: int)
    returns (r: Result<Option<seq<string>>>)
    requires s.Valid()
    modifies s`position, s`closed
    ensures s.closed == (old(s.closed) || !leaveOpen)
    ensures r == HeaderFill(s.data, old(s.position), s.maxRead, bufferSize, chunkSize, fd, sd, false)
  {
    r := HeaderFromStream(s, fd, sd, leaveOpen, bufferSize, chunkSize, false);
  }

  /** The same loop with each request capped by what is left of the stream, as the current tree's `ReadUntil`
      has it. */
  method CappedParseHeaderFromStream(s: ByteStream, fd: char, sd: Option<char>, leaveOpen: bool, bufferSize: nat,
                                     chunkSize: int)
    returns (r: Result<Option<seq<string>>>)
    requires s.Valid()
    modifies s`position, s`closed
    ensures s.closed == (old(s.closed) || !leaveOpen)
    ensures r == HeaderFill(s.data, old(s.position), s.maxRead, bufferSize, chunkSize, fd, sd, true)
  {
    r := HeaderFromStream(s, fd, sd, leaveOpen, bufferSize, chunkSize, true);
  }

  /** The bytes before the cursor of a fill from the start of the buffer are the first bytes read. */
  lemma FilledFront(b: seq<byte>, b0: seq<byte>, d: seq<byte>, p0: nat, p: nat, index: nat, end: nat)
    requires p0 <= p <= |d| && index <= end <= |b0| && end == p - p0
    requires b == b0[..0] + d[p0..p] + b0[end..]
    ensures b[..index] == d[p0..p0 + index]
  {
    assert b[..end] == d[p0..p];
  }

  /** `found ? ParseHeaderFromString(GetString(buffer, 0, index), fd, sd) : null` after the loop. */
  method HeaderOfLoop(halt: LegacyStream.Halt, line: seq<byte>, fd: char, sd: Option<char>)
    returns (r: Result<Option<seq<string>>>)
    ensures r == HeaderOfRun(halt, line, fd, sd)
  {
    if halt == LegacyStream.Short {
      r := Err(IOFailure);
    } else if halt == LegacyStream.Spent {
      r := Ok(None);
    } else {
      r := CsvParser.ParseHeaderFromString(DecodeBytes(line), fd, sd);
    }
  }

  /** The loop shared by the two, and the `using` that closes the stream unless `leaveOpen`. */
  method HeaderFromStream(s: ByteStream, fd: char, sd: Option<char>, leaveOpen: bool, bufferSize: nat, chunkSize: int,
                          rest: bool)
    returns (r: Result<Option<seq<string>>>)
    requires s.Valid()
    modifies s`position, s`closed
    ensures s.closed == (old(s.closed) || !leaveOpen)
    ensures r == HeaderFill(s.data, old(s.position), s.maxRead, bufferSize, chunkSize, fd, sd, rest)
  {
    r := HeaderRead(s, fd, sd, bufferSize, chunkSize, rest);
    if !leaveOpen {
      s.Close();
    }
  }

  /** A fresh buffer, the fill from index 0 with the newline as the stop byte, and the row of
      `GetString(buffer, 0, index)`. */
  method HeaderRead(s: ByteStream, fd: char, sd: Option<char>, bufferSize: nat, chunkSize: int, rest: bool)
    returns (r: Result<Option<seq<string>>>)
    requires s.Valid()
    modifies s`position
    ensures r == HeaderFill(s.data, old(s.position), s.maxRead, bufferSize, chunkSize, fd, sd, rest)
  {
    if bufferSize < 1 {
      return Err(InvalidData("No CSV data"));
    }
    var buffer := new byte[bufferSize];
    ghost var b0, d, p0 := buffer[..], s.data, s.position;
    var halt, index, end := LegacyStream.FillLoop(buffer, 0, s, chunkSize, [NL], rest);
    FilledFront(buffer[..], b0, d, p0, s.position, index, end);
    r := HeaderOfLoop(halt, buffer[..index], fd, sd);
  }

  /** As written, a header line whose newline arrives in a short last chunk is refused: "abcd\n" with a buffer of 8
      bytes and chunks of 4 asks for 4 more bytes after the first 4, gets the 1 that is left, and throws an
      `IOException`. */
  lemma HeaderFillRefusesLastChunk(fd: char, sd: Option<char>, maxRead: nat)
    requires maxRead >= 4
    ensures var data: seq<byte> := [97, 98, 99, 100, 10];
            HeaderFill(data, 0, maxRead, 8, 4, fd, sd, false) == Err(IOFailure)
  {
    var data: seq<byte> := [97, 98, 99, 100, 10];
    assert LegacyStream.StopIn(data, 0, 4, [NL]) == None by {
      assert LegacyStream.StopIn(data, 3, 4, [NL]) == None;
      assert LegacyStream.StopIn(data, 2, 4, [NL]) == None;
      assert LegacyStream.StopIn(data, 1, 4, [NL]) == None;
    }
    LegacyStream.RunOn(8, 0, data, 0, maxRead, 4, [NL], false, 4);
    LegacyStream.RunShort(8, 4, data, 4, maxRead, 4, [NL], false, 4, 1);
  }

  /** With the cap on what is left, the same stream gives its header row. */
  lemma CappedHeaderFillReadsLastChunk(fd: char, sd: Option<char>, maxRead: nat)
    requires maxRead >= 4
    ensures var data: seq<byte> := [97, 98, 99, 100, 10];
            HeaderFill(data, 0, maxRead, 8, 4, fd, sd, true) == HeaderOf(DecodeBytes(data), fd, sd)
  {
    var data: seq<byte> := [97, 98, 99, 100, 10];
    assert LegacyStream.StopIn(data, 0, 4, [NL]) == None by {
      assert LegacyStream.StopIn(data, 3, 4, [NL]) == None;
      assert LegacyStream.StopIn(data, 2, 4, [NL]) == None;
      assert LegacyStream.StopIn(data, 1, 4, [NL]) == None;
    }
    LegacyStream.RunOn(8, 0, data, 0, maxRead, 4, [NL], true, 4);
    assert LegacyStream.StopIn(data, 4, 5, [NL]) == Some(4);
    LegacyStream.RunStopped(8, 4, data, 4, maxRead, 4, [NL], true, 1, 4);
    assert data[0..5] == data;
  }

  /** With the cap on what is left and reads that deliver a whole chunk, the loop never throws an `IOException`:
      it finds a newline, or runs out of requests and returns null. */
  lemma CappedHeaderFillNeverShort(data: seq<byte>, pos: nat, maxRead: nat, size: nat, chunk: int, fd: char,
                                   sd: Option<char>)
    requires pos <= |data| && maxRead >= chunk
    ensures HeaderFill(data, pos, maxRead, size, chunk, fd, sd, true) != Err(IOFailure)
  {
    if size >= 1 {
      LegacyStream.CappedNeverShort(size, 0, data, pos, maxRead, chunk, [NL]);
    }
  }
}
