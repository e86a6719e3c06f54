/**
 * `CsvStream` of the legacy source tree. Its reader keeps one cursor, `BufferIndex`, into the read buffer. Every read
 * operation first moves the buffer's tail `ReadBuffer[BufferIndex..]` to the front and sets the cursor to 0, then
 * fills the buffer chunk by chunk from the cursor, scanning every chunk for a stop byte; each request is capped by
 * the room left, the chunk size and the base stream's whole length. A read that delivers fewer bytes than requested
 * is an `IOException`. Once a stop byte is found, the bytes handed to `ParseHeaderFromString` are
 * `GetString(ReadBuffer, BufferIndex, len)`: they start one past the stop byte.
 * The legacy `ParseHeaderFromString` has the same text as the current one, so the line parse is the current
 * reader's (`Stream.LineRow`, `Stream.HeaderOf`), shared rather than written twice.
 *
 * The fill loop is the function `FillFrom`; every read operation is stated by what it makes of the fill: the value
 * it returns or the exception it throws, and the buffer, cursor and base position it leaves.
 */
module LegacyStream {
  import opened Wrappers
  import opened Text
  import opened Tokenizer
  import opened Base
  import opened Dictionaries
  import Stream
  import CsvParser

  /* ------------------------------------------------------------------------------------------------------------ */
  /* The fill loop                                                                                                 */

  /** Why a fill loop stopped: a stop byte was found, a request fell below one byte, or a read delivered fewer
      bytes than requested. */
  datatype Halt = Stop | Spent | Short

  /** Where a fill loop stops: the cursor (one past the stop byte when one was found), the end of the bytes filled
      in (the source's `len = index + red`) and the base stream's position. */
  datatype Run = Run(halt: Halt, index: nat, end: nat, position: nat)

  /** The same, with the buffer the loop leaves. */
  datatype Fill = Fill(halt: Halt, buffer: seq<byte>, index: nat, end: nat, position: nat)

  /** The size of one request: no more than the room left, a chunk, and the stream's whole length (as the source
      has it) or, with `rest`, what is left of the stream. */
  function Request(room: nat, chunk: int, length: nat, pos: nat, rest: bool): int
  {
    Min(Min(room, chunk), if rest then length - pos else length)
  }

  /** `Array.Copy(ReadBuffer, i, ReadBuffer, 0, ReadBuffer.Length - i)`: the tail from `i` on moves to the front, and
      the last `i` bytes stay as they were. */
  function Shifted(buf: seq<byte>, i: nat): (b: seq<byte>)
    requires i <= |buf|
    ensures |b| == |buf|
    ensures forall k :: 0 <= k < |buf| - i ==> b[k] == buf[i + k]
    ensures forall k :: |buf| - i <= k < |buf| ==> b[k] == buf[k]
  {
    if i == 0 then buf else buf[i..] + buf[|buf| - i..]
  }

  /** The first stop byte of `u` from `from` up to `to`, if there is one. */
  function StopIn(u: seq<byte>, from: nat, to: nat, stops: seq<byte>): (r: Option<nat>)
    requires from <= to <= |u|
    ensures r.Some? ==> from <= r.value < to && u[r.value] in stops
    ensures r.Some? ==> (forall k :: from <= k < r.value ==> u[k] !in stops)
    ensures r.None? ==> (forall k :: from <= k < to ==> u[k] !in stops)
    decreases |u| - from
  {
    if from == to then None else if u[from] in stops then Some(from) else StopIn(u, from + 1, to, stops)
  }

  /** The fill loop from cursor `i` in a buffer of `size` bytes: request, read at the cursor, throw on a short read,
      scan the bytes just read for a stop byte, and go on with the next request when there is none. The bytes read
      are the stream's own, so the scan is stated on them. One round is `RunRound`. */
  function FillRun(size: nat, i: nat, data: seq<byte>, pos: nat, maxRead: nat, chunk: int, stops: seq<byte>,
                   rest: bool): (r: Run)
    requires i <= size && pos <= |data|
    ensures i <= r.index <= r.end <= size && pos <= r.position <= |data| && r.end - i == r.position - pos
    ensures r.halt.Stop? ==> i < r.index && pos < r.position
    decreases size - i, 1
  {
    RunRound(size, i, data, pos, maxRead, chunk, stops, rest)
  }

  /** One round of the fill loop, then the rounds after it. */
  function RunRound(size: nat, i: nat, data: seq<byte>, pos: nat, maxRead: nat, chunk: int, stops: seq<byte>,
                    rest: bool): (r: Run)
    requires i <= size && pos <= |data|
    ensures i <= r.index <= r.end <= size && pos <= r.position <= |data| && r.end - i == r.position - pos
    ensures r.halt.Stop? ==> i < r.index && pos < r.position
    decreases size - i, 0
  {
    var len := Request(size - i, chunk, |data|, pos, rest);
    if len < 1 then Run(Spent, i, i, pos)
    else
      var red := Min(Min(len, maxRead), |data| - pos);
      if red != len then Run(Short, i, i + red, pos + red)
      else
        match StopIn(data, pos, pos + red, stops)
        case Some(k) => Run(Stop, i + (k - pos) + 1, i + red, pos + red)
        case None => FillRun(size, i + red, data, pos + red, maxRead, chunk, stops, rest)
  }

  /** The fill loop on the buffer `buf`: the bytes before the cursor stay, the bytes read from the stream follow, and
      the bytes after the last read stay as they were. */
  function FillFrom(buf: seq<byte>, i: nat, data: seq<byte>, pos: nat, maxRead: nat, chunk: int, stops: seq<byte>,
                    rest: bool): (f: Fill)
    requires i <= |buf| && pos <= |data|
    ensures |f.buffer| == |buf| && i <= f.index <= f.end <= |buf| && pos <= f.position <= |data|
    ensures f.halt.Stop? ==> i < f.index && pos < f.position
  {
    var r := FillRun(|buf|, i, data, pos, maxRead, chunk, stops, rest);
    Fill(r.halt, buf[..i] + data[pos..r.position] + buf[r.end..], r.index, r.end, r.position)
  }

  /** A round whose request is below one byte ends the fill at its cursor. */
  lemma RunSpent(size: nat, i: nat, data: seq<byte>, pos: nat, maxRead: nat, chunk: int, stops: seq<byte>, rest: bool)
    requires i <= size && pos <= |data|
    requires Request(size - i, chunk, |data|, pos, rest) < 1
    ensures FillRun(size, i, data, pos, maxRead, chunk, stops, rest) == Run(Spent, i, i, pos)
  {
    assert RunRound(size, i, data, pos, maxRead, chunk, stops, rest) == Run(Spent, i, i, pos);
  }

  /** A round whose read delivers `n` bytes, fewer than the `len` it requests, ends the fill after them. */
  lemma RunShort(size: nat, i: nat, data: seq<byte>, pos: nat, maxRead: nat, chunk: int, stops: seq<byte>,
                 rest: bool, len: int, n: nat)
    requires i <= size && pos <= |data|
    requires len == Request(size - i, chunk, |data|, pos, rest) && 1 <= len
    requires n == Min(Min(len, maxRead), |data| - pos) && n != len
    ensures FillRun(size, i, data, pos, maxRead, chunk, stops, rest) == Run(Short, i, i + n, pos + n)
  {
    assert RunRound(size, i, data, pos, maxRead, chunk, stops, rest) == Run(Short, i, i + n, pos + n);
  }

  /** A round that reads all `n` bytes it requests and finds a stop byte at `k` ends the fill there. */
  lemma RunStopped(size: nat, i: nat, data: seq<byte>, pos: nat, maxRead: nat, chunk: int, stops: seq<byte>,
                   rest: bool, n: nat, k: nat)
    requires i <= size && pos + n <= |data| && 1 <= n <= maxRead
    requires n == Request(size - i, chunk, |data|, pos, rest)
    requires StopIn(data, pos, pos + n, stops) == Some(k)
    ensures FillRun(size, i, data, pos, maxRead, chunk, stops, rest) == Run(Stop, i + (k - pos) + 1, i + n, pos + n)
  {
    assert RunRound(size, i, data, pos, maxRead, chunk, stops, rest) == Run(Stop, i + (k - pos) + 1, i + n, pos + n);
  }

  /** A round that reads all `n` bytes it requests and finds no stop byte in them hands over to the round at the
      cursor `n` bytes on. */
  lemma RunOn(size: nat, i: nat, data: seq<byte>, pos: nat, maxRead: nat, chunk: int, stops: seq<byte>, rest: bool,
              n: nat)
    requires i <= size && pos + n <= |data| && 1 <= n <= maxRead
    requires n == Request(size - i, chunk, |data|, pos, rest)
    requires StopIn(data, pos, pos + n, stops).None?
    ensures FillRun(size, i, data, pos, maxRead, chunk, stops, rest) ==
            FillRun(size, i + n, data, pos + n, maxRead, chunk, stops, rest)
  {
    assert RunRound(size, i, data, pos, maxRead, chunk, stops, rest) ==
           FillRun(size, i + n, data, pos + n, maxRead, chunk, stops, rest);
  }

  /** The scan of a fill: the stream's bytes it passed over hold no stop byte, and when it found one, that is the
      byte just before the cursor. */
  ghost predicate Scanned(size: nat, i: nat, data: seq<byte>, pos: nat, maxRead: nat, chunk: int, stops: seq<byte>,
                          rest: bool)
    requires i <= size && pos <= |data|
  {
    var r := FillRun(size, i, data, pos, maxRead, chunk, stops, rest);
    var last := if r.halt.Stop? then r.index - 1 else r.index;
    && (r.halt.Stop? ==> data[pos + (r.index - 1 - i)] in stops)
    && (forall k :: pos <= k < pos + (last - i) ==> data[k] !in stops)
  }

  /** A round that reads `n` bytes without a stop byte keeps the scan's property of the rounds after it. */
  lemma ScanOn(size: nat, i: nat, data: seq<byte>, pos: nat, maxRead: nat, chunk: int, stops: seq<byte>, rest: bool,
               n: nat)
    requires i <= size && pos + n <= |data| && 1 <= n <= maxRead
    requires n == Request(size - i, chunk, |data|, pos, rest)
    requires StopIn(data, pos, pos + n, stops).None?
    requires Scanned(size, i + n, data, pos + n, maxRead, chunk, stops, rest)
    ensures Scanned(size, i, data, pos, maxRead, chunk, stops, rest)
  {
    RunOn(size, i, data, pos, maxRead, chunk, stops, rest, n);
    var r := FillRun(size, i + n, data, pos + n, maxRead, chunk, stops, rest);
    if r.halt.Stop? {
      assert pos + n + (r.index - 1 - (i + n)) == pos + (r.index - 1 - i);
    }
  }

  lemma {:induction false} RunScan(size: nat, i: nat, data: seq<byte>, pos: nat, maxRead: nat, chunk: int,
                                   stops: seq<byte>, rest: bool)
    requires i <= size && pos <= |data|
    ensures Scanned(size, i, data, pos, maxRead, chunk, stops, rest)
    decreases size - i
  {
    var len := Request(size - i, chunk, |data|, pos, rest);
    if len < 1 {
      RunSpent(size, i, data, pos, maxRead, chunk, stops, rest);
    } else {
      var red := Min(Min(len, maxRead), |data| - pos);
      if red != len {
        RunShort(size, i, data, pos, maxRead, chunk, stops, rest, len, red);
      } else if StopIn(data, pos, pos + red, stops).Some? {
        RunStopped(size, i, data, pos, maxRead, chunk, stops, rest, red, StopIn(data, pos, pos + red, stops).value);
      } else {
        RunScan(size, i + red, data, pos + red, maxRead, chunk, stops, rest);
        ScanOn(size, i, data, pos, maxRead, chunk, stops, rest, red);
      }
    }
  }

  /** The same on the buffer: the byte before the cursor of a fill that found a stop byte is one, and none of the
      bytes filled in before it is. */
  lemma FillScan(buf: seq<byte>, i: nat, data: seq<byte>, pos: nat, maxRead: nat, chunk: int, stops: seq<byte>,
                 rest: bool)
    requires i <= |buf| && pos <= |data|
    ensures var f := FillFrom(buf, i, data, pos, maxRead, chunk, stops, rest);
            var last := if f.halt.Stop? then f.index - 1 else f.index;
            && (f.halt.Stop? ==> f.buffer[f.index - 1] in stops)
            && (forall k :: i <= k < last ==> f.buffer[k] !in stops)
  {
    RunScan(|buf|, i, data, pos, maxRead, chunk, stops, rest);
    var r := FillRun(|buf|, i, data, pos, maxRead, chunk, stops, rest);
    var f := FillFrom(buf, i, data, pos, maxRead, chunk, stops, rest);
    assert forall k :: i <= k < r.end ==> f.buffer[k] == data[pos + (k - i)];
  }

  /** Why a fill stops without a stop byte: a request below one byte at its cursor, or a short read that ran into
      the end of the stream or into the most one read delivers. */
  ghost predicate Halted(size: nat, i: nat, data: seq<byte>, pos: nat, maxRead: nat, chunk: int, stops: seq<byte>,
                         rest: bool)
    requires i <= size && pos <= |data|
  {
    var r := FillRun(size, i, data, pos, maxRead, chunk, stops, rest);
    && (r.halt.Spent? ==> r.index == r.end && Request(size - r.index, chunk, |data|, r.position, rest) < 1)
    && (r.halt.Short? ==> r.end - r.index < chunk && (r.position == |data| || r.end - r.index == maxRead))
  }

  /** A round that reads `n` bytes without a stop byte ends as the rounds after it do. */
  lemma HaltsOn(size: nat, i: nat, data: seq<byte>, pos: nat, maxRead: nat, chunk: int, stops: seq<byte>, rest: bool,
                n: nat)
    requires i <= size && pos + n <= |data| && 1 <= n <= maxRead
    requires n == Request(size - i, chunk, |data|, pos, rest)
    requires StopIn(data, pos, pos + n, stops).None?
    requires Halted(size, i + n, data, pos + n, maxRead, chunk, stops, rest)
    ensures Halted(size, i, data, pos, maxRead, chunk, stops, rest)
  {
    RunOn(size, i, data, pos, maxRead, chunk, stops, rest, n);
  }

  lemma {:induction false} RunHalts(size: nat, i: nat, data: seq<byte>, pos: nat, maxRead: nat, chunk: int,
                                    stops: seq<byte>, rest: bool)
    requires i <= size && pos <= |data|
    ensures Halted(size, i, data, pos, maxRead, chunk, stops, rest)
    decreases size - i
  {
    var len := Request(size - i, chunk, |data|, pos, rest);
    if len < 1 {
      RunSpent(size, i, data, pos, maxRead, chunk, stops, rest);
    } else {
      var red := Min(Min(len, maxRead), |data| - pos);
      if red != len {
        RunShort(size, i, data, pos, maxRead, chunk, stops, rest, len, red);
      } else if StopIn(data, pos, pos + red, stops).Some? {
        RunStopped(size, i, data, pos, maxRead, chunk, stops, rest, red, StopIn(data, pos, pos + red, stops).value);
      } else {
        RunHalts(size, i + red, data, pos + red, maxRead, chunk, stops, rest);
        HaltsOn(size, i, data, pos, maxRead, chunk, stops, rest, red);
      }
    }
  }

  /** As the source has it, a request at the end of a non-empty stream still asks for bytes, so the read comes up
      short: at the end of the data the reader throws an `IOException` rather than reporting the end. */
  lemma ShortAtEnd(size: nat, i: nat, data: seq<byte>, maxRead: nat, chunk: int, stops: seq<byte>)
    requires i < size && |data| > 0 && chunk >= 1
    ensures FillRun(size, i, data, |data|, maxRead, chunk, stops, false).halt == Short
  {
    var len := Request(size - i, chunk, |data|, |data|, false);
    RunShort(size, i, data, |data|, maxRead, chunk, stops, false, len, 0);
  }

  /** With every request capped by what is left of the stream, and reads that deliver a whole chunk, no read comes
      up short. */
  lemma {:induction false} CappedNeverShort(size: nat, i: nat, data: seq<byte>, pos: nat, maxRead: nat, chunk: int,
                                            stops: seq<byte>)
    requires i <= size && pos <= |data| && maxRead >= chunk
    ensures FillRun(size, i, data, pos, maxRead, chunk, stops, true).halt != Short
    decreases size - i
  {
    var len := Request(size - i, chunk, |data|, pos, true);
    if len < 1 {
      RunSpent(size, i, data, pos, maxRead, chunk, stops, true);
    } else {
      var red := Min(Min(len, maxRead), |data| - pos);
      assert red == len;
      if StopIn(data, pos, pos + red, stops).Some? {
        RunStopped(size, i, data, pos, maxRead, chunk, stops, true, red, StopIn(data, pos, pos + red, stops).value);
      } else {
        RunOn(size, i, data, pos, maxRead, chunk, stops, true, red);
        CappedNeverShort(size, i + red, data, pos + red, maxRead, chunk, stops);
      }
    }
  }

  /** The stop bytes of `PeekField`: the field delimiter, which a byte matches when it is the same code, and the
      newline. */
  function PeekStops(fd: char): (stops: seq<byte>)
    ensures forall b: byte :: b in stops <==> (b as int == fd as int || b == Stream.NL)
  {
    if fd as int < 256 then [fd as int as byte, Stream.NL] else [Stream.NL]
  }

  /** The bytes `GetString(ReadBuffer, BufferIndex, len)` decodes after a fill that found a stop byte, or the
      `ArgumentOutOfRangeException` of a range that runs past the buffer. */
  function Decoded(f: Fill): (r: Result<seq<byte>>)
    ensures r.Ok? <==> f.index + f.end <= |f.buffer|
    ensures r.Ok? ==> r.value == f.buffer[f.index..f.index + f.end]
  {
    if f.index + f.end > |f.buffer| then Err(ArgumentOutOfRange) else Ok(f.buffer[f.index..f.index + f.end])
  }

  /** As written, the range decoded after a stop byte starts behind it: reading `a,b` LF `c,d` LF into an empty
      buffer of 16 bytes in one chunk of 8 stops at the first newline and decodes the second line followed by four
      zero bytes, so `ReadRow` parses `c,d` where the line read is `a,b`. */
  lemma DecodesBehindStop(maxRead: nat)
    requires maxRead >= 8
    ensures var data: seq<byte> := [97, 44, 98, 10, 99, 44, 100, 10];
            var f := NextFill(seq(16, k => 0), 0, data, 0, maxRead, 8, [Stream.NL]);
            && f.halt == Stop && f.index == 4 && f.position == 8
            && Decoded(f) == Ok([99, 44, 100, 10, 0, 0, 0, 0])
            && RowOfFill(f, ',', None, 0, false) == Stream.LineRow([99, 44, 100, 10, 0, 0, 0, 0], ',', None, 0, false)
  {
    var data: seq<byte> := [97, 44, 98, 10, 99, 44, 100, 10];
    var zeros: seq<byte> := seq(16, k => 0);
    assert StopIn(data, 0, 8, [Stream.NL]) == Some(3) by {
      assert StopIn(data, 3, 8, [Stream.NL]) == Some(3);
      assert StopIn(data, 2, 8, [Stream.NL]) == Some(3);
      assert StopIn(data, 1, 8, [Stream.NL]) == Some(3);
    }
    RunStopped(16, 0, data, 0, maxRead, 8, [Stream.NL], false, 8, 3);
    assert Shifted(zeros, 0) == zeros;
    assert zeros[..0] + data[0..8] + zeros[8..] == data + [0, 0, 0, 0, 0, 0, 0, 0] by {
      assert zeros[..0] == [] && data[0..8] == data && zeros[8..] == [0, 0, 0, 0, 0, 0, 0, 0];
    }
    assert (data + [0, 0, 0, 0, 0, 0, 0, 0])[4..12] == [99, 44, 100, 10, 0, 0, 0, 0];
  }

  /** What `ReadRow` returns after its fill: null when the requests ran out, an `IOException` for a short read, and
      otherwise what the shared line parse (`Stream.LineRow`) makes of a line, applied to the decoded range. */
  function RowOfFill(f: Fill, fd: char, sd: Option<char>, cc: int, ignore: bool): (r: Result<Option<seq<string>>>)
    ensures r.Ok? && r.value.Some? ==> f.halt.Stop?
  {
    match f.halt
    case Spent => Ok(None)
    case Short => Err(IOFailure)
    case Stop =>
      match Decoded(f)
      case Err(e) => Err(e)
      case Ok(line) => Stream.LineRow(line, fd, sd, cc, ignore)
  }

  /** What `ReadHeader` returns after its fill: when the requests ran out, "Header too long" for a full buffer and
      "No header" otherwise; a null row fails in `ToArray`. */
  function HeaderOfFill(f: Fill, fd: char, sd: Option<char>): (r: Result<seq<string>>)
    ensures r.Ok? ==> f.halt.Stop? && Decoded(f).Ok? && Stream.HeaderLine(Decoded(f).value, fd, sd) == r
  {
    match f.halt
    case Spent => Err(InvalidData(if f.index == |f.buffer| then "Header too long" else "No header"))
    case Short => Err(IOFailure)
    case Stop =>
      match Decoded(f)
      case Err(e) => Err(e)
      case Ok(line) => Stream.HeaderLine(line, fd, sd)
  }

  /** What `PeekField` returns after its fill: the byte after the stop byte decides; when it is the field delimiter,
      the first field of the row in the decoded range, and null otherwise. Past the buffer's end that byte is an
      `IndexOutOfRangeException`. */
  function PeekOfFill(f: Fill, fd: char, sd: Option<char>): (r: Result<Option<string>>)
    ensures r.Ok? && r.value.Some? ==> f.halt.Stop? && f.index < |f.buffer| && f.buffer[f.index] as int == fd as int
  {
    match f.halt
    case Spent => Ok(None)
    case Short => Err(IOFailure)
    case Stop =>
      if f.index >= |f.buffer| then Err(IndexOutOfRange)
      else if f.buffer[f.index] as int != fd as int then Ok(None)
      else
        match Decoded(f)
        case Err(e) => Err(e)
        case Ok(part) => Stream.FirstField(part, fd, sd)
  }

  /** The read that follows a state: shift, then fill from the front. */
  function NextFill(buf: seq<byte>, i: nat, data: seq<byte>, pos: nat, maxRead: nat, chunk: int, stops: seq<byte>)
    : (f: Fill)
    requires i <= |buf| && pos <= |data|
    ensures |f.buffer| == |buf| && f.index <= f.end <= |buf| && pos <= f.position <= |data|
    ensures f.halt.Stop? ==> pos < f.position
  {
    FillFrom(Shifted(buf, i), 0, data, pos, maxRead, chunk, stops, false)
  }

  /** The rows `Rows` yields from a state, the exception that ends them, if any, and the state it leaves. */
  datatype Drained = Drained(rows: seq<seq<string>>, error: Option<Error>, buffer: seq<byte>, index: nat, position: nat)

  function RowsAfter(buf: seq<byte>, i: nat, data: seq<byte>, pos: nat, maxRead: nat, chunk: int, fd: char,
                     sd: Option<char>, cc: int, ignore: bool): (d: Drained)
    requires i <= |buf| && pos <= |data|
    ensures |d.buffer| == |buf| && d.index <= |buf| && pos <= d.position <= |data|
    decreases |data| - pos, 1
  {
    RowsOfFill(NextFill(buf, i, data, pos, maxRead, chunk, [Stream.NL]), |buf|, pos, data, maxRead, chunk, fd, sd, cc,
               ignore)
  }

  /** The same once the next read has filled the buffer as `f` says: its row, then the rows after it. */
  function RowsOfFill(f: Fill, size: nat, pos: nat, data: seq<byte>, maxRead: nat, chunk: int, fd: char,
                      sd: Option<char>, cc: int, ignore: bool): (d: Drained)
    requires |f.buffer| == size && f.index <= size && pos <= f.position <= |data|
    requires f.halt.Stop? ==> pos < f.position
    ensures |d.buffer| == size && d.index <= size && pos <= d.position <= |data|
    decreases |data| - pos, 0
  {
    var r := RowOfFill(f, fd, sd, cc, ignore);
    if r.Ok? && r.value.Some? then
      var d := RowsAfter(f.buffer, f.index, data, f.position, maxRead, chunk, fd, sd, cc, ignore);
      Drained([r.value.value] + d.rows, d.error, d.buffer, d.index, d.position)
    else Drained([], if r.Err? then Some(r.error) else None, f.buffer, f.index, f.position)
  }

  /** The rows yielded so far, then those still to come. */
  function Prefixed(rows: seq<seq<string>>, d: Drained): Drained
  {
    Drained(rows + d.rows, d.error, d.buffer, d.index, d.position)
  }

  /** The dictionaries `AsDictionaries` yields from a state, the exception that ends them, if any, and the state it
      leaves. */
  datatype DictsDrained = DictsDrained(dicts: seq<map<string, string>>, error: Option<Error>, buffer: seq<byte>,
                                       index: nat, position: nat)

  function DictsAfter(buf: seq<byte>, i: nat, data: seq<byte>, pos: nat, maxRead: nat, chunk: int,
                      header: Option<seq<string>>, fd: char, sd: Option<char>, cc: nat, ignore: bool): (d: DictsDrained)
    requires i <= |buf| && pos <= |data|
    ensures |d.buffer| == |buf| && d.index <= |buf| && pos <= d.position <= |data|
    decreases |data| - pos, 1
  {
    DictsOfFill(NextFill(buf, i, data, pos, maxRead, chunk, [Stream.NL]), |buf|, pos, data, maxRead, chunk, header,
                fd, sd, cc, ignore)
  }

  function DictsOfFill(f: Fill, size: nat, pos: nat, data: seq<byte>, maxRead: nat, chunk: int,
                       header: Option<seq<string>>, fd: char, sd: Option<char>, cc: nat, ignore: bool): (d: DictsDrained)
    requires |f.buffer| == size && f.index <= size && pos <= f.position <= |data|
    requires f.halt.Stop? ==> pos < f.position
    ensures |d.buffer| == size && d.index <= size && pos <= d.position <= |data|
    decreases |data| - pos, 0
  {
    var r := Stream.DictionaryOf(RowOfFill(f, fd, sd, cc, ignore), header, cc);
    if r.Ok? && r.value.Some? then
      var d := DictsAfter(f.buffer, f.index, data, f.position, maxRead, chunk, header, fd, sd, cc, ignore);
      DictsDrained([r.value.value] + d.dicts, d.error, d.buffer, d.index, d.position)
    else DictsDrained([], if r.Err? then Some(r.error) else None, f.buffer, f.index, f.position)
  }

  function DictsPrefixed(dicts: seq<map<string, string>>, d: DictsDrained): DictsDrained
  {
    DictsDrained(dicts + d.dicts, d.error, d.buffer, d.index, d.position)
  }

  /** The tail of `ReadRow`: the decoded line goes through the shared line parse; a null row is refused when a column
      count is known and errors are not ignored, and so is a row of another width. */
  method ParseRow(line: seq<byte>, fd: char, sd: Option<char>, cc: int, ignore: bool)
    returns (r: Result<Option<seq<string>>>)
    ensures r == Stream.LineRow(line, fd, sd, cc, ignore)
  {
    var res := CsvParser.ParseHeaderFromString(DecodeBytes(line), fd, sd);
    if res.Err? {
      return Err(res.error);
    }
    if res.value.None? {
      if !ignore && cc > 0 {
        return Err(NullReference);
      }
      return Ok(None);
    }
    if !ignore && cc > 0 && |res.value.value| != cc {
      return Err(InvalidData("Invalid field count"));
    }
    return Ok(res.value);
  }

  /** The tail of `ReadHeader`: the decoded line goes through the shared line parse; a null row fails in `ToArray`. */
  method ParseHeader(line: seq<byte>, fd: char, sd: Option<char>) returns (r: Result<seq<string>>)
    ensures r == Stream.HeaderLine(line, fd, sd)
  {
    var res := CsvParser.ParseHeaderFromString(DecodeBytes(line), fd, sd);
    if res.Err? {
      return Err(res.error);
    }
    if res.value.None? {
      return Err(ArgumentNull("source"));
    }
    return Ok(res.value.value);
  }

  /** The tail of `PeekField`: the first field of the row the shared line parse makes of the decoded bytes. */
  method ParseFirstField(part: seq<byte>, fd: char, sd: Option<char>) returns (r: Result<Option<string>>)
    ensures r == Stream.FirstField(part, fd, sd)
  {
    var res := CsvParser.ParseHeaderFromString(DecodeBytes(part), fd, sd);
    if res.Err? {
      return Err(res.error);
    }
    if res.value.None? {
      return Err(NullReference);
    }
    if |res.value.value| == 0 {
      return Err(IndexOutOfRange);
    }
    return Ok(Some(res.value.value[0]));
  }

  /* ------------------------------------------------------------------------------------------------------------ */
  /* The loops                                                                                                     */

  /** The scan `for (; !found && index < len; found = <stop byte at index>, index++)` over bytes that are the
      stream's from position `p` on. */
  method ScanStops(buf: array<byte>, from: nat, to: nat, stops: seq<byte>, ghost data: seq<byte>, ghost p: nat)
    returns (found: bool, index: nat)
    requires from <= to <= buf.Length && p + (to - from) <= |data|
    requires forall j :: from <= j < to ==> buf[j] == data[p + (j - from)]
    ensures var s := StopIn(data, p, p + (to - from), stops);
            found == s.Some? && index == if found then from + (s.value - p) + 1 else to
  {
    ghost var last := p + (to - from);
    found, index := false, from;
    while !found && index < to
      invariant from <= index <= to
      invariant !found ==> StopIn(data, p + (index - from), last, stops) == StopIn(data, p, last, stops)
      invariant found ==> from < index && StopIn(data, p, last, stops) == Some(p + (index - 1 - from))
    {
      found := buf[index] in stops;
      index := index + 1;
    }
  }

  /** A read of `n` bytes at `index` extends the bytes filled in from `start` on. */
  lemma Extended(b0: seq<byte>, b1: seq<byte>, b2: seq<byte>, start: nat, index: nat, next: nat, d: seq<byte>,
                 p0: nat, p1: nat, p2: nat)
    requires start <= index <= next <= |b0| == |b1| == |b2| && p0 <= p1 <= p2 <= |d|
    requires index - start == p1 - p0 && next - index == p2 - p1
    requires b1 == b0[..start] + d[p0..p1] + b0[index..]
    requires b2[..index] == b1[..index] && b2[index..next] == d[p1..p2] && b2[next..] == b1[next..]
    ensures b2 == b0[..start] + d[p0..p2] + b0[next..]
  {
    assert b1[..index] == b0[..start] + d[p0..p1];
    assert b1[next..] == b0[next..];
    assert d[p0..p2] == d[p0..p1] + d[p1..p2];
    assert b2 == b2[..index] + b2[index..next] + b2[next..];
  }

  /** One round of the fill loop as `FillRun` has it. A request `len` below one byte ends the fill at the cursor; a
      read of `n` bytes fewer than requested ends it after them; a stop byte in the bytes read ends it one past that
      byte; and otherwise the fill goes on at the cursor `n` bytes on. */
  lemma Round(size: nat, i: nat, data: seq<byte>, pos: nat, maxRead: nat, chunk: int, stops: seq<byte>, rest: bool,
              len: int, n: nat, done: bool, halt: Halt, at: nat, next: nat, after: nat)
    requires i <= size && pos <= |data| && next == i + n && after == pos + n
    requires len == Request(size - i, chunk, |data|, pos, rest)
    requires len < 1 ==> done && halt == Spent && at == i && n == 0
    requires len >= 1 ==> n == Min(Min(len, maxRead), |data| - pos)
    requires len >= 1 && n != len ==> done && halt == Short && at == i
    requires len >= 1 && n == len ==>
               var k := StopIn(data, pos, pos + n, stops);
               done == k.Some? && halt == Stop && at == if done then i + (k.value - pos) + 1 else i + n
    ensures done ==> FillRun(size, i, data, pos, maxRead, chunk, stops, rest) == Run(halt, at, next, after)
    ensures !done ==> 1 <= n && next <= size && after <= |data| &&
                      FillRun(size, i, data, pos, maxRead, chunk, stops, rest) ==
                      FillRun(size, next, data, after, maxRead, chunk, stops, rest)
  {
    if len < 1 {
      RunSpent(size, i, data, pos, maxRead, chunk, stops, rest);
    } else if n != len {
      RunShort(size, i, data, pos, maxRead, chunk, stops, rest, len, n);
    } else {
      assert i + n == next && pos + n == after;
      if done {
        RunStopped(size, i, data, pos, maxRead, chunk, stops, rest, n, StopIn(data, pos, pos + n, stops).value);
      } else {
        RunOn(size, i, data, pos, maxRead, chunk, stops, rest, n);
      }
    }
  }

  /** One round of the fill loop at cursor `index`: a request of `size` bytes, the read of `n` of them, and the scan
      of the bytes read. */
  method FillRound(buf: array<byte>, index: nat, s: ByteStream, chunk: int, stops: seq<byte>, rest: bool,
                   ghost data: seq<byte>, ghost maxRead: nat)
    returns (size: int, done: bool, halt: Halt, at: nat, n: nat)
    requires index <= buf.Length && s.Valid() && s.data == data && s.maxRead == maxRead
    modifies buf, s`position
    ensures s.Valid() && s.position == old(s.position) + n
    ensures size == Request(buf.Length - index, chunk, |data|, old(s.position), rest)
    ensures size < 1 ==> done && halt == Spent && at == index && n == 0
    ensures size >= 1 ==> n == Min(Min(size, maxRead), |data| - old(s.position))
    ensures size >= 1 && n != size ==> done && halt == Short && at == index
    ensures size >= 1 && n == size ==>
              var k := StopIn(data, old(s.position), old(s.position) + n, stops);
              done == k.Some? && halt == Stop && at == if done then index + (k.value - old(s.position)) + 1 else index + n
    ensures index + n <= buf.Length
    ensures buf[..index] == old(buf[..index]) && buf[index + n..] == old(buf[index + n..])
    ensures buf[index..index + n] == data[old(s.position)..s.position]
  {
    size := Min(Min(buf.Length - index, chunk), if rest then |s.data| - s.position else |s.data|);
    ghost var p1 := s.position;
    done, halt, at, n := true, Spent, index, 0;
    if size >= 1 {
      var got := s.Read(buf, index, size);
      n := got.value;
      halt := Short;
      if n == size {
        forall j | index <= j < index + n
          ensures buf[j] == data[p1 + (j - index)]
        {
          assert buf[j] == buf[index..index + n][j - index];
        }
        done, at := ScanStops(buf, index, index + n, stops, data, p1);
        halt := Stop;
      }
    }
  }

  /** One round of the fill loop of a fill that started at cursor `start` and position `p0` and is to end as
      `goal`: the bytes read so far stand between the bytes before `start` and those after the cursor. */
  method FillStep(buf: array<byte>, start: nat, index: nat, s: ByteStream, chunk: int, stops: seq<byte>, rest: bool,
                  ghost b0: seq<byte>, ghost p0: nat, ghost d: seq<byte>, ghost m: nat, ghost goal: Run)
    returns (done: bool, halt: Halt, at: nat, next: nat)
    requires start <= index <= buf.Length && s.Valid() && s.data == d && s.maxRead == m && p0 <= s.position
    requires index - start == s.position - p0 && |b0| == buf.Length
    requires buf[..] == b0[..start] + d[p0..s.position] + b0[index..]
    requires FillRun(buf.Length, index, d, s.position, m, chunk, stops, rest) == goal
    modifies buf, s`position
    ensures s.Valid() && index <= next <= buf.Length && next - index == s.position - old(s.position)
    ensures buf[..] == b0[..start] + d[p0..s.position] + b0[next..]
    ensures done ==> goal == Run(halt, at, next, s.position)
    ensures !done ==> index < next && FillRun(buf.Length, next, d, s.position, m, chunk, stops, rest) == goal
  {
    ghost var b1, p1 := buf[..], s.position;
    var size, n;
    size, done, halt, at, n := FillRound(buf, index, s, chunk, stops, rest, d, m);
    next := index + n;
    Round(buf.Length, index, d, p1, m, chunk, stops, rest, size, n, done, halt, at, next, s.position);
    Extended(b0, b1, buf[..], start, index, next, d, p0, p1, s.position);
  }

  /** The fill loop of every legacy read, from cursor `start`. */
  method FillLoop(buf: array<byte>, start: nat, s: ByteStream, chunk: int, stops: seq<byte>, rest: bool)
    returns (halt: Halt, index: nat, end: nat)
    requires start <= buf.Length && s.Valid()
    modifies buf, s`position
    ensures s.Valid() && start <= index <= end <= buf.Length && old(s.position) <= s.position
    ensures Run(halt, index, end, s.position) == FillRun(buf.Length, start, s.data, old(s.position), s.maxRead, chunk, stops, rest)
    ensures buf[..] == old(buf[..])[..start] + s.data[old(s.position)..s.position] + old(buf[..])[end..]
  {
    ghost var b0, p0, d, m := buf[..], s.position, s.data, s.maxRead;
    ghost var goal := FillRun(buf.Length, start, d, p0, m, chunk, stops, rest);
    index := start;
    assert b0 == b0[..start] + d[p0..p0] + b0[start..];
    while true
      invariant start <= index <= buf.Length && s.Valid() && p0 <= s.position
      invariant index - start == s.position - p0
      invariant buf[..] == b0[..start] + d[p0..s.position] + b0[index..]
      invariant FillRun(buf.Length, index, d, s.position, m, chunk, stops, rest) == goal
      decreases buf.Length - index
    {
      var done, h, at, next := FillStep(buf, start, index, s, chunk, stops, rest, b0, p0, d, m, goal);
      if done {
        return h, at, next;
      }
      index := next;
    }
  }

  /* ------------------------------------------------------------------------------------------------------------ */
  /* The stream                                                                                                    */

  class CsvStream {
    const base: ByteStream
    const readBuffer: array<byte>
    const chunkSize: nat
    const fieldDelimiter: char
    const stringDelimiter: Option<char>
    var bufferIndex: nat
    var header: Option<seq<string>>
    var columnCount: Option<int>
    var closed: bool
    var leaveOpen: bool

    ghost predicate Valid()
      reads this, base
    {
      && base.Valid()
      && bufferIndex <= readBuffer.Length
      && 4 <= chunkSize <= readBuffer.Length
      && (columnCount.Some? ==> columnCount.value >= 0)
    }

    /** What the next read with these stop bytes does. */
    ghost function Next(stops: seq<byte>): Fill
      reads this, base, readBuffer
      requires Valid()
    {
      NextFill(readBuffer[..], bufferIndex, base.data, base.position, base.maxRead, chunkSize, stops)
    }

    /** The reader state is the given buffer, cursor and base position. */
    ghost predicate Holds(buffer: seq<byte>, index: nat, position: nat)
      reads this, base, readBuffer
    {
      readBuffer[..] == buffer && bufferIndex == index && base.position == position
    }

    /** The `ColumnCount` getter. */
    function ColumnCount(): (n: int)
      reads this
      ensures n == if columnCount.Some? then columnCount.value else 0
    {
      if columnCount.Some? then columnCount.value else 0
    }

    constructor Init(base: ByteStream, fd: char, sd: Option<char>, bufferSize: nat, chunkSize: nat, leaveOpen: bool)
      requires base.Valid() && 4 <= chunkSize <= bufferSize
      ensures Valid() && this.base == base && readBuffer.Length == bufferSize && fresh(readBuffer)
      ensures this.chunkSize == chunkSize && fieldDelimiter == fd && stringDelimiter == sd && this.leaveOpen == leaveOpen
      ensures bufferIndex == 0 && header.None? && columnCount.None? && !closed
    {
      this.base := base;
      readBuffer := new byte[bufferSize];
      this.chunkSize := chunkSize;
      fieldDelimiter, stringDelimiter := fd, sd;
      bufferIndex := 0;
      header, columnCount := None, None;
      closed := false;
      this.leaveOpen := leaveOpen;
    }

    /** The constructors: a buffer size below the chunk size, or a chunk size below four, is refused; a header, when
        one is given, fixes the column count. */
    static method Open(base: ByteStream, header: Option<seq<string>>, fd: char, sd: Option<char>, bufferSize: int,
                       chunkSize: int, leaveOpen: bool) returns (r: Result<CsvStream>)
      requires base.Valid()
      ensures bufferSize < chunkSize ==> r == Err(Argument("Invalid buffer size"))
      ensures chunkSize <= bufferSize && chunkSize < 4 ==> r == Err(Argument("Invalid chunk size"))
      ensures 4 <= chunkSize <= bufferSize ==>
                && r.Ok? && fresh(r.value) && fresh(r.value.readBuffer) && r.value.Valid()
                && r.value.base == base && r.value.readBuffer.Length == bufferSize && r.value.chunkSize == chunkSize
                && r.value.fieldDelimiter == fd && r.value.stringDelimiter == sd && r.value.leaveOpen == leaveOpen
                && r.value.header == header
                && r.value.columnCount == (if header.Some? then Some(|header.value|) else None)
                && r.value.bufferIndex == 0 && !r.value.closed
    {
      if bufferSize < chunkSize {
        return Err(Argument("Invalid buffer size"));
      }
      if chunkSize < 4 {
        return Err(Argument("Invalid chunk size"));
      }
      var c := new CsvStream.Init(base, fd, sd, bufferSize, chunkSize, leaveOpen);
      c.header := header;
      c.columnCount := if header.Some? then Some(|header.value|) else None;
      return Ok(c);
    }

    /** The `ColumnCount` setter: only without a header; a count below one means no count. */
    method SetColumnCount(value: int) returns (o: Outcome)
      requires Valid()
      modifies this`columnCount
      ensures Valid()
      ensures old(header).Some? ==> o == Fail(InvalidOperation("Header set already")) && columnCount == old(columnCount)
      ensures old(header).None? ==> o == Pass && columnCount == (if value < 1 then None else Some(value))
    {
      if header.Some? {
        return Fail(InvalidOperation("Header set already"));
      }
      columnCount := if value < 1 then None else Some(value);
      return Pass;
    }

    /** `Close`: once only; the base stream is closed unless it is to be left open. */
    method Close()
      requires Valid()
      modifies this`closed, base`closed
      ensures Valid() && closed
      ensures base.closed == (old(base.closed) || (!old(closed) && !leaveOpen))
    {
      if closed {
        return;
      }
      closed := true;
      if !leaveOpen {
        base.Close();
      }
    }

    /** The shift every read starts with: the tail from the cursor moves to the front, and the cursor to 0. */
    method Shift()
      requires Valid()
      modifies readBuffer, this`bufferIndex
      ensures Valid() && bufferIndex == 0
      ensures readBuffer[..] == Shifted(old(readBuffer[..]), old(bufferIndex))
    {
      if bufferIndex == 0 {
        return;
      }
      var n := readBuffer.Length - bufferIndex;
      var k := 0;
      while k < n
        modifies readBuffer
        invariant 0 <= k <= n
        invariant forall j :: 0 <= j < k ==> readBuffer[j] == old(readBuffer[bufferIndex + j])
        invariant forall j :: k <= j < readBuffer.Length ==> readBuffer[j] == old(readBuffer[j])
      {
        readBuffer[k] := readBuffer[bufferIndex + k];
        k := k + 1;
      }
      ghost var want := Shifted(old(readBuffer[..]), bufferIndex);
      assert readBuffer[..] == want by {
        forall j | 0 <= j < readBuffer.Length ensures readBuffer[j] == want[j] {
          if j < n {
            assert readBuffer[j] == old(readBuffer[bufferIndex + j]);
          }
        }
      }
      bufferIndex := 0;
    }

    /** The shift and the fill loop of a read with these stop bytes; `f` is what `Next` said of it. */
    method Refill(stops: seq<byte>) returns (halt: Halt, end: nat, ghost f: Fill)
      requires Valid()
      modifies readBuffer, this`bufferIndex, base`position
      ensures Valid()
      ensures f == old(Next(stops))
      ensures f.halt == halt && f.end == end && Holds(f.buffer, f.index, f.position)
    {
      Shift();
      var index;
      halt, index, end := FillLoop(readBuffer, 0, base, chunkSize, stops, false);
      bufferIndex := index;
      f := Fill(halt, readBuffer[..], index, end, base.position);
    }

    /** `ReadRow`. */
    method ReadRow(ignore: bool) returns (r: Result<Option<seq<string>>>)
      requires Valid()
      modifies readBuffer, this`bufferIndex, base`position
      ensures Valid()
      ensures closed ==> r == Err(ObjectDisposed) && Holds(old(readBuffer[..]), old(bufferIndex), old(base.position))
      ensures !closed ==>
                var f := old(Next([Stream.NL]));
                r == RowOfFill(f, fieldDelimiter, stringDelimiter, ColumnCount(), ignore) && Holds(f.buffer, f.index, f.position)
    {
      if closed {
        return Err(ObjectDisposed);
      }
      var halt, end, f := Refill([Stream.NL]);
      if halt == Short {
        return Err(IOFailure);
      }
      if halt == Spent {
        return Ok(None);
      }
      if bufferIndex + end > readBuffer.Length {
        return Err(ArgumentOutOfRange);
      }
      var line := readBuffer[bufferIndex..bufferIndex + end];
      assert Decoded(f) == Ok(line);
      r := ParseRow(line, fieldDelimiter, stringDelimiter, ColumnCount(), ignore);
    }

    /** `ReadHeader`: the row becomes the header. */
    method ReadHeader() returns (r: Result<seq<string>>)
      requires Valid()
      modifies this`header, readBuffer, this`bufferIndex, base`position
      ensures Valid()
      ensures closed ==> r == Err(ObjectDisposed) && Holds(old(readBuffer[..]), old(bufferIndex), old(base.position))
      ensures !closed && old(header).Some? ==>
                r == Err(InvalidOperation("Having header already - won't overwrite")) &&
                Holds(old(readBuffer[..]), old(bufferIndex), old(base.position))
      ensures !closed && old(header).None? ==>
                var f := old(Next([Stream.NL]));
                r == HeaderOfFill(f, fieldDelimiter, stringDelimiter) && Holds(f.buffer, f.index, f.position)
      ensures header == if r.Ok? then Some(r.value) else old(header)
    {
      if closed {
        return Err(ObjectDisposed);
      }
      if header.Some? {
        return Err(InvalidOperation("Having header already - won't overwrite"));
      }
      var halt, end, f := Refill([Stream.NL]);
      if halt == Short {
        return Err(IOFailure);
      }
      if halt == Spent {
        return Err(InvalidData(if bufferIndex == readBuffer.Length then "Header too long" else "No header"));
      }
      if bufferIndex + end > readBuffer.Length {
        return Err(ArgumentOutOfRange);
      }
      var line := readBuffer[bufferIndex..bufferIndex + end];
      assert Decoded(f) == Ok(line);
      r := ParseHeader(line, fieldDelimiter, stringDelimiter);
      if r.Ok? {
        header := Some(r.value);
      }
    }

    /** `SkipHeader`: reads the header line, refusing to when a header is known. */
    method SkipHeader() returns (o: Outcome)
      requires Valid()
      modifies this`header, readBuffer, this`bufferIndex, base`position
      ensures Valid()
      ensures closed ==> o == Fail(ObjectDisposed) && header == old(header) &&
                         Holds(old(readBuffer[..]), old(bufferIndex), old(base.position))
      ensures !closed && old(header).Some? ==>
                o == Fail(InvalidOperation("Having header already")) && header == old(header) &&
                Holds(old(readBuffer[..]), old(bufferIndex), old(base.position))
      ensures !closed && old(header).None? ==>
                var f := old(Next([Stream.NL]));
                var want := HeaderOfFill(f, fieldDelimiter, stringDelimiter);
                && o == (if want.Ok? then Pass else Fail(want.error))
                && header == (if want.Ok? then Some(want.value) else None)
                && Holds(f.buffer, f.index, f.position)
    {
      if closed {
        return Fail(ObjectDisposed);
      }
      if header.Some? {
        return Fail(InvalidOperation("Having header already"));
      }
      var r := ReadHeader();
      o := if r.Ok? then Pass else Fail(r.error);
    }

    /** `PeekField`: the fill stops at the field delimiter or a newline; on a normal return the cursor goes back to
        0, while the bytes read stay taken off the base stream. */
    method PeekField() returns (r: Result<Option<string>>)
      requires Valid()
      modifies readBuffer, this`bufferIndex, base`position
      ensures Valid()
      ensures closed ==> r == Err(ObjectDisposed) && Holds(old(readBuffer[..]), old(bufferIndex), old(base.position))
      ensures !closed ==>
                var f := old(Next(PeekStops(fieldDelimiter)));
                && r == PeekOfFill(f, fieldDelimiter, stringDelimiter)
                && Holds(f.buffer, if f.halt.Stop? && r.Ok? then 0 else f.index, f.position)
    {
      if closed {
        return Err(ObjectDisposed);
      }
      var halt, end, f := Refill(PeekStops(fieldDelimiter));
      r := PeekTail(halt, end, f);
    }

    /** What `PeekField` does once its fill is done: the byte after the stop byte decides. */
    method PeekTail(halt: Halt, end: nat, ghost f: Fill) returns (r: Result<Option<string>>)
      requires Valid() && f.halt == halt && f.end == end && Holds(f.buffer, f.index, f.position)
      modifies this`bufferIndex
      ensures Valid()
      ensures r == PeekOfFill(f, fieldDelimiter, stringDelimiter)
      ensures Holds(f.buffer, if f.halt.Stop? && r.Ok? then 0 else f.index, f.position)
    {
      if halt == Short {
        return Err(IOFailure);
      }
      if halt == Spent {
        return Ok(None);
      }
      if bufferIndex >= readBuffer.Length {
        return Err(IndexOutOfRange);
      }
      assert readBuffer[bufferIndex] == f.buffer[f.index];
      if readBuffer[bufferIndex] as int != fieldDelimiter as int {
        assert PeekOfFill(f, fieldDelimiter, stringDelimiter) == Ok(None);
        bufferIndex := 0;
        return Ok(None);
      }
      if bufferIndex + end > readBuffer.Length {
        return Err(ArgumentOutOfRange);
      }
      var part := readBuffer[bufferIndex..bufferIndex + end];
      assert Decoded(f) == Ok(part);
      r := ParseFirstField(part, fieldDelimiter, stringDelimiter);
      if r.Ok? {
        bufferIndex := 0;
      }
    }

    /** One round of the `Rows` enumeration: the row `ReadRow` returns is the first of the rows still to come, the
        rest coming from the state it leaves; an exception or a null row ends them there. */
    method RowRound(ignore: bool, ghost cc: int) returns (r: Result<Option<seq<string>>>)
      requires Valid() && !closed && cc == ColumnCount()
      modifies readBuffer, this`bufferIndex, base`position
      ensures Valid()
      ensures var cur := old(RowsAfter(readBuffer[..], bufferIndex, base.data, base.position, base.maxRead, chunkSize,
                                       fieldDelimiter, stringDelimiter, cc, ignore));
              if r.Ok? && r.value.Some? then
                old(base.position) < base.position &&
                cur == Prefixed([r.value.value], RowsAfter(readBuffer[..], bufferIndex, base.data, base.position,
                                                           base.maxRead, chunkSize, fieldDelimiter, stringDelimiter, cc,
                                                           ignore))
              else cur == Drained([], if r.Err? then Some(r.error) else None, readBuffer[..], bufferIndex, base.position)
    {
      ghost var f := Next([Stream.NL]);
      assert RowsAfter(readBuffer[..], bufferIndex, base.data, base.position, base.maxRead, chunkSize, fieldDelimiter,
                       stringDelimiter, cc, ignore) ==
             RowsOfFill(f, readBuffer.Length, base.position, base.data, base.maxRead, chunkSize, fieldDelimiter,
                        stringDelimiter, cc, ignore);
      r := ReadRow(ignore);
    }

    /** One round of the `AsDictionaries` enumeration, as `RowRound` for rows. */
    method DictRound(ignore: bool, ghost cc: nat) returns (r: Result<Option<map<string, string>>>)
      requires Valid() && !closed && cc == ColumnCount() && cc >= 1
      modifies readBuffer, this`bufferIndex, base`position
      ensures Valid()
      ensures var cur := old(DictsAfter(readBuffer[..], bufferIndex, base.data, base.position, base.maxRead, chunkSize,
                                        header, fieldDelimiter, stringDelimiter, cc, ignore));
              if r.Ok? && r.value.Some? then
                old(base.position) < base.position &&
                cur == DictsPrefixed([r.value.value], DictsAfter(readBuffer[..], bufferIndex, base.data, base.position,
                                                                 base.maxRead, chunkSize, header, fieldDelimiter,
                                                                 stringDelimiter, cc, ignore))
              else
                cur == DictsDrained([], if r.Err? then Some(r.error) else None, readBuffer[..], bufferIndex,
                                    base.position)
    {
      ghost var f := Next([Stream.NL]);
      assert DictsAfter(readBuffer[..], bufferIndex, base.data, base.position, base.maxRead, chunkSize, header,
                        fieldDelimiter, stringDelimiter, cc, ignore) ==
             DictsOfFill(f, readBuffer.Length, base.position, base.data, base.maxRead, chunkSize, header,
                         fieldDelimiter, stringDelimiter, cc, ignore);
      r := ReadDictionary(ignore);
    }

    /** `Rows`: `ReadRow` until it returns null; an exception ends the enumeration and is returned with the rows
        yielded before it. */
    method Rows(ignore: bool) returns (d: Stream.Drain)
      requires Valid()
      modifies readBuffer, this`bufferIndex, base`position
      ensures Valid()
      ensures closed ==> d == Stream.Drain([], Some(ObjectDisposed)) &&
                         Holds(old(readBuffer[..]), old(bufferIndex), old(base.position))
      ensures !closed ==>
                var want := RowsAfter(old(readBuffer[..]), old(bufferIndex), base.data, old(base.position), base.maxRead,
                                      chunkSize, fieldDelimiter, stringDelimiter, ColumnCount(), ignore);
                d == Stream.Drain(want.rows, want.error) && Holds(want.buffer, want.index, want.position)
    {
      if closed {
        return Stream.Drain([], Some(ObjectDisposed));
      }
      d := RowsLoop(ignore, ColumnCount(), base.data, base.maxRead);
    }

    /** The loop of `Rows`, once the closed flag is checked. */
    method RowsLoop(ignore: bool, ghost cc: int, ghost data: seq<byte>, ghost m: nat) returns (d: Stream.Drain)
      requires Valid() && !closed && cc == ColumnCount() && data == base.data && m == base.maxRead
      modifies readBuffer, this`bufferIndex, base`position
      ensures Valid()
      ensures var want := old(RowsAfter(readBuffer[..], bufferIndex, data, base.position, m, chunkSize, fieldDelimiter,
                                        stringDelimiter, cc, ignore));
              d == Stream.Drain(want.rows, want.error) && Holds(want.buffer, want.index, want.position)
    {
      ghost var goal := RowsAfter(readBuffer[..], bufferIndex, data, base.position, m, chunkSize, fieldDelimiter,
                                  stringDelimiter, cc, ignore);
      var rows: seq<seq<string>> := [];
      var done := false;
      d := Stream.Drain([], None);
      while !done
        invariant Valid() && cc == ColumnCount() && data == base.data && m == base.maxRead
        invariant goal == RowsState(done, rows, d, ignore, cc, data, m)
        decreases if done then 0 else 1, |data| - base.position
      {
        done, d, rows := RowsStep(ignore, cc, data, m, rows, goal);
      }
    }

    /** Where the `Rows` loop stands: the rows yielded so far followed by those still to come, or, once it is done,
        what it yielded and the state it left. */
    ghost function RowsState(done: bool, rows: seq<seq<string>>, d: Stream.Drain, ignore: bool, cc: int,
                             data: seq<byte>, m: nat): Drained
      reads this, base, readBuffer
      requires Valid() && data == base.data
    {
      if done then Drained(d.rows, d.error, readBuffer[..], bufferIndex, base.position)
      else Prefixed(rows, RowsAfter(readBuffer[..], bufferIndex, data, base.position, m, chunkSize, fieldDelimiter,
                                    stringDelimiter, cc, ignore))
    }

    /** One turn of the `Rows` loop: a row is appended to those yielded so far, or the enumeration ends. */
    method RowsStep(ignore: bool, ghost cc: int, ghost data: seq<byte>, ghost m: nat, rows: seq<seq<string>>,
                    ghost goal: Drained)
      returns (done: bool, d: Stream.Drain, rows': seq<seq<string>>)
      requires Valid() && !closed && cc == ColumnCount() && data == base.data && m == base.maxRead
      requires goal == Prefixed(rows, RowsAfter(readBuffer[..], bufferIndex, data, base.position, m, chunkSize,
                                                fieldDelimiter, stringDelimiter, cc, ignore))
      modifies readBuffer, this`bufferIndex, base`position
      ensures Valid()
      ensures !done ==> old(base.position) < base.position
      ensures goal == RowsState(done, rows', d, ignore, cc, data, m)
    {
      var r := RowRound(ignore, cc);
      rows' := rows;
      if r.Err? || r.value.None? {
        d := Stream.Drain(rows, if r.Err? then Some(r.error) else None);
        assert rows + [] == rows;
        done := true;
      } else {
        ghost var next := RowsAfter(readBuffer[..], bufferIndex, data, base.position, m, chunkSize, fieldDelimiter,
                                    stringDelimiter, cc, ignore);
        Stream.Regroup(rows, [r.value.value], next.rows);
        rows' := rows + [r.value.value];
        d := Stream.Drain([], None);
        done := false;
      }
    }

    /** `CountRows`: the rows `Rows` yields are counted, and the base position is put back, also after an exception;
        the buffer and the cursor stay where the rows left them. */
    method CountRows(ignore: bool) returns (r: Result<nat>)
      requires Valid()
      modifies readBuffer, this`bufferIndex, base`position
      ensures Valid() && base.position == old(base.position)
      ensures closed ==> r == Err(ObjectDisposed) && Holds(old(readBuffer[..]), old(bufferIndex), old(base.position))
      ensures !closed ==>
                var want := RowsAfter(old(readBuffer[..]), old(bufferIndex), base.data, old(base.position), base.maxRead,
                                      chunkSize, fieldDelimiter, stringDelimiter, ColumnCount(), ignore);
                r == Stream.CountOf(Stream.Drain(want.rows, want.error)) && readBuffer[..] == want.buffer &&
                bufferIndex == want.index
    {
      if closed {
        return Err(ObjectDisposed);
      }
      var offset := base.position;
      var d := Rows(ignore);
      base.Seek(offset);
      r := Stream.CountOf(d);
    }

    /** `ToDictionary`: the first `ColumnCount` header names mapped to the row's fields. */
    method ToDictionary(row: seq<string>) returns (r: Result<map<string, string>>)
      requires Valid()
      ensures r == Stream.RowDictionary(header, row, ColumnCount())
    {
      if header.None? {
        return Err(ArgumentNull("source"));
      }
      if ColumnCount() > |header.value| || ColumnCount() > |row| {
        return Err(IndexOutOfRange);
      }
      var m := FillDictionary(header.value, row, ColumnCount());
      return Ok(m);
    }

    /** `ReadDictionary`: refused without a column count; null for a null row. */
    method ReadDictionary(ignore: bool) returns (r: Result<Option<map<string, string>>>)
      requires Valid()
      modifies readBuffer, this`bufferIndex, base`position
      ensures Valid()
      ensures ColumnCount() < 1 ==>
                r == Err(InvalidOperation("No columns")) && Holds(old(readBuffer[..]), old(bufferIndex), old(base.position))
      ensures ColumnCount() >= 1 && closed ==>
                r == Err(ObjectDisposed) && Holds(old(readBuffer[..]), old(bufferIndex), old(base.position))
      ensures ColumnCount() >= 1 && !closed ==>
                var f := old(Next([Stream.NL]));
                && r == Stream.DictionaryOf(RowOfFill(f, fieldDelimiter, stringDelimiter, ColumnCount(), ignore), header,
                                            ColumnCount())
                && Holds(f.buffer, f.index, f.position)
    {
      if ColumnCount() < 1 {
        return Err(InvalidOperation("No columns"));
      }
      var row := ReadRow(ignore);
      if row.Err? {
        return Err(row.error);
      }
      if row.value.None? {
        return Ok(None);
      }
      var m := ToDictionary(row.value.value);
      if m.Err? {
        return Err(m.error);
      }
      return Ok(Some(m.value));
    }

    /** `AsDictionaries`: `ReadDictionary` until it returns null. */
    method AsDictionaries(ignore: bool) returns (d: Stream.DictDrain)
      requires Valid()
      modifies readBuffer, this`bufferIndex, base`position
      ensures Valid()
      ensures ColumnCount() < 1 ==>
                d == Stream.DictDrain([], Some(InvalidOperation("No columns"))) &&
                Holds(old(readBuffer[..]), old(bufferIndex), old(base.position))
      ensures ColumnCount() >= 1 && closed ==>
                d == Stream.DictDrain([], Some(ObjectDisposed)) &&
                Holds(old(readBuffer[..]), old(bufferIndex), old(base.position))
      ensures ColumnCount() >= 1 && !closed ==>
                var want := DictsAfter(old(readBuffer[..]), old(bufferIndex), base.data, old(base.position), base.maxRead,
                                       chunkSize, header, fieldDelimiter, stringDelimiter, ColumnCount(), ignore);
                d == Stream.DictDrain(want.dicts, want.error) && Holds(want.buffer, want.index, want.position)
    {
      if ColumnCount() < 1 {
        return Stream.DictDrain([], Some(InvalidOperation("No columns")));
      }
      if closed {
        return Stream.DictDrain([], Some(ObjectDisposed));
      }
      d := DictsLoop(ignore, ColumnCount(), base.data, base.maxRead, header);
    }

    /** The loop of `AsDictionaries`, once the column count and the closed flag are checked. */
    method DictsLoop(ignore: bool, ghost cc: nat, ghost data: seq<byte>, ghost m: nat, ghost h: Option<seq<string>>)
      returns (d: Stream.DictDrain)
      requires Valid() && !closed && cc == ColumnCount() && cc >= 1 && data == base.data && m == base.maxRead
      requires h == header
      modifies readBuffer, this`bufferIndex, base`position
      ensures Valid()
      ensures var want := old(DictsAfter(readBuffer[..], bufferIndex, data, base.position, m, chunkSize, h,
                                         fieldDelimiter, stringDelimiter, cc, ignore));
              d == Stream.DictDrain(want.dicts, want.error) && Holds(want.buffer, want.index, want.position)
    {
      ghost var goal := DictsAfter(readBuffer[..], bufferIndex, data, base.position, m, chunkSize, h, fieldDelimiter,
                                   stringDelimiter, cc, ignore);
      var dicts: seq<map<string, string>> := [];
      var done := false;
      d := Stream.DictDrain([], None);
      while !done
        invariant Valid() && cc == ColumnCount() && data == base.data && m == base.maxRead && h == header
        invariant goal == DictsState(done, dicts, d, ignore, cc, data, m, h)
        decreases if done then 0 else 1, |data| - base.position
      {
        done, d, dicts := DictsStep(ignore, cc, data, m, h, dicts, goal);
      }
    }

    /** Where the `AsDictionaries` loop stands, as `RowsState` for rows. */
    ghost function DictsState(done: bool, dicts: seq<map<string, string>>, d: Stream.DictDrain, ignore: bool, cc: nat,
                              data: seq<byte>, m: nat, h: Option<seq<string>>): DictsDrained
      reads this, base, readBuffer
      requires Valid() && data == base.data
    {
      if done then DictsDrained(d.dicts, d.error, readBuffer[..], bufferIndex, base.position)
      else DictsPrefixed(dicts, DictsAfter(readBuffer[..], bufferIndex, data, base.position, m, chunkSize, h,
                                           fieldDelimiter, stringDelimiter, cc, ignore))
    }

    /** One turn of the `AsDictionaries` loop, as `RowsStep` for rows. */
    method DictsStep(ignore: bool, ghost cc: nat, ghost data: seq<byte>, ghost m: nat, ghost h: Option<seq<string>>,
                     dicts: seq<map<string, string>>, ghost goal: DictsDrained)
      returns (done: bool, d: Stream.DictDrain, dicts': seq<map<string, string>>)
      requires Valid() && !closed && cc == ColumnCount() && cc >= 1 && data == base.data && m == base.maxRead
      requires h == header
      requires goal == DictsState(false, dicts, Stream.DictDrain([], None), ignore, cc, data, m, h)
      modifies readBuffer, this`bufferIndex, base`position
      ensures Valid()
      ensures !done ==> old(base.position) < base.position
      ensures goal == DictsState(done, dicts', d, ignore, cc, data, m, h)
    {
      var r := DictRound(ignore, cc);
      dicts' := dicts;
      if r.Err? || r.value.None? {
        d := Stream.DictDrain(dicts, if r.Err? then Some(r.error) else None);
        assert dicts + [] == dicts;
        done := true;
      } else {
        ghost var next := DictsAfter(readBuffer[..], bufferIndex, data, base.position, m, chunkSize, h, fieldDelimiter,
                                     stringDelimiter, cc, ignore);
        Stream.Regroup(dicts, [r.value.value], next.dicts);
        dicts' := dicts + [r.value.value];
        d := Stream.DictDrain([], None);
        done := false;
      }
    }
  }
}
