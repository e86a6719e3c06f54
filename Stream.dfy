/**
 * `CsvStream` of the current source tree: a reader over a base stream through a fixed read buffer, and a writer
 * that quotes fields and writes the header once.
 *
 * The reader keeps the bytes `ReadBuffer[BufferIndex..BufferPosition]` read from the base stream but not consumed
 * yet; with the bytes the base stream still holds they make up `Unread()`, the text still to come. Every read
 * operation is specified by what it does to `Unread()`: `ReadUntil` consumes up to the first stop byte, `ReadRow`
 * a line, and `PeekField` nothing.
 */
module Stream {
  import opened Wrappers
  import opened Text
  import opened Tokenizer
  import opened CsvWriter
  import opened Base
  import opened Dictionaries
  import CsvParser

  const DefaultBufferSize := 81920
  const DefaultChunkSize := 4096
  const DefaultFieldDelimiter := ','
  const DefaultStringDelimiter: Option<char> := Some('"')

  /** The byte `'\n'`. */
  const NL: byte := 10

  /** The `(byte)c` cast: the low byte of the character. */
  function ByteOf(c: char): byte
  {
    (c as int % 256) as byte
  }

  /* ------------------------------------------------------------------------------------------------------------ */
  /* What the reader consumes                                                                                      */

  /** The index of the first stop byte of `u` at or after `i`, if there is one. */
  function FirstStop(u: seq<byte>, i: nat, stops: seq<byte>): (r: Option<nat>)
    requires i <= |u|
    ensures r.Some? ==> i <= r.value < |u| && u[r.value] in stops
    ensures r.Some? ==> forall k :: i <= k < r.value ==> u[k] !in stops
    ensures r.None? ==> forall k :: i <= k < |u| ==> u[k] !in stops
    decreases |u| - i
  {
    if i == |u| then None else if u[i] in stops then Some(i) else FirstStop(u, i + 1, stops)
  }

  /** How many bytes `ReadUntil` consumes from `u`: up to and including the first stop byte, or all of them. */
  function LineEnd(u: seq<byte>, stops: seq<byte>): (n: nat)
    ensures n <= |u| && (|u| > 0 ==> n > 0)
    ensures n < |u| ==> u[n - 1] in stops
    ensures forall k :: 0 <= k < n - 1 ==> u[k] !in stops
  {
    match FirstStop(u, 0, stops)
    case Some(k) => k + 1
    case None => |u|
  }

  /** A scan that has passed over stop-free bytes up to `i` has not reached the end of the line yet. */
  lemma StopsAhead(u: seq<byte>, i: nat, stops: seq<byte>)
    requires i < |u| && FirstStop(u, i, stops) == FirstStop(u, 0, stops)
    ensures i < LineEnd(u, stops)
  {
  }

  /** `ReadUntil` never fails for want of room or for a short read when every read delivers a whole chunk and the
      bytes of the line, but its last one, leave a chunk of room in the buffer. */
  predicate Roomy(u: seq<byte>, stops: seq<byte>, maxRead: nat, chunk: nat, size: nat)
  {
    maxRead >= chunk && LineEnd(u, stops) + chunk <= size + 1
  }

  /** A refill appends the delivered bytes to the buffered ones and takes them off the base stream's remainder. */
  lemma Refilled(a: array<byte>, pre: seq<byte>, bp: nat, d: seq<byte>, pos: nat, pos2: nat)
    requires |pre| <= bp <= a.Length && pos <= pos2 <= |d| && bp - |pre| == pos2 - pos
    requires a[..|pre|] == pre && a[|pre|..bp] == d[pos..pos2]
    ensures a[..bp] + d[pos2..] == pre + d[pos..]
  {
    assert a[..bp] == a[..|pre|] + a[|pre|..bp];
    assert d[pos..] == d[pos..pos2] + d[pos2..];
  }

  /** Consuming `n` buffered bytes splits the pending bytes into those consumed and the unread ones. */
  lemma Consumed(a: array<byte>, n: nat, bp: nat, b: seq<byte>)
    requires n <= bp <= a.Length
    ensures (a[..bp] + b)[..n] == a[..n] && (a[..bp] + b)[n..] == a[n..bp] + b
  {
  }

  /** A failure of the buffering itself rather than of the text: a refill that does not fit the buffer, or a short
      read. */
  predicate BufferFault(e: Error)
  {
    e.Argument? || e == IOFailure
  }

  /** What `ReadRow` makes of one line: the row `ParseHeaderFromString` finds in it, checked against the column
      count unless errors are ignored. A line in which no row ends (an unclosed string) is the source's null, which
      `res.Length` dereferences when the count is checked. */
  function LineRow(line: seq<byte>, fd: char, sd: Option<char>, cc: int, ignore: bool): (r: Result<Option<seq<string>>>)
    ensures r.Ok? && r.value.Some? && !ignore && cc > 0 ==> |r.value.value| == cc
    ensures HeaderOf(DecodeBytes(line), fd, sd).Err? ==> r == Err(HeaderOf(DecodeBytes(line), fd, sd).error)
  {
    match HeaderOf(DecodeBytes(line), fd, sd)
    case Err(e) => Err(e)
    case Ok(None) => if !ignore && cc > 0 then Err(NullReference) else Ok(None)
    case Ok(Some(row)) =>
      if !ignore && cc > 0 && |row| != cc then Err(InvalidData("Invalid field count")) else Ok(Some(row))
  }

  /** What `ReadRow` returns for the unread bytes `u`, and the bytes it leaves unread: nothing at the end of the
      data, otherwise the row of the first line. */
  function NextRow(u: seq<byte>, fd: char, sd: Option<char>, cc: int, ignore: bool)
    : (p: (Result<Option<seq<string>>>, seq<byte>))
    ensures |u| == 0 ==> p == (Ok(None), u)
    ensures |u| > 0 ==> |p.1| < |u| && p.1 == u[LineEnd(u, [NL])..]
  {
    if |u| == 0 then (Ok(None), u)
    else
      var n := LineEnd(u, [NL]);
      (LineRow(u[..n], fd, sd, cc, ignore), u[n..])
  }

  /** What `ReadHeader` makes of the header line; a null row fails in `ToArray`. */
  function HeaderLine(line: seq<byte>, fd: char, sd: Option<char>): (r: Result<seq<string>>)
    ensures r.Ok? <==> HeaderOf(DecodeBytes(line), fd, sd).Ok? && HeaderOf(DecodeBytes(line), fd, sd).value.Some?
  {
    match HeaderOf(DecodeBytes(line), fd, sd)
    case Err(e) => Err(e)
    case Ok(None) => Err(ArgumentNull("source"))
    case Ok(Some(h)) => Ok(h)
  }

  /** What `PeekField` makes of the bytes up to and including the first field delimiter or newline: the first
      field of their row when they end with the field delimiter, and null otherwise. */
  function FieldOf(part: seq<byte>, fd: char, sd: Option<char>): (r: Result<Option<string>>)
    requires |part| > 0
    ensures part[|part| - 1] as int != fd as int ==> r == Ok(None)
    ensures r.Ok? && r.value.Some? ==>
              HeaderOf(DecodeBytes(part), fd, sd).Ok? && HeaderOf(DecodeBytes(part), fd, sd).value.Some? &&
              r.value.value == HeaderOf(DecodeBytes(part), fd, sd).value.value[0]
  {
    if part[|part| - 1] as int != fd as int then Ok(None) else FirstField(part, fd, sd)
  }

  /** The first field of the row the current reader makes of `part`: a null row is a `NullReferenceException` and
      an empty one an `IndexOutOfRangeException`. */
  function FirstField(part: seq<byte>, fd: char, sd: Option<char>): (r: Result<Option<string>>)
    ensures r.Ok? <==> HeaderOf(DecodeBytes(part), fd, sd).Ok? && HeaderOf(DecodeBytes(part), fd, sd).value.Some? &&
                       |HeaderOf(DecodeBytes(part), fd, sd).value.value| > 0
    ensures r.Ok? ==> r.value == Some(HeaderOf(DecodeBytes(part), fd, sd).value.value[0])
  {
    match HeaderOf(DecodeBytes(part), fd, sd)
    case Err(e) => Err(e)
    case Ok(None) => Err(NullReference)
    case Ok(Some(row)) => if |row| == 0 then Err(IndexOutOfRange) else Ok(Some(row[0]))
  }

  /** What `PeekField` returns for the unread bytes `u`. */
  function PeekOf(u: seq<byte>, fd: char, sd: Option<char>): (r: Result<Option<string>>)
    ensures |u| == 0 ==> r == Ok(None)
  {
    if |u| == 0 then Ok(None) else FieldOf(u[..LineEnd(u, [ByteOf(fd), NL])], fd, sd)
  }

  /** The rows `Rows` yields from the unread bytes `u`, and the exception that ends them, if any. */
  datatype Drain = Drain(rows: seq<seq<string>>, error: Option<Error>)

  function StreamRows(u: seq<byte>, fd: char, sd: Option<char>, cc: int, ignore: bool): (d: Drain)
    ensures !ignore && cc > 0 ==> forall k :: 0 <= k < |d.rows| ==> |d.rows[k]| == cc
    decreases |u|, 1
  {
    if |u| == 0 then Drain([], None) else DrainFrom(u, fd, sd, cc, ignore)
  }

  /** The enumeration of a non-empty `u` from its first line on. */
  function DrainFrom(u: seq<byte>, fd: char, sd: Option<char>, cc: int, ignore: bool): (d: Drain)
    requires |u| > 0
    ensures !ignore && cc > 0 ==> forall k :: 0 <= k < |d.rows| ==> |d.rows[k]| == cc
    decreases |u|, 0
  {
    var n := LineEnd(u, [NL]);
    match LineRow(u[..n], fd, sd, cc, ignore)
    case Err(e) => Drain([], Some(e))
    case Ok(None) => Drain([], None)
    case Ok(Some(row)) =>
      var d := StreamRows(u[n..], fd, sd, cc, ignore);
      Drain([row] + d.rows, d.error)
  }

  /** The bytes `Rows` leaves unread: those behind the line whose `ReadRow` ends the enumeration. */
  function DrainRest(u: seq<byte>, fd: char, sd: Option<char>, cc: int, ignore: bool): (r: seq<byte>)
    ensures |r| <= |u|
    decreases |u|, 1
  {
    if |u| == 0 then u else DrainRestFrom(u, fd, sd, cc, ignore)
  }

  function DrainRestFrom(u: seq<byte>, fd: char, sd: Option<char>, cc: int, ignore: bool): (r: seq<byte>)
    requires |u| > 0
    ensures |r| <= |u|
    decreases |u|, 0
  {
    var n := LineEnd(u, [NL]);
    match LineRow(u[..n], fd, sd, cc, ignore)
    case Ok(Some(_)) => DrainRest(u[n..], fd, sd, cc, ignore)
    case _ => u[n..]
  }

  /** `Rows` is `ReadRow` repeated: the first `ReadRow` either ends the enumeration or yields its first row, and the
      rest is the enumeration of what it leaves unread. */
  lemma DrainStep(u: seq<byte>, fd: char, sd: Option<char>, cc: int, ignore: bool)
    ensures var (r, rest) := NextRow(u, fd, sd, cc, ignore);
            match r
            case Err(e) => StreamRows(u, fd, sd, cc, ignore) == Drain([], Some(e)) &&
                           DrainRest(u, fd, sd, cc, ignore) == rest
            case Ok(None) => StreamRows(u, fd, sd, cc, ignore) == Drain([], None) &&
                             DrainRest(u, fd, sd, cc, ignore) == rest
            case Ok(Some(row)) =>
              var d := StreamRows(rest, fd, sd, cc, ignore);
              StreamRows(u, fd, sd, cc, ignore) == Drain([row] + d.rows, d.error) &&
              DrainRest(u, fd, sd, cc, ignore) == DrainRest(rest, fd, sd, cc, ignore)
  {
  }

  /** Unless errors are ignored or no column count is set, the enumeration stops at an exception or at the end of
      the data: nothing is left unread when no exception ends it. */
  lemma {:induction false} DrainsAll(u: seq<byte>, fd: char, sd: Option<char>, cc: int)
    requires cc > 0
    ensures StreamRows(u, fd, sd, cc, false).error.None? ==> |DrainRest(u, fd, sd, cc, false)| == 0
    decreases |u|
  {
    if |u| > 0 {
      DrainsAll(u[LineEnd(u, [NL])..], fd, sd, cc);
      assert DrainFrom(u, fd, sd, cc, false).error.None? ==> |DrainRestFrom(u, fd, sd, cc, false)| == 0;
    }
  }

  /** What `Rows` does to the unread bytes `u`, leaving `v` unread: it drains them as `StreamRows` says, or, unless
      every line is `roomy`, a buffer fault ends it after a prefix of those rows. */
  predicate DrainEnd(u: seq<byte>, v: seq<byte>, d: Drain, fd: char, sd: Option<char>, cc: int, ignore: bool,
                     roomy: bool)
  {
    var want := StreamRows(u, fd, sd, cc, ignore);
    || (d == want && v == DrainRest(u, fd, sd, cc, ignore))
    || (d.error.Some? && BufferFault(d.error.value) && d.rows <= want.rows && !roomy)
  }

  /** One `ReadRow` of the enumeration of `u`, which leaves `v` unread: it yields a row and the enumeration of `v`
      is the rest, or it ends the enumeration, or, unless every line is `roomy`, a buffer fault ends it early. */
  predicate DrainRound(u: seq<byte>, v: seq<byte>, r: Result<Option<seq<string>>>, fd: char, sd: Option<char>, cc: int,
                       ignore: bool, roomy: bool)
  {
    var (was, now) := (StreamRows(u, fd, sd, cc, ignore), StreamRows(v, fd, sd, cc, ignore));
    && (r.Ok? && r.value.Some? ==>
          was.rows == [r.value.value] + now.rows && was.error == now.error &&
          DrainRest(u, fd, sd, cc, ignore) == DrainRest(v, fd, sd, cc, ignore) && |v| < |u|)
    && (r.Ok? && r.value.None? ==> was == Drain([], None) && DrainRest(u, fd, sd, cc, ignore) == v)
    && (r.Err? ==> (was == Drain([], Some(r.error)) && DrainRest(u, fd, sd, cc, ignore) == v) ||
                   (BufferFault(r.error) && !roomy))
  }

  lemma Regroup<T>(a: seq<T>, b: seq<T>, c: seq<T>)
    ensures a + (b + c) == (a + b) + c
  {
  }

  /** The round that ends the enumeration: the rows yielded so far are the drain's rows, or their prefix when a
      buffer fault cuts it short. */
  /** Where the `Rows` loop stands: `rows` yielded so far from `u` and `v` still unread, with the rest of the
      enumeration of `u` still to come from `v`. */
  predicate DrainPending(u: seq<byte>, v: seq<byte>, rows: seq<seq<string>>, fd: char, sd: Option<char>, cc: int,
                         ignore: bool)
  {
    && StreamRows(u, fd, sd, cc, ignore).rows == rows + StreamRows(v, fd, sd, cc, ignore).rows
    && StreamRows(u, fd, sd, cc, ignore).error == StreamRows(v, fd, sd, cc, ignore).error
    && DrainRest(v, fd, sd, cc, ignore) == DrainRest(u, fd, sd, cc, ignore)
  }

  lemma DrainEnds(u: seq<byte>, v: seq<byte>, w: seq<byte>, rows: seq<seq<string>>, r: Result<Option<seq<string>>>,
                  fd: char, sd: Option<char>, cc: int, ignore: bool, roomy: bool, d: Drain)
    requires StreamRows(u, fd, sd, cc, ignore).rows == rows + StreamRows(v, fd, sd, cc, ignore).rows
    requires StreamRows(u, fd, sd, cc, ignore).error == StreamRows(v, fd, sd, cc, ignore).error
    requires DrainRest(v, fd, sd, cc, ignore) == DrainRest(u, fd, sd, cc, ignore)
    requires DrainRound(v, w, r, fd, sd, cc, ignore, roomy)
    requires d == if r.Err? then Drain(rows, Some(r.error)) else Drain(rows, None)
    requires r.Err? || r.value.None?
    ensures DrainEnd(u, w, d, fd, sd, cc, ignore, roomy)
  {
    var rest := StreamRows(v, fd, sd, cc, ignore).rows;
    assert rows + [] == rows;
    assert (rows + rest)[..|rows|] == rows;
  }

  /** Every line of `u` can be read without a buffer fault. */
  predicate AllRoomy(u: seq<byte>, maxRead: nat, chunk: nat, size: nat)
    decreases |u|
  {
    |u| == 0 || (Roomy(u, [NL], maxRead, chunk, size) && AllRoomy(u[LineEnd(u, [NL])..], maxRead, chunk, size))
  }

  /** What `CountRows` returns for a drain: the number of rows, or the exception that ended them. */
  function CountOf(d: Drain): (r: Result<nat>)
  {
    if d.error.Some? then Err(d.error.value) else Ok(|d.rows|)
  }

  /** What `ToDictionary` makes of a row: the first `cc` names of the header mapped to the row's fields. A missing
      header fails in `ToArray`; a header or a row shorter than `cc` fails in the indexing. */
  function RowDictionary(header: Option<seq<string>>, row: seq<string>, cc: nat): (r: Result<map<string, string>>)
    ensures r.Ok? <==> header.Some? && cc <= |header.value| && cc <= |row|
    ensures header.None? ==> r == Err(ArgumentNull("source"))
    ensures r.Ok? ==> |r.value| <= cc && r.value.Keys == set i | 0 <= i < cc :: header.value[i]
  {
    if header.None? then Err(ArgumentNull("source"))
    else if cc > |header.value| || cc > |row| then Err(IndexOutOfRange)
    else
      DictSize(header.value, row, cc);
      Ok(DictOf(header.value, row, cc))
  }

  /** What `ReadDictionary` returns for what `ReadRow` returns: null for null, the row's dictionary otherwise. */
  function DictionaryOf(next: Result<Option<seq<string>>>, header: Option<seq<string>>, cc: nat)
    : (r: Result<Option<map<string, string>>>)
    ensures r.Ok? && r.value.None? <==> next.Ok? && next.value.None?
    ensures next.Err? ==> r == Err(next.error)
  {
    match next
    case Err(e) => Err(e)
    case Ok(None) => Ok(None)
    case Ok(Some(row)) =>
      match RowDictionary(header, row, cc)
      case Err(e) => Err(e)
      case Ok(m) => Ok(Some(m))
  }

  /** The dictionaries `AsDictionaries` yields from the unread bytes `u`, and the exception that ends them, if any. */
  datatype DictDrain = DictDrain(dicts: seq<map<string, string>>, error: Option<Error>)

  function StreamDicts(u: seq<byte>, header: Option<seq<string>>, fd: char, sd: Option<char>, cc: nat, ignore: bool)
    : (d: DictDrain)
    ensures cc < 1 ==> d == DictDrain([], Some(InvalidOperation("No columns")))
    decreases |u|, 1
  {
    if cc < 1 then DictDrain([], Some(InvalidOperation("No columns")))
    else if |u| == 0 then DictDrain([], None)
    else DictsFrom(u, header, fd, sd, cc, ignore)
  }

  /** The enumeration of a non-empty `u` from its first line on. */
  function DictsFrom(u: seq<byte>, header: Option<seq<string>>, fd: char, sd: Option<char>, cc: nat, ignore: bool)
    : (d: DictDrain)
    requires |u| > 0
    decreases |u|, 0
  {
    var n := LineEnd(u, [NL]);
    match DictionaryOf(LineRow(u[..n], fd, sd, cc, ignore), header, cc)
    case Err(e) => DictDrain([], Some(e))
    case Ok(None) => DictDrain([], None)
    case Ok(Some(m)) =>
      var d := StreamDicts(u[n..], header, fd, sd, cc, ignore);
      DictDrain([m] + d.dicts, d.error)
  }

  /** The bytes `AsDictionaries` leaves unread: those behind the line whose `ReadDictionary` ends the enumeration. */
  function DictRest(u: seq<byte>, header: Option<seq<string>>, fd: char, sd: Option<char>, cc: nat, ignore: bool)
    : (r: seq<byte>)
    ensures |r| <= |u|
    decreases |u|, 1
  {
    if cc < 1 || |u| == 0 then u else DictRestFrom(u, header, fd, sd, cc, ignore)
  }

  function DictRestFrom(u: seq<byte>, header: Option<seq<string>>, fd: char, sd: Option<char>, cc: nat, ignore: bool)
    : (r: seq<byte>)
    requires |u| > 0
    ensures |r| <= |u|
    decreases |u|, 0
  {
    var n := LineEnd(u, [NL]);
    match DictionaryOf(LineRow(u[..n], fd, sd, cc, ignore), header, cc)
    case Ok(Some(_)) => DictRest(u[n..], header, fd, sd, cc, ignore)
    case _ => u[n..]
  }

  /** `AsDictionaries` is `ReadDictionary` repeated: the first one either ends the enumeration or yields its first
      dictionary, and the rest is the enumeration of what it leaves unread. */
  lemma DictStep(u: seq<byte>, header: Option<seq<string>>, fd: char, sd: Option<char>, cc: nat, ignore: bool)
    requires cc >= 1
    ensures var (r, rest) := NextRow(u, fd, sd, cc, ignore);
            match DictionaryOf(r, header, cc)
            case Err(e) => StreamDicts(u, header, fd, sd, cc, ignore) == DictDrain([], Some(e)) &&
                           DictRest(u, header, fd, sd, cc, ignore) == rest
            case Ok(None) => StreamDicts(u, header, fd, sd, cc, ignore) == DictDrain([], None) &&
                             DictRest(u, header, fd, sd, cc, ignore) == rest
            case Ok(Some(m)) =>
              var d := StreamDicts(rest, header, fd, sd, cc, ignore);
              StreamDicts(u, header, fd, sd, cc, ignore) == DictDrain([m] + d.dicts, d.error) &&
              DictRest(u, header, fd, sd, cc, ignore) == DictRest(rest, header, fd, sd, cc, ignore)
  {
  }

  /** What `AsDictionaries` does to the unread bytes `u`, leaving `v` unread: it drains them as `StreamDicts` says,
      or, unless every line is `roomy`, a buffer fault ends it after a prefix of those dictionaries. */
  predicate DictEnd(u: seq<byte>, v: seq<byte>, d: DictDrain, header: Option<seq<string>>, fd: char, sd: Option<char>,
                    cc: nat, ignore: bool, roomy: bool)
  {
    var want := StreamDicts(u, header, fd, sd, cc, ignore);
    || (d == want && v == DictRest(u, header, fd, sd, cc, ignore))
    || (d.error.Some? && BufferFault(d.error.value) && d.dicts <= want.dicts && !roomy)
  }

  /** One `ReadDictionary` of the enumeration of `u`, which leaves `v` unread. */
  predicate DictRound(u: seq<byte>, v: seq<byte>, r: Result<Option<map<string, string>>>, header: Option<seq<string>>,
                      fd: char, sd: Option<char>, cc: nat, ignore: bool, roomy: bool)
  {
    var (was, now) := (StreamDicts(u, header, fd, sd, cc, ignore), StreamDicts(v, header, fd, sd, cc, ignore));
    && (r.Ok? && r.value.Some? ==>
          was.dicts == [r.value.value] + now.dicts && was.error == now.error &&
          DictRest(u, header, fd, sd, cc, ignore) == DictRest(v, header, fd, sd, cc, ignore) && |v| < |u|)
    && (r.Ok? && r.value.None? ==> was == DictDrain([], None) && DictRest(u, header, fd, sd, cc, ignore) == v)
    && (r.Err? ==> (was == DictDrain([], Some(r.error)) && DictRest(u, header, fd, sd, cc, ignore) == v) ||
                   (BufferFault(r.error) && !roomy))
  }

  /** Where the `AsDictionaries` loop stands, as `DrainPending` for rows. */
  predicate DictsPending(u: seq<byte>, v: seq<byte>, dicts: seq<map<string, string>>, header: Option<seq<string>>,
                         fd: char, sd: Option<char>, cc: nat, ignore: bool)
  {
    && StreamDicts(u, header, fd, sd, cc, ignore).dicts == dicts + StreamDicts(v, header, fd, sd, cc, ignore).dicts
    && StreamDicts(u, header, fd, sd, cc, ignore).error == StreamDicts(v, header, fd, sd, cc, ignore).error
    && DictRest(v, header, fd, sd, cc, ignore) == DictRest(u, header, fd, sd, cc, ignore)
  }

  /** The round that ends the enumeration of dictionaries. */
  lemma DictEnds(u: seq<byte>, v: seq<byte>, w: seq<byte>, dicts: seq<map<string, string>>,
                 r: Result<Option<map<string, string>>>, header: Option<seq<string>>, fd: char, sd: Option<char>,
                 cc: nat, ignore: bool, roomy: bool, d: DictDrain)
    requires StreamDicts(u, header, fd, sd, cc, ignore).dicts == dicts + StreamDicts(v, header, fd, sd, cc, ignore).dicts
    requires StreamDicts(u, header, fd, sd, cc, ignore).error == StreamDicts(v, header, fd, sd, cc, ignore).error
    requires DictRest(v, header, fd, sd, cc, ignore) == DictRest(u, header, fd, sd, cc, ignore)
    requires DictRound(v, w, r, header, fd, sd, cc, ignore, roomy)
    requires d == if r.Err? then DictDrain(dicts, Some(r.error)) else DictDrain(dicts, None)
    requires r.Err? || r.value.None?
    ensures DictEnd(u, w, d, header, fd, sd, cc, ignore, roomy)
  {
    var rest := StreamDicts(v, header, fd, sd, cc, ignore).dicts;
    assert dicts + [] == dicts;
    assert (dicts + rest)[..|dicts|] == dicts;
  }

  /** The dictionaries of rows, one per row, in order. */
  function RowDicts(h: seq<string>, rows: seq<seq<string>>, cc: nat): (ds: seq<map<string, string>>)
    requires cc <= |h| && forall k :: 0 <= k < |rows| ==> cc <= |rows[k]|
    ensures |ds| == |rows|
    decreases |rows|
  {
    if |rows| == 0 then [] else [DictOf(h, rows[0], cc)] + RowDicts(h, rows[1..], cc)
  }

  /** With a header of at least `cc` names and the column count checked, `AsDictionaries` yields the dictionary of
      every row `Rows` yields, and ends the same way. */
  lemma {:induction false} DictsOfRows(u: seq<byte>, h: seq<string>, fd: char, sd: Option<char>, cc: nat)
    requires 1 <= cc <= |h|
    ensures var rows := StreamRows(u, fd, sd, cc, false);
            StreamDicts(u, Some(h), fd, sd, cc, false) == DictDrain(RowDicts(h, rows.rows, cc), rows.error)
    decreases |u|
  {
    if |u| > 0 {
      var n := LineEnd(u, [NL]);
      DictsOfRows(u[n..], h, fd, sd, cc);
      match LineRow(u[..n], fd, sd, cc, false)
      case Err(e) =>
      case Ok(None) =>
      case Ok(Some(row)) =>
        var rest := StreamRows(u[n..], fd, sd, cc, false);
        assert ([row] + rest.rows)[1..] == rest.rows;
    }
  }

  /** Moving the cursor back to the front of the buffer makes the consumed bytes unread again. */
  lemma Rewound(a: array<byte>, n: nat, bp: nat, rest: seq<byte>, u: seq<byte>)
    requires n <= bp <= a.Length && n <= |u|
    requires a[..n] == u[..n] && a[n..bp] + rest == u[n..]
    ensures a[0..bp] + rest == u
  {
    assert a[0..bp] == a[..n] + a[n..bp];
    assert u == u[..n] + u[n..];
  }

  /** The header `ValidateHeader` settles on: none once the header is written; the given header, which needs a
      column; or, when none is given, the one known already. */
  function HeaderChoice(written: bool, known: Option<seq<string>>, given: Option<seq<string>>): (r: Result<seq<string>>)
    ensures r.Ok? ==> !written && (if given.Some? then r.value == given.value && |r.value| > 0 else known == Some(r.value))
    ensures r.Err? ==> r.error == if written then InvalidOperation("Having header already - won't overwrite")
                                 else if given.None? then ArgumentNull("header") else Argument("Missing columns")
  {
    if written then Err(InvalidOperation("Having header already - won't overwrite"))
    else if given.None? then (if known.None? then Err(ArgumentNull("header")) else Ok(known.value))
    else if |given.value| < 1 then Err(Argument("Missing columns"))
    else Ok(given.value)
  }

  /** What a call of `WriteRows` does: the outcome, the bytes it writes, in order, and whether the header has been
      written afterwards. */
  datatype Emitted = Emitted(outcome: Outcome, out: seq<byte>, written: bool)

  /** The bytes `WriteHeader` writes: the line of the header `ValidateHeader` settles on. */
  function HeaderOut(written: bool, known: Option<seq<string>>, given: Option<seq<string>>, fd: char, sd: Option<char>,
                     nl: NewLine, ignore: bool): (r: Result<seq<byte>>)
    ensures r.Ok? ==> HeaderChoice(written, known, given).Ok? &&
                      Ok(r.value) == EncodeRow(HeaderChoice(written, known, given).value, fd, sd, nl, ignore)
    ensures HeaderChoice(written, known, given).Err? ==> r == Err(HeaderChoice(written, known, given).error)
  {
    match HeaderChoice(written, known, given)
    case Err(e) => Err(e)
    case Ok(h) => EncodeRow(h, fd, sd, nl, ignore)
  }

  /** What `WriteRows` writes before a row: nothing once the header is written, the known header's line otherwise. */
  function HeadOut(header: Option<seq<string>>, written: bool, fd: char, sd: Option<char>, nl: NewLine, ignore: bool)
    : (r: Result<seq<byte>>)
    ensures written ==> r == Ok([])
    ensures !written && header.None? ==> r == Err(ArgumentNull("header"))
  {
    if written then Ok([]) else HeaderOut(written, header, None, fd, sd, nl, ignore)
  }

  /** One round of `WriteRows` over the header known so far: the row is validated, the header goes out first when
      it has not been written yet, then the row. */
  function RowOut(row: seq<string>, header: Option<seq<string>>, written: bool, fd: char, sd: Option<char>,
                  nl: NewLine, ignore: bool): (w: Emitted)
    ensures w.outcome.Pass? ==> w.written
    ensures w.outcome.Fail? && |w.out| == 0 ==> w.written == written
  {
    match ValidateRow(row, header, ignore)
    case Fail(e) => Emitted(Fail(e), [], written)
    case Pass =>
      match HeadOut(header, written, fd, sd, nl, ignore)
      case Err(e) => Emitted(Fail(e), [], written)
      case Ok(hb) =>
        match EncodeRow(row, fd, sd, nl, ignore)
        case Err(e) => Emitted(Fail(e), hb, true)
        case Ok(rb) => Emitted(Pass, hb + rb, true)
  }

  /** `WriteRows` from row `i` on, once `done` has been written: nothing is left, or the round of row `i` comes
      next. */
  function RowsOut(rows: seq<seq<string>>, i: nat, header: Option<seq<string>>, written: bool, done: seq<byte>,
                   fd: char, sd: Option<char>, nl: NewLine, ignore: bool): (w: Emitted)
    requires i <= |rows|
    ensures w.outcome.Pass? ==> w.written == (written || i < |rows|)
    decreases |rows| - i, 1
  {
    if i == |rows| then Emitted(Pass, done, written) else RoundOut(rows, i, header, written, done, fd, sd, nl, ignore)
  }

  /** The round of row `i`, then the rows after it unless it fails. */
  function RoundOut(rows: seq<seq<string>>, i: nat, header: Option<seq<string>>, written: bool, done: seq<byte>,
                    fd: char, sd: Option<char>, nl: NewLine, ignore: bool): (w: Emitted)
    requires i < |rows|
    ensures w.outcome.Pass? ==> w.written
    decreases |rows| - i, 0
  {
    var w := RowOut(rows[i], header, written, fd, sd, nl, ignore);
    if w.outcome.Fail? then Emitted(w.outcome, done + w.out, w.written)
    else RowsOut(rows, i + 1, header, true, done + w.out, fd, sd, nl, ignore)
  }

  /** One round of `RowsOut`: once row `i` is written as `RowOut` says, the rows after it follow, unless it failed. */
  lemma RoundStep(rows: seq<seq<string>>, i: nat, header: Option<seq<string>>, written: bool, done: seq<byte>,
                  fd: char, sd: Option<char>, nl: NewLine, ignore: bool, o: Outcome, out: seq<byte>, written': bool)
    requires i < |rows| && RowOut(rows[i], header, written, fd, sd, nl, ignore) == Emitted(o, out, written')
    ensures RowsOut(rows, i, header, written, done, fd, sd, nl, ignore) ==
            if o.Fail? then Emitted(o, done + out, written')
            else RowsOut(rows, i + 1, header, written', done + out, fd, sd, nl, ignore)
  {
    assert RowsOut(rows, i, header, written, done, fd, sd, nl, ignore) ==
           RoundOut(rows, i, header, written, done, fd, sd, nl, ignore);
  }

  /* ------------------------------------------------------------------------------------------------------------ */
  /* The stream                                                                                                    */

  class CsvStream {
    const base: ByteStream
    const readBuffer: array<byte>
    const chunkSize: nat
    const fieldDelimiter: char
    const stringDelimiter: Option<char>
    var bufferIndex: nat
    var bufferPosition: nat
    var header: Option<seq<string>>
    var columnCount: Option<int>
    var headerWritten: bool
    var closed: bool
    var leaveOpen: bool

    ghost predicate Valid()
      reads this, base
    {
      && base.Valid()
      && bufferIndex <= bufferPosition <= readBuffer.Length
      && 4 <= chunkSize <= readBuffer.Length
      && (columnCount.Some? ==> columnCount.value >= 0)
    }

    /** The text still to come: the buffered bytes not consumed yet, then the rest of the base stream. */
    ghost function Unread(): seq<byte>
      reads this, base, readBuffer
      requires Valid()
    {
      readBuffer[bufferIndex..bufferPosition] + base.data[base.position..]
    }

    /** `IsEndOfData`. */
    predicate IsEndOfData()
      reads this, base
    {
      base.position == |base.data| && bufferIndex == bufferPosition
    }

    lemma EndOfDataIffNothingUnread()
      requires Valid()
      ensures IsEndOfData() <==> |Unread()| == 0
    {
    }

    /** The `ColumnCount` getter. */
    function ColumnCount(): (n: int)
      reads this
      ensures n == if columnCount.Some? then columnCount.value else 0
    {
      if columnCount.Some? then columnCount.value else 0
    }

    constructor Init(base: ByteStream, fd: char, sd: Option<char>, bufferSize: nat, chunkSize: nat, leaveOpen: bool)
      requires base.Valid() && 4 <= chunkSize <= bufferSize
      ensures Valid() && this.base == base && readBuffer.Length == bufferSize && fresh(readBuffer)
      ensures this.chunkSize == chunkSize && fieldDelimiter == fd && stringDelimiter == sd && this.leaveOpen == leaveOpen
      ensures bufferIndex == 0 && bufferPosition == 0 && header.None? && columnCount.None?
      ensures !headerWritten && !closed
    {
      this.base := base;
      readBuffer := new byte[bufferSize];
      this.chunkSize := chunkSize;
      fieldDelimiter, stringDelimiter := fd, sd;
      bufferIndex, bufferPosition := 0, 0;
      header, columnCount := None, None;
      headerWritten, closed := false, false;
      this.leaveOpen := leaveOpen;
    }

    /** `ResetBuffer`. */
    method ResetBuffer()
      requires Valid()
      modifies this`bufferIndex, this`bufferPosition
      ensures Valid() && bufferIndex == 0 && bufferPosition == 0
    {
      bufferIndex, bufferPosition := 0, 0;
    }

    /** `NormalizeReadBuffer`: the unconsumed bytes move to the front of the buffer. */
    method NormalizeReadBuffer()
      requires Valid()
      modifies this`bufferIndex, this`bufferPosition, readBuffer
      ensures Valid() && bufferIndex == 0 && bufferPosition == old(bufferPosition - bufferIndex)
      ensures readBuffer[..bufferPosition] == old(readBuffer[bufferIndex..bufferPosition])
      ensures Unread() == old(Unread())
      ensures old(bufferIndex) == 0 ==> readBuffer[..] == old(readBuffer[..])
    {
      if bufferIndex == 0 {
        return;
      }
      if bufferPosition == bufferIndex {
        ResetBuffer();
        return;
      }
      var n := bufferPosition - bufferIndex;
      var k := 0;
      while k < n
        modifies readBuffer
        invariant 0 <= k <= n
        invariant forall j :: 0 <= j < k ==> readBuffer[j] == old(readBuffer[bufferIndex + j])
        invariant forall j :: k <= j < readBuffer.Length ==> readBuffer[j] == old(readBuffer[j])
      {
        readBuffer[k] := readBuffer[bufferIndex + k];
        k := k + 1;
      }
      ghost var got, want := readBuffer[..n], old(readBuffer[bufferIndex..bufferPosition]);
      assert got == want by {
        forall j | 0 <= j < n ensures got[j] == want[j] {
          assert readBuffer[j] == old(readBuffer[bufferIndex + j]);
        }
      }
      bufferPosition := n;
      bufferIndex := 0;
    }

    /** The constructors: a buffer size below the chunk size, or a chunk size below four, is refused; a header, when
        one is given, fixes the column count. */
    static method Open(base: ByteStream, header: Option<seq<string>>, fd: char, sd: Option<char>, bufferSize: int,
                       chunkSize: int, leaveOpen: bool) returns (r: Result<CsvStream>)
      requires base.Valid()
      ensures bufferSize < chunkSize ==> r == Err(Argument("Invalid buffer size"))
      ensures chunkSize <= bufferSize && chunkSize < 4 ==> r == Err(Argument("Invalid chunk size"))
      ensures 4 <= chunkSize <= bufferSize ==>
                && r.Ok? && fresh(r.value) && fresh(r.value.readBuffer) && r.value.Valid()
                && r.value.base == base && r.value.readBuffer.Length == bufferSize && r.value.chunkSize == chunkSize
                && r.value.fieldDelimiter == fd && r.value.stringDelimiter == sd && r.value.leaveOpen == leaveOpen
                && r.value.header == header
                && r.value.columnCount == (if header.Some? then Some(|header.value|) else None)
                && !r.value.headerWritten && !r.value.closed
                && r.value.Unread() == base.data[base.position..]
    {
      if bufferSize < chunkSize {
        return Err(Argument("Invalid buffer size"));
      }
      if chunkSize < 4 {
        return Err(Argument("Invalid chunk size"));
      }
      var c := new CsvStream.Init(base, fd, sd, bufferSize, chunkSize, leaveOpen);
      c.header := header;
      c.columnCount := if header.Some? then Some(|header.value|) else None;
      return Ok(c);
    }

    /** `ValidateHeader`: the header to write, which becomes the known header when it is given. */
    method ValidateHeader(given: Option<seq<string>>) returns (r: Result<seq<string>>)
      requires Valid()
      modifies this`header, this`columnCount
      ensures Valid()
      ensures r == HeaderChoice(headerWritten, old(header), given)
      ensures if r.Ok? && given.Some? then header == given && columnCount == Some(|given.value|)
              else header == old(header) && columnCount == old(columnCount)
    {
      if headerWritten {
        return Err(InvalidOperation("Having header already - won't overwrite"));
      }
      if given.None? {
        if header.None? {
          return Err(ArgumentNull("header"));
        }
        return Ok(header.value);
      }
      if |given.value| < 1 {
        return Err(Argument("Missing columns"));
      }
      header := given;
      columnCount := Some(|given.value|);
      return Ok(given.value);
    }

    /** `WriteHeader`: the header line is written once. */
    method WriteHeader(given: Option<seq<string>>, nl: NewLine, ignore: bool) returns (o: Outcome)
      requires Valid()
      modifies this`header, this`columnCount, this`headerWritten, base`data, base`position
      ensures Valid()
      ensures closed ==> o == Fail(ObjectDisposed) && unchanged(this) && unchanged(base)
      ensures !closed ==>
                var bytes := HeaderOut(old(headerWritten), old(header), given, fieldDelimiter, stringDelimiter, nl, ignore);
                && o == (if bytes.Ok? then Pass else Fail(bytes.error))
                && (if HeaderChoice(old(headerWritten), old(header), given).Ok? && given.Some?
                    then header == given && columnCount == Some(|given.value|)
                    else header == old(header) && columnCount == old(columnCount))
                && headerWritten == (old(headerWritten) || bytes.Ok?)
                && base.data == (if bytes.Ok? then Overwrite(old(base.data), old(base.position), bytes.value) else old(base.data))
                && base.position == old(base.position) + (if bytes.Ok? then |bytes.value| else 0)
    {
      if closed {
        return Fail(ObjectDisposed);
      }
      var h := ValidateHeader(given);
      if h.Err? {
        return Fail(h.error);
      }
      var bytes := EncodeRow(h.value, fieldDelimiter, stringDelimiter, nl, ignore);
      if bytes.Err? {
        return Fail(bytes.error);
      }
      base.Write(bytes.value);
      headerWritten := true;
      return Pass;
    }

    /** `WriteRows`: the rows are validated and written one after the other, the header first if it has not been
        written yet. */
    method WriteRows(rows: seq<seq<string>>, nl: NewLine, ignore: bool) returns (o: Outcome)
      requires Valid()
      modifies this`header, this`columnCount, this`headerWritten, base`data, base`position
      ensures Valid() && header == old(header) && columnCount == old(columnCount)
      ensures closed ==> o == Fail(ObjectDisposed) && unchanged(this) && unchanged(base)
      ensures !closed ==>
                var w := RowsOut(rows, 0, header, old(headerWritten), [], fieldDelimiter, stringDelimiter, nl, ignore);
                && o == w.outcome && headerWritten == w.written
                && base.data == Overwrite(old(base.data), old(base.position), w.out)
                && base.position == old(base.position) + |w.out|
    {
      if closed {
        return Fail(ObjectDisposed);
      }
      o := WriteAll(rows, nl, ignore);
    }

    /** The loop of `WriteRows` on an open stream. */
    method WriteAll(rows: seq<seq<string>>, nl: NewLine, ignore: bool) returns (o: Outcome)
      requires Valid() && !closed
      modifies this`header, this`columnCount, this`headerWritten, base`data, base`position
      ensures Valid() && header == old(header) && columnCount == old(columnCount)
      ensures var w := RowsOut(rows, 0, header, old(headerWritten), [], fieldDelimiter, stringDelimiter, nl, ignore);
              && o == w.outcome && headerWritten == w.written
              && base.data == Overwrite(old(base.data), old(base.position), w.out)
              && base.position == old(base.position) + |w.out|
    {
      ghost var h, cc, fd, sd := header, columnCount, fieldDelimiter, stringDelimiter;
      ghost var goal := RowsOut(rows, 0, h, headerWritten, [], fd, sd, nl, ignore);
      ghost var d0, p0 := base.data, base.position;
      ghost var done: seq<byte> := [];
      OverwriteNothing(d0, p0);
      o := Pass;
      var index := 0;
      while index < |rows| && o.Pass?
        invariant Valid() && index <= |rows| && header == h && columnCount == cc
        invariant base.data == Overwrite(d0, p0, done) && base.position == p0 + |done|
        invariant o.Pass? ==> goal == RowsOut(rows, index, h, headerWritten, done, fd, sd, nl, ignore)
        invariant o.Fail? ==> goal == Emitted(o, done, headerWritten)
        decreases |rows| - index
      {
        ghost var out;
        o, out := WriteRound(rows, index, nl, ignore, d0, p0, done);
        done := done + out;
        index := index + 1;
      }
    }

    /** The body of the `WriteRows` loop for row `index`, after `done` has been written from `p0` on. */
    method WriteRound(rows: seq<seq<string>>, index: nat, nl: NewLine, ignore: bool, ghost d0: seq<byte>, ghost p0: nat,
                      ghost done: seq<byte>) returns (o: Outcome, ghost out: seq<byte>)
      requires Valid() && !closed && index < |rows|
      requires p0 <= |d0| && base.data == Overwrite(d0, p0, done) && base.position == p0 + |done|
      modifies this`header, this`columnCount, this`headerWritten, base`data, base`position
      ensures Valid() && header == old(header) && columnCount == old(columnCount)
      ensures RowsOut(rows, index, header, old(headerWritten), done, fieldDelimiter, stringDelimiter, nl, ignore) ==
              if o.Fail? then Emitted(o, done + out, headerWritten)
              else RowsOut(rows, index + 1, header, headerWritten, done + out, fieldDelimiter, stringDelimiter, nl, ignore)
      ensures base.data == Overwrite(d0, p0, done + out) && base.position == p0 + |done + out|
    {
      ghost var written := headerWritten;
      o, out := WriteRow(rows[index], nl, ignore);
      OverwriteTwice(d0, p0, done, out);
      RoundStep(rows, index, header, written, done, fieldDelimiter, stringDelimiter, nl, ignore, o, out, headerWritten);
    }

    /** `ValidateRow`, the header if it has not been written yet, then the row's line. */
    method WriteRow(row: seq<string>, nl: NewLine, ignore: bool) returns (o: Outcome, ghost out: seq<byte>)
      requires Valid() && !closed
      modifies this`header, this`columnCount, this`headerWritten, base`data, base`position
      ensures Valid() && header == old(header) && columnCount == old(columnCount)
      ensures RowOut(row, header, old(headerWritten), fieldDelimiter, stringDelimiter, nl, ignore) ==
              Emitted(o, out, headerWritten)
      ensures base.data == Overwrite(old(base.data), old(base.position), out)
      ensures base.position == old(base.position) + |out|
    {
      var v := ValidateRow(row, header, ignore);
      if v.Fail? {
        o, out := v, [];
        OverwriteNothing(base.data, base.position);
      } else {
        o, out := WriteChecked(row, nl, ignore);
      }
    }

    /** `WriteRow` once `ValidateRow` has passed: the header if it has not been written yet, then the row's line. */
    method WriteChecked(row: seq<string>, nl: NewLine, ignore: bool) returns (o: Outcome, ghost out: seq<byte>)
      requires Valid() && !closed && ValidateRow(row, header, ignore).Pass?
      modifies this`header, this`columnCount, this`headerWritten, base`data, base`position
      ensures Valid() && header == old(header) && columnCount == old(columnCount)
      ensures RowOut(row, header, old(headerWritten), fieldDelimiter, stringDelimiter, nl, ignore) ==
              Emitted(o, out, headerWritten)
      ensures base.data == Overwrite(old(base.data), old(base.position), out)
      ensures base.position == old(base.position) + |out|
    {
      ghost var d0, p0 := base.data, base.position;
      var oh;
      oh, out := EnsureHeader(nl, ignore);
      if oh.Fail? {
        o := oh;
      } else {
        var line := EncodeRow(row, fieldDelimiter, stringDelimiter, nl, ignore);
        if line.Err? {
          o := Fail(line.error);
        } else {
          base.Write(line.value);
          OverwriteTwice(d0, p0, out, line.value);
          out := out + line.value;
          o := Pass;
        }
      }
    }

    /** `if (!HeaderWritten) WriteHeader();` */
    method EnsureHeader(nl: NewLine, ignore: bool) returns (o: Outcome, ghost hb: seq<byte>)
      requires Valid() && !closed
      modifies this`header, this`columnCount, this`headerWritten, base`data, base`position
      ensures Valid() && header == old(header) && columnCount == old(columnCount)
      ensures var want := HeadOut(header, old(headerWritten), fieldDelimiter, stringDelimiter, nl, ignore);
              && o == (if want.Ok? then Pass else Fail(want.error))
              && hb == (if want.Ok? then want.value else [])
              && headerWritten == (old(headerWritten) || want.Ok?)
      ensures base.data == Overwrite(old(base.data), old(base.position), hb)
      ensures base.position == old(base.position) + |hb|
    {
      hb := [];
      OverwriteNothing(base.data, base.position);
      if headerWritten {
        return Pass, hb;
      }
      ghost var want := HeaderOut(headerWritten, header, None, fieldDelimiter, stringDelimiter, nl, ignore);
      o := WriteHeader(None, nl, ignore);
      if o.Pass? {
        hb := want.value;
      }
    }

    /** `ReadRow`: the row of the next line, or null at the end of the data. */
    method ReadRow(ignore: bool) returns (r: Result<Option<seq<string>>>)
      requires Valid()
      modifies this`bufferIndex, this`bufferPosition, readBuffer, base`position
      ensures Valid()
      ensures closed ==> r == Err(ObjectDisposed) && Unread() == old(Unread())
      ensures !closed ==>
                var (want, rest) := NextRow(old(Unread()), fieldDelimiter, stringDelimiter, ColumnCount(), ignore);
                || (r == want && Unread() == rest)
                || (r.Err? && BufferFault(r.error))
      ensures !closed && (|old(Unread())| == 0 || Roomy(old(Unread()), [NL], base.maxRead, chunkSize, readBuffer.Length)) ==>
                var (want, rest) := NextRow(old(Unread()), fieldDelimiter, stringDelimiter, ColumnCount(), ignore);
                r == want && Unread() == rest
    {
      if closed {
        return Err(ObjectDisposed);
      }
      ghost var u := Unread();
      if IsEndOfData() {
        return Ok(None);
      }
      var found := ReadUntil([NL]);
      if found.Err? {
        return Err(found.error);
      }
      var line := readBuffer[..bufferIndex];
      var res := CsvParser.ParseHeaderFromString(DecodeBytes(line), fieldDelimiter, stringDelimiter);
      if res.Err? {
        return Err(res.error);
      }
      if res.value.None? {
        if !ignore && ColumnCount() > 0 {
          return Err(NullReference);
        }
        return Ok(None);
      }
      if !ignore && ColumnCount() > 0 && |res.value.value| != ColumnCount() {
        return Err(InvalidData("Invalid field count"));
      }
      return Ok(res.value);
    }

    /** `Rows`: `ReadRow` until it returns null. An exception ends the enumeration; it is returned with the rows
        yielded before it. Only a buffer fault can make the enumeration differ from `StreamRows`, and then it has
        yielded a prefix of those rows. */
    method Rows(ignore: bool) returns (d: Drain)
      requires Valid()
      modifies this`bufferIndex, this`bufferPosition, readBuffer, base`position
      ensures Valid()
      ensures closed ==> d == Drain([], Some(ObjectDisposed)) && Unread() == old(Unread())
      ensures !closed ==> DrainEnd(old(Unread()), Unread(), d, fieldDelimiter, stringDelimiter, ColumnCount(), ignore,
                                   AllRoomy(old(Unread()), base.maxRead, chunkSize, readBuffer.Length))
    {
      if closed {
        return Drain([], Some(ObjectDisposed));
      }
      d := Drained(ignore, Unread());
    }

    /** The loop of `Rows` on an open stream. */
    method Drained(ignore: bool, ghost u: seq<byte>) returns (d: Drain)
      requires Valid() && !closed && u == Unread()
      modifies this`bufferIndex, this`bufferPosition, readBuffer, base`position
      ensures Valid()
      ensures DrainEnd(u, Unread(), d, fieldDelimiter, stringDelimiter, ColumnCount(), ignore,
                       AllRoomy(u, base.maxRead, chunkSize, readBuffer.Length))
    {
      ghost var cc := ColumnCount();
      ghost var fd, sd := fieldDelimiter, stringDelimiter;
      ghost var m, chunk, size := base.maxRead, chunkSize, readBuffer.Length;
      ghost var room := AllRoomy(u, m, chunk, size);
      ghost var v := u;
      var rows: seq<seq<string>> := [];
      var done := false;
      d := Drain([], None);
      while !done
        invariant Valid() && v == Unread() && cc == ColumnCount() && m == base.maxRead
        invariant room ==> AllRoomy(v, m, chunk, size)
        invariant !done ==> DrainPending(u, v, rows, fd, sd, cc, ignore)
        invariant done ==> DrainEnd(u, v, d, fd, sd, cc, ignore, room)
        decreases if done then 0 else 1, |v|
      {
        done, d, rows, v := DrainTurn(ignore, u, v, rows, room);
      }
    }

    /** One turn of the `Rows` loop: a row is appended to those yielded so far, or the enumeration ends. */
    method DrainTurn(ignore: bool, ghost u: seq<byte>, ghost v: seq<byte>, rows: seq<seq<string>>, ghost room: bool)
      returns (done: bool, d: Drain, rows': seq<seq<string>>, ghost v': seq<byte>)
      requires Valid() && !closed && v == Unread()
      requires DrainPending(u, v, rows, fieldDelimiter, stringDelimiter, ColumnCount(), ignore)
      requires room ==> AllRoomy(v, base.maxRead, chunkSize, readBuffer.Length)
      modifies this`bufferIndex, this`bufferPosition, readBuffer, base`position
      ensures Valid() && v' == Unread()
      ensures room ==> AllRoomy(v', base.maxRead, chunkSize, readBuffer.Length)
      ensures !done ==> |v'| < |v| && DrainPending(u, v', rows', fieldDelimiter, stringDelimiter, ColumnCount(), ignore)
      ensures done ==> DrainEnd(u, v', d, fieldDelimiter, stringDelimiter, ColumnCount(), ignore, room)
    {
      ghost var cc := ColumnCount();
      ghost var fd, sd := fieldDelimiter, stringDelimiter;
      var r;
      r, v' := ReadRound(ignore, v);
      rows' := rows;
      if r.Err? || r.value.None? {
        d := if r.Err? then Drain(rows, Some(r.error)) else Drain(rows, None);
        DrainEnds(u, v, v', rows, r, fd, sd, cc, ignore, room, d);
        done := true;
      } else {
        Regroup(rows, [r.value.value], StreamRows(v', fd, sd, cc, ignore).rows);
        rows' := rows + [r.value.value];
        d := Drain([], None);
        done := false;
      }
    }

    /** The body of the `Rows` loop: one `ReadRow`, stated in terms of the enumeration it takes part in. */
    method ReadRound(ignore: bool, ghost u: seq<byte>) returns (r: Result<Option<seq<string>>>, ghost v: seq<byte>)
      requires Valid() && !closed && u == Unread()
      modifies this`bufferIndex, this`bufferPosition, readBuffer, base`position
      ensures Valid() && v == Unread()
      ensures DrainRound(u, v, r, fieldDelimiter, stringDelimiter, ColumnCount(), ignore,
                         AllRoomy(u, base.maxRead, chunkSize, readBuffer.Length))
      ensures AllRoomy(u, base.maxRead, chunkSize, readBuffer.Length) ==>
                AllRoomy(v, base.maxRead, chunkSize, readBuffer.Length)
    {
      DrainStep(u, fieldDelimiter, stringDelimiter, ColumnCount(), ignore);
      r := ReadRow(ignore);
      v := Unread();
    }

    /** `PeekField`: the first field of the next row, if the bytes up to the first field delimiter or newline end
        with the field delimiter; nothing is consumed. */
    method PeekField() returns (r: Result<Option<string>>)
      requires Valid()
      modifies this`bufferIndex, this`bufferPosition, readBuffer, base`position
      ensures Valid()
      ensures closed ==> r == Err(ObjectDisposed) && Unread() == old(Unread())
      ensures !closed ==>
                var u := old(Unread());
                || (r == PeekOf(u, fieldDelimiter, stringDelimiter) &&
                    Unread() == if r.Ok? then u else u[LineEnd(u, [ByteOf(fieldDelimiter), NL])..])
                || (r.Err? && BufferFault(r.error))
      ensures !closed && Roomy(old(Unread()), [ByteOf(fieldDelimiter), NL], base.maxRead, chunkSize, readBuffer.Length)
              ==> r == PeekOf(old(Unread()), fieldDelimiter, stringDelimiter)
    {
      if closed {
        return Err(ObjectDisposed);
      }
      ghost var u := Unread();
      if IsEndOfData() {
        return Ok(None);
      }
      var found := ReadUntil([ByteOf(fieldDelimiter), NL]);
      if found.Err? {
        return Err(found.error);
      }
      var n := bufferIndex;
      r := FieldOf(readBuffer[..n], fieldDelimiter, stringDelimiter);
      if r.Err? {
        return;
      }
      bufferIndex := 0;
      Rewound(readBuffer, n, bufferPosition, base.data[base.position..], u);
    }

    /** `ReadHeader`: the row of the next line becomes the header. */
    method ReadHeader() returns (r: Result<seq<string>>)
      requires Valid()
      modifies this`header, this`bufferIndex, this`bufferPosition, readBuffer, base`position
      ensures Valid()
      ensures closed ==> r == Err(ObjectDisposed) && Unread() == old(Unread())
      ensures !closed && old(header).Some? ==>
                r == Err(InvalidOperation("Having header already - won't overwrite")) && Unread() == old(Unread())
      ensures !closed && old(header).None? && |old(Unread())| == 0 ==>
                r == Err(InvalidData("No header")) && Unread() == old(Unread())
      ensures !closed && old(header).None? && |old(Unread())| > 0 ==>
                var u := old(Unread());
                var n := LineEnd(u, [NL]);
                || (r == HeaderLine(u[..n], fieldDelimiter, stringDelimiter) && Unread() == u[n..])
                || (r.Err? && BufferFault(r.error))
      ensures !closed && old(header).None? && Roomy(old(Unread()), [NL], base.maxRead, chunkSize, readBuffer.Length)
              && |old(Unread())| > 0 ==>
                r == HeaderLine(old(Unread())[..LineEnd(old(Unread()), [NL])], fieldDelimiter, stringDelimiter)
      ensures header == if r.Ok? then Some(r.value) else old(header)
    {
      if closed {
        return Err(ObjectDisposed);
      }
      if header.Some? {
        return Err(InvalidOperation("Having header already - won't overwrite"));
      }
      if IsEndOfData() {
        return Err(InvalidData("No header"));
      }
      var found := ReadUntil([NL]);
      if found.Err? {
        return Err(found.error);
      }
      var res := CsvParser.ParseHeaderFromString(DecodeBytes(readBuffer[..bufferIndex]), fieldDelimiter, stringDelimiter);
      if res.Err? {
        return Err(res.error);
      }
      if res.value.None? {
        return Err(ArgumentNull("source"));
      }
      header := res.value;
      return Ok(res.value.value);
    }

    /** `SkipHeader`: reads the header line, refusing to when a header is known. */
    method SkipHeader() returns (o: Outcome)
      requires Valid()
      modifies this`header, this`bufferIndex, this`bufferPosition, readBuffer, base`position
      ensures Valid()
      ensures closed ==> o == Fail(ObjectDisposed) && Unread() == old(Unread()) && header == old(header)
      ensures !closed && old(header).Some? ==>
                o == Fail(InvalidOperation("Having header already")) && Unread() == old(Unread()) && header == old(header)
      ensures !closed && old(header).None? && |old(Unread())| == 0 ==>
                o == Fail(InvalidData("No header")) && header.None?
      ensures !closed && old(header).None? && |old(Unread())| > 0 ==>
                var u := old(Unread());
                var n := LineEnd(u, [NL]);
                var want := HeaderLine(u[..n], fieldDelimiter, stringDelimiter);
                || (o == (if want.Ok? then Pass else Fail(want.error)) && Unread() == u[n..] &&
                    header == (if want.Ok? then Some(want.value) else None))
                || (o.Fail? && BufferFault(o.error) && header.None?)
    {
      if closed {
        return Fail(ObjectDisposed);
      }
      if header.Some? {
        return Fail(InvalidOperation("Having header already"));
      }
      var r := ReadHeader();
      o := if r.Ok? then Pass else Fail(r.error);
    }

    /** The `ColumnCount` setter: only without a header; a count below one means no count. */
    method SetColumnCount(value: int) returns (o: Outcome)
      requires Valid()
      modifies this`columnCount
      ensures Valid()
      ensures old(header).Some? ==> o == Fail(InvalidOperation("Header set already")) && columnCount == old(columnCount)
      ensures old(header).None? ==> o == Pass && columnCount == (if value < 1 then None else Some(value))
      ensures ColumnCount() == if o.Pass? then (if value < 1 then 0 else value) else old(ColumnCount())
    {
      if header.Some? {
        return Fail(InvalidOperation("Header set already"));
      }
      columnCount := if value < 1 then None else Some(value);
      return Pass;
    }

    /** `CountRows`: the rows `Rows` yields from here on are counted, and the base stream's position is put back
        where it was, also when the count fails. The read buffer is not put back: when the count drains every
        byte, the bytes that were buffered before it are no longer unread. */
    method CountRows(ignore: bool) returns (r: Result<nat>)
      requires Valid()
      modifies this`bufferIndex, this`bufferPosition, readBuffer, base`position
      ensures Valid() && base.position == old(base.position)
      ensures closed ==> r == Err(ObjectDisposed) && Unread() == old(Unread())
      ensures !closed ==>
                var want := CountOf(StreamRows(old(Unread()), fieldDelimiter, stringDelimiter, ColumnCount(), ignore));
                r == want || (r.Err? && BufferFault(r.error))
      ensures !closed && AllRoomy(old(Unread()), base.maxRead, chunkSize, readBuffer.Length) ==>
                && r == CountOf(StreamRows(old(Unread()), fieldDelimiter, stringDelimiter, ColumnCount(), ignore))
                && (|DrainRest(old(Unread()), fieldDelimiter, stringDelimiter, ColumnCount(), ignore)| == 0 ==>
                      Unread() == old(base.data[base.position..]))
    {
      if closed {
        return Err(ObjectDisposed);
      }
      var offset := base.position;
      var d := Rows(ignore);
      base.Seek(offset);
      r := CountOf(d);
    }

    /** `ToDictionary`: the first `ColumnCount` header names mapped to the row's fields. */
    method ToDictionary(row: seq<string>) returns (r: Result<map<string, string>>)
      requires Valid()
      ensures r == RowDictionary(header, row, ColumnCount())
    {
      if header.None? {
        return Err(ArgumentNull("source"));
      }
      var h := header.value;
      var count := ColumnCount();
      if count > |h| || count > |row| {
        return Err(IndexOutOfRange);
      }
      var m := FillDictionary(h, row, count);
      return Ok(m);
    }

    /** `ReadDictionary`: without a column count nothing is read; otherwise the dictionary of the row `ReadRow`
        reads, or null when it reads null. */
    method ReadDictionary(ignore: bool) returns (r: Result<Option<map<string, string>>>)
      requires Valid()
      modifies this`bufferIndex, this`bufferPosition, readBuffer, base`position
      ensures Valid()
      ensures ColumnCount() < 1 ==> r == Err(InvalidOperation("No columns")) && Unread() == old(Unread())
      ensures ColumnCount() >= 1 && closed ==> r == Err(ObjectDisposed) && Unread() == old(Unread())
      ensures ColumnCount() >= 1 && !closed ==>
                var (want, rest) := NextRow(old(Unread()), fieldDelimiter, stringDelimiter, ColumnCount(), ignore);
                || (r == DictionaryOf(want, header, ColumnCount()) && Unread() == rest)
                || (r.Err? && BufferFault(r.error))
      ensures ColumnCount() >= 1 && !closed &&
              (|old(Unread())| == 0 || Roomy(old(Unread()), [NL], base.maxRead, chunkSize, readBuffer.Length)) ==>
                var (want, rest) := NextRow(old(Unread()), fieldDelimiter, stringDelimiter, ColumnCount(), ignore);
                r == DictionaryOf(want, header, ColumnCount()) && Unread() == rest
    {
      if ColumnCount() < 1 {
        return Err(InvalidOperation("No columns"));
      }
      var row := ReadRow(ignore);
      if row.Err? {
        return Err(row.error);
      }
      if row.value.None? {
        return Ok(None);
      }
      var m := ToDictionary(row.value.value);
      if m.Err? {
        return Err(m.error);
      }
      return Ok(Some(m.value));
    }

    /** `AsDictionaries`: `ReadDictionary` until it returns null. Without a column count the first call fails;
        only a buffer fault can make the enumeration differ from `StreamDicts`. */
    method AsDictionaries(ignore: bool) returns (d: DictDrain)
      requires Valid()
      modifies this`bufferIndex, this`bufferPosition, readBuffer, base`position
      ensures Valid()
      ensures ColumnCount() < 1 ==> d == DictDrain([], Some(InvalidOperation("No columns"))) && Unread() == old(Unread())
      ensures ColumnCount() >= 1 && closed ==> d == DictDrain([], Some(ObjectDisposed)) && Unread() == old(Unread())
      ensures ColumnCount() >= 1 && !closed ==>
                DictEnd(old(Unread()), Unread(), d, header, fieldDelimiter, stringDelimiter, ColumnCount(), ignore,
                        AllRoomy(old(Unread()), base.maxRead, chunkSize, readBuffer.Length))
    {
      if ColumnCount() < 1 {
        return DictDrain([], Some(InvalidOperation("No columns")));
      }
      if closed {
        return DictDrain([], Some(ObjectDisposed));
      }
      d := DictsDrained(ignore, Unread());
    }

    /** The loop of `AsDictionaries` on an open stream with a column count. */
    method DictsDrained(ignore: bool, ghost u: seq<byte>) returns (d: DictDrain)
      requires Valid() && !closed && ColumnCount() >= 1 && u == Unread()
      modifies this`bufferIndex, this`bufferPosition, readBuffer, base`position
      ensures Valid()
      ensures DictEnd(u, Unread(), d, header, fieldDelimiter, stringDelimiter, ColumnCount(), ignore,
                      AllRoomy(u, base.maxRead, chunkSize, readBuffer.Length))
    {
      ghost var cc: nat := ColumnCount();
      ghost var h, fd, sd := header, fieldDelimiter, stringDelimiter;
      ghost var m, chunk, size := base.maxRead, chunkSize, readBuffer.Length;
      ghost var room := AllRoomy(u, m, chunk, size);
      ghost var v := u;
      var dicts: seq<map<string, string>> := [];
      var done := false;
      d := DictDrain([], None);
      while !done
        invariant Valid() && v == Unread() && cc == ColumnCount() && h == header && m == base.maxRead
        invariant room ==> AllRoomy(v, m, chunk, size)
        invariant !done ==> DictsPending(u, v, dicts, h, fd, sd, cc, ignore)
        invariant done ==> DictEnd(u, v, d, h, fd, sd, cc, ignore, room)
        decreases if done then 0 else 1, |v|
      {
        done, d, dicts, v := DictsTurn(ignore, u, v, dicts, room);
      }
    }

    /** One turn of the `AsDictionaries` loop, as `DrainTurn` for rows. */
    method DictsTurn(ignore: bool, ghost u: seq<byte>, ghost v: seq<byte>, dicts: seq<map<string, string>>,
                     ghost room: bool)
      returns (done: bool, d: DictDrain, dicts': seq<map<string, string>>, ghost v': seq<byte>)
      requires Valid() && !closed && ColumnCount() >= 1 && v == Unread()
      requires DictsPending(u, v, dicts, header, fieldDelimiter, stringDelimiter, ColumnCount(), ignore)
      requires room ==> AllRoomy(v, base.maxRead, chunkSize, readBuffer.Length)
      modifies this`bufferIndex, this`bufferPosition, readBuffer, base`position
      ensures Valid() && v' == Unread()
      ensures room ==> AllRoomy(v', base.maxRead, chunkSize, readBuffer.Length)
      ensures !done ==> |v'| < |v| &&
                        DictsPending(u, v', dicts', header, fieldDelimiter, stringDelimiter, ColumnCount(), ignore)
      ensures done ==> DictEnd(u, v', d, header, fieldDelimiter, stringDelimiter, ColumnCount(), ignore, room)
    {
      ghost var cc: nat := ColumnCount();
      ghost var h, fd, sd := header, fieldDelimiter, stringDelimiter;
      var r;
      r, v' := ReadDictRound(ignore, v);
      dicts' := dicts;
      if r.Err? || r.value.None? {
        d := if r.Err? then DictDrain(dicts, Some(r.error)) else DictDrain(dicts, None);
        DictEnds(u, v, v', dicts, r, h, fd, sd, cc, ignore, room, d);
        done := true;
      } else {
        Regroup(dicts, [r.value.value], StreamDicts(v', h, fd, sd, cc, ignore).dicts);
        dicts' := dicts + [r.value.value];
        d := DictDrain([], None);
        done := false;
      }
    }

    /** The body of the `AsDictionaries` loop: one `ReadDictionary`, stated in terms of the enumeration. */
    method ReadDictRound(ignore: bool, ghost u: seq<byte>)
      returns (r: Result<Option<map<string, string>>>, ghost v: seq<byte>)
      requires Valid() && !closed && ColumnCount() >= 1 && u == Unread()
      modifies this`bufferIndex, this`bufferPosition, readBuffer, base`position
      ensures Valid() && v == Unread()
      ensures DictRound(u, v, r, header, fieldDelimiter, stringDelimiter, ColumnCount(), ignore,
                        AllRoomy(u, base.maxRead, chunkSize, readBuffer.Length))
      ensures AllRoomy(u, base.maxRead, chunkSize, readBuffer.Length) ==>
                AllRoomy(v, base.maxRead, chunkSize, readBuffer.Length)
    {
      DictStep(u, header, fieldDelimiter, stringDelimiter, ColumnCount(), ignore);
      r := ReadDictionary(ignore);
      v := Unread();
    }

    /** `Close`: closes the base stream unless it is to be left open; closing twice does nothing. */
    method Close()
      requires Valid()
      modifies this`closed, base`closed
      ensures Valid() && closed
      ensures base.closed == (old(base.closed) || (!old(closed) && !leaveOpen))
    {
      if closed {
        return;
      }
      closed := true;
      if !leaveOpen {
        base.Close();
      }
    }

    /** `ReadUntil(stops)`: consumes the unread bytes up to and including the first stop byte, refilling the buffer
        from the base stream a chunk at a time, and tells whether a stop byte was found. The consumed bytes are
        then at the front of the buffer. A refill that does not fit the buffer fails as the base stream's `Read`
        does, and a short read is an `IOException`. */
    method ReadUntil(stops: seq<byte>) returns (r: Result<bool>)
      requires Valid()
      modifies this`bufferIndex, this`bufferPosition, readBuffer, base`position
      ensures Valid()
      ensures r.Ok? ==>
                var u := old(Unread());
                var n := LineEnd(u, stops);
                && r.value == FirstStop(u, 0, stops).Some?
                && bufferIndex == n && readBuffer[..n] == u[..n] && Unread() == u[n..]
      ensures r == Ok(false) ==> IsEndOfData()
      ensures r.Err? ==> r.error.Argument? || r.error == IOFailure
      ensures Roomy(old(Unread()), stops, base.maxRead, chunkSize, readBuffer.Length) ==> r.Ok?
    {
      ghost var u := Unread();
      NormalizeReadBuffer();
      while true
        invariant Valid()
        invariant readBuffer[..bufferPosition] + base.data[base.position..] == u
        invariant FirstStop(u, bufferIndex, stops) == FirstStop(u, 0, stops)
        decreases |base.data| - base.position, bufferPosition - bufferIndex
      {
        if bufferPosition == bufferIndex {
          if base.position == |base.data| {
            break;
          }
          var o := Refill(u, stops);
          if o.Fail? {
            return Err(o.error);
          }
        }
        var found := ScanFor(stops, u);
        if found {
          Consumed(readBuffer, bufferIndex, bufferPosition, base.data[base.position..]);
          return Ok(true);
        }
      }
      Consumed(readBuffer, bufferIndex, bufferPosition, base.data[base.position..]);
      return Ok(false);
    }

    /** The refill step of `ReadUntil`: a chunk, or what is left of the base stream if less, read in behind the
        buffered bytes, all of which have been scanned. */
    method Refill(ghost u: seq<byte>, ghost stops: seq<byte>) returns (o: Outcome)
      requires Valid() && bufferIndex == bufferPosition && base.position < |base.data|
      requires readBuffer[..bufferPosition] + base.data[base.position..] == u
      requires FirstStop(u, bufferIndex, stops) == FirstStop(u, 0, stops)
      modifies this`bufferPosition, readBuffer, base`position
      ensures Valid()
      ensures o.Pass? ==> && readBuffer[..bufferPosition] + base.data[base.position..] == u
                          && base.position > old(base.position)
      ensures o.Fail? ==> o.error.Argument? || o.error == IOFailure
      ensures Roomy(u, stops, base.maxRead, chunkSize, readBuffer.Length) ==> o.Pass?
    {
      var len := Min(Min(readBuffer.Length, chunkSize), |base.data| - base.position);
      assert 0 < len;
      ghost var pre := readBuffer[..bufferPosition];
      ghost var position := base.position;
      assert Roomy(u, stops, base.maxRead, chunkSize, readBuffer.Length) ==> bufferPosition + len <= readBuffer.Length by {
        StopsAhead(u, bufferPosition, stops);
      }
      var red := base.Read(readBuffer, bufferPosition, len);
      if red.Err? {
        o := Fail(red.error);
      } else if red.value != len {
        o := Fail(IOFailure);
      } else {
        bufferPosition := bufferPosition + len;
        Refilled(readBuffer, pre, bufferPosition, base.data, position, base.position);
        o := Pass;
      }
    }

    /** The scanning step of `ReadUntil`: the cursor moves over the buffered bytes to just behind the first stop
        byte, or to the end of the buffered bytes. */
    method ScanFor(stops: seq<byte>, ghost u: seq<byte>) returns (found: bool)
      requires Valid()
      requires readBuffer[..bufferPosition] + base.data[base.position..] == u
      requires FirstStop(u, bufferIndex, stops) == FirstStop(u, 0, stops)
      modifies this`bufferIndex
      ensures Valid() && bufferIndex >= old(bufferIndex)
      ensures found ==> 0 < bufferIndex && FirstStop(u, 0, stops) == Some(bufferIndex - 1)
      ensures !found ==> bufferIndex == bufferPosition && FirstStop(u, bufferIndex, stops) == FirstStop(u, 0, stops)
    {
      while bufferIndex < bufferPosition
        invariant old(bufferIndex) <= bufferIndex <= bufferPosition
        invariant FirstStop(u, bufferIndex, stops) == FirstStop(u, 0, stops)
      {
        if readBuffer[bufferIndex] in stops {
          assert u[bufferIndex] == readBuffer[bufferIndex];
          bufferIndex := bufferIndex + 1;
          return true;
        }
        bufferIndex := bufferIndex + 1;
      }
      return false;
    }
  }
}
