/**
 * The writing side of `CsvStream`, in both source trees: `GetFinalField` quotes one field, `EncodeRow` joins the
 * quoted fields of a row and ends the line, and `ValidateRow` checks a row before it is written. All three are pure;
 * the header bookkeeping of `WriteHeader`/`WriteRows` is in module Stream.
 *
 * The main result is the round trip: the tokenizer reads an encoded row back as the row itself.
 */
module CsvWriter {
  import opened Wrappers
  import opened Text
  import opened Tokenizer

  /** `Environment.NewLine`, which ends every written line. */
  datatype NewLine = LF | CRLF

  function NewLineText(nl: NewLine): (s: string)
    ensures |s| > 0 && s[|s| - 1] == '\n'
  {
    if nl.LF? then "\n" else "\r\n"
  }

  /** `field.Replace(q, qq)`: every string delimiter doubled. */
  function Double(f: string, q: char): (r: string)
    ensures |r| >= |f|
    ensures q !in f ==> r == f
    decreases |f|
  {
    if |f| == 0 then ""
    else (if f[0] == q then [q, q] else [f[0]]) + Double(f[1..], q)
  }

  /** A field is written in quotes exactly when it holds the field delimiter or the string delimiter. */
  predicate NeedsQuotes(f: string, fd: char, sd: Option<char>)
  {
    fd in f || (sd.Some? && sd.value in f)
  }

  /** `GetFinalField`: the field as written. Without a string delimiter a field that would need quotes is an error,
      or is written as it is in ignore mode. */
  function FinalField(f: string, fd: char, sd: Option<char>, ignore: bool): (r: Result<string>)
    ensures !NeedsQuotes(f, fd, sd) ==> r == Ok(f)
    ensures NeedsQuotes(f, fd, sd) && sd.None? ==>
              r == if ignore then Ok(f) else Err(InvalidData("String delimiter required"))
    ensures NeedsQuotes(f, fd, sd) && sd.Some? ==>
              r.Ok? && |r.value| >= |f| + 2 && r.value[0] == sd.value && r.value[|r.value| - 1] == sd.value
  {
    if NeedsQuotes(f, fd, sd) && sd.None? then (if ignore then Ok(f) else Err(InvalidData("String delimiter required")))
    else Ok(Written(f, fd, sd))
  }

  /** The text of a field that can be written: quoted, with its string delimiters doubled, exactly when it needs it. */
  function Written(f: string, fd: char, sd: Option<char>): string
  {
    if NeedsQuotes(f, fd, sd) && sd.Some? then [sd.value] + Double(f, sd.value) + [sd.value] else f
  }

  /** `from field in row select GetFinalField(field)`, evaluated in order: the first failing field decides. */
  function FinalFields(row: seq<string>, fd: char, sd: Option<char>, ignore: bool): (r: Result<seq<string>>)
    ensures r.Ok? <==> forall k :: 0 <= k < |row| ==> FinalField(row[k], fd, sd, ignore).Ok?
    ensures r.Ok? ==> |r.value| == |row| &&
                      forall k :: 0 <= k < |row| ==> r.value[k] == FinalField(row[k], fd, sd, ignore).value
    decreases |row|
  {
    if |row| == 0 then Ok([])
    else
      match FinalField(row[0], fd, sd, ignore)
      case Err(e) => Err(e)
      case Ok(x) =>
        match FinalFields(row[1..], fd, sd, ignore)
        case Err(e) => Err(e)
        case Ok(xs) =>
          assert forall k :: 1 <= k < |row| ==> row[k] == row[1..][k - 1];
          Ok([x] + xs)
  }

  /** The text of `EncodeRow`: the final fields joined with the field delimiter, then the line end. */
  function RowText(row: seq<string>, fd: char, sd: Option<char>, nl: NewLine, ignore: bool): (r: Result<string>)
    ensures r.Ok? ==> |r.value| > 0 && r.value[|r.value| - 1] == '\n'
  {
    match FinalFields(row, fd, sd, ignore)
    case Err(e) => Err(e)
    case Ok(fields) => Ok(Join(fd, fields) + NewLineText(nl))
  }

  /** `EncodeRow`: the bytes of that text, one byte per character. */
  function EncodeRow(row: seq<string>, fd: char, sd: Option<char>, nl: NewLine, ignore: bool): (r: Result<seq<byte>>)
    ensures r.Ok? <==> RowText(row, fd, sd, nl, ignore).Ok?
    ensures r.Ok? ==> |r.value| == |RowText(row, fd, sd, nl, ignore).value|
  {
    match RowText(row, fd, sd, nl, ignore)
    case Err(e) => Err(e)
    case Ok(s) => Ok(EncodeText(s))
  }

  /** `ValidateRow` against the header known so far: in ignore mode a row needs a field, otherwise the width of a
      known header. */
  function ValidateRow(row: seq<string>, header: Option<seq<string>>, ignore: bool): (o: Outcome)
    ensures o.Fail? <==> (if ignore then |row| == 0 else header.Some? && |row| != |header.value|)
  {
    if ignore then (if |row| == 0 then Fail(Argument("No fields in row")) else Pass)
    else if header.Some? && |row| != |header.value| then Fail(Argument("Invalid field count in row"))
    else Pass
  }

  /** The texts of several rows, one after the other, as `WriteRows` writes them. */
  function RowsText(rows: seq<seq<string>>, fd: char, sd: Option<char>, nl: NewLine, ignore: bool)
    : (r: Result<string>)
    decreases |rows|
  {
    if |rows| == 0 then Ok("")
    else
      match RowText(rows[0], fd, sd, nl, ignore)
      case Err(e) => Err(e)
      case Ok(line) =>
        match RowsText(rows[1..], fd, sd, nl, ignore)
        case Err(e) => Err(e)
        case Ok(rest) => Ok(line + rest)
  }

  /* ------------------------------------------------------------------------------------------------------------ */
  /* Reading written rows back                                                                                     */

  /** Delimiters the tokenizer can tell apart from each other and from the line end. */
  predicate Delimiters(fd: char, sd: Option<char>)
  {
    fd != '\r' && fd != '\n' && (sd.Some? ==> sd.value != fd && sd.value != '\r' && sd.value != '\n')
  }

  /** A field that survives writing and reading: no newline (the writer does not quote line breaks), no trailing
      '\r' (the reader trims one before the newline), and no field delimiter when nothing could quote it. */
  predicate Writable(f: string, fd: char, sd: Option<char>)
  {
    '\n' !in f && (|f| == 0 || f[|f| - 1] != '\r') && (sd.None? ==> fd !in f)
  }

  /** A row that survives writing and reading: at least one field, every field writable. */
  predicate WritableRow(row: seq<string>, fd: char, sd: Option<char>)
  {
    |row| > 0 && forall k :: 0 <= k < |row| ==> Writable(row[k], fd, sd)
  }

  /** Every row writable, stated row by row. */
  predicate WritableRows(rows: seq<seq<string>>, fd: char, sd: Option<char>)
    decreases |rows|
  {
    |rows| == 0 || (WritableRow(rows[0], fd, sd) && WritableRows(rows[1..], fd, sd))
  }

  lemma {:induction false} AllWritableRows(rows: seq<seq<string>>, fd: char, sd: Option<char>)
    requires forall r :: 0 <= r < |rows| ==> WritableRow(rows[r], fd, sd)
    ensures WritableRows(rows, fd, sd)
    decreases |rows|
  {
    if |rows| > 0 {
      assert forall r :: 0 <= r < |rows| - 1 ==> rows[1..][r] == rows[r + 1];
      AllWritableRows(rows[1..], fd, sd);
    }
  }

  /** The row with `f` appended to its last field. */
  function AppendLast(row: seq<string>, f: string): (r: seq<string>)
    requires |row| > 0
    ensures |r| == |row|
  {
    row[|row| - 1 := row[|row| - 1] + f]
  }

  /** The look-behind after `f` was read from look-behind `p`. */
  function LastOf(f: string, p: Option<char>): Option<char>
  {
    if |f| == 0 then p else Some(f[|f| - 1])
  }

  /** The look-behind after a written field. */
  function FieldEnd(f: string, fd: char, sd: Option<char>): Option<char>
  {
    if NeedsQuotes(f, fd, sd) && sd.Some? then sd else LastOf(f, None)
  }

  lemma {:induction false} PlainFieldSteps(f: string, row: seq<string>, p: Option<char>, fd: char, sd: Option<char>)
    requires |row| > 0 && fd !in f && '\n' !in f && (sd.None? || sd.value !in f)
    ensures Steps(f, State(row, true, p), fd, sd) == Next(State(AppendLast(row, f), true, LastOf(f, p)))
    decreases |f|
  {
    var last := |row| - 1;
    if |f| == 0 {
      assert row[last] + f == row[last];
      assert AppendLast(row, f) == row;
    } else {
      var c := f[0];
      assert c in f;
      var rest := f[1..];
      assert forall x | x in rest :: x in f;
      var row' := AppendLast(row, [c]);
      assert Step(c, State(row, true, p), fd, sd) == Next(State(row', true, Some(c)));
      PlainFieldSteps(rest, row', Some(c), fd, sd);
      assert row[last] + [c] + rest == row[last] + f by { assert [c] + rest == f; }
      assert AppendLast(row', rest) == AppendLast(row, f);
    }
  }

  /** Steps over a one-character text is one step. */
  lemma StepsSingle(c: char, st: State, fd: char, sd: Option<char>)
    requires |st.row| > 0
    ensures Steps([c], st, fd, sd) == Step(c, st, fd, sd)
  {
    assert [c][0] == c && [c][1..] == [];
  }

  /** Inside quotes, a doubled string delimiter adds one delimiter to the field. */
  lemma DoubledSteps(row: seq<string>, p: Option<char>, fd: char, q: char)
    requires |row| > 0
    ensures Steps([q, q], State(row, false, p), fd, Some(q)) == Next(State(AppendLast(row, [q]), false, Some(q)))
  {
    var sd := Some(q);
    assert [q, q] == [q] + [q];
    StepsConcat([q], [q], State(row, false, p), fd, sd);
    StepsSingle(q, State(row, false, p), fd, sd);
    StepsSingle(q, State(row, true, Some(q)), fd, sd);
  }

  /** Inside quotes, any other character is added to the field. */
  lemma QuotedCharSteps(c: char, row: seq<string>, p: Option<char>, fd: char, q: char)
    requires |row| > 0 && c != q
    ensures Steps([c], State(row, false, p), fd, Some(q)) == Next(State(AppendLast(row, [c]), false, Some(c)))
  {
    StepsSingle(c, State(row, false, p), fd, Some(q));
  }

  /** Inside quotes, the written form of one character adds that character to the field. */
  lemma QuotedHeadSteps(c: char, row: seq<string>, p: Option<char>, fd: char, q: char)
    requires |row| > 0
    ensures Steps(if c == q then [q, q] else [c], State(row, false, p), fd, Some(q)) ==
            Next(State(AppendLast(row, [c]), false, Some(c)))
  {
    if c == q {
      DoubledSteps(row, p, fd, q);
    } else {
      QuotedCharSteps(c, row, p, fd, q);
    }
  }

  /** Inside quotes, the written form of a text adds its first character, then goes on with the rest. */
  lemma QuotedConsSteps(f: string, row: seq<string>, p: Option<char>, fd: char, q: char)
    requires |row| > 0 && |f| > 0
    ensures Steps(Double(f, q), State(row, false, p), fd, Some(q)) ==
            Steps(Double(f[1..], q), State(AppendLast(row, [f[0]]), false, Some(f[0])), fd, Some(q))
  {
    var head := if f[0] == q then [q, q] else [f[0]];
    DoubleCons(f, q);
    StepsConcat(head, Double(f[1..], q), State(row, false, p), fd, Some(q));
    QuotedHeadSteps(f[0], row, p, fd, q);
  }

  lemma DoubleCons(f: string, q: char)
    requires |f| > 0
    ensures Double(f, q) == (if f[0] == q then [q, q] else [f[0]]) + Double(f[1..], q)
  {
  }

  lemma AppendLastTwice(row: seq<string>, a: string, b: string)
    requires |row| > 0
    ensures AppendLast(AppendLast(row, a), b) == AppendLast(row, a + b)
  {
    var last := |row| - 1;
    assert row[last] + a + b == row[last] + (a + b);
  }

  lemma {:induction false} QuotedBodySteps(f: string, row: seq<string>, p: Option<char>, fd: char, q: char)
    requires |row| > 0
    ensures Steps(Double(f, q), State(row, false, p), fd, Some(q)) ==
            Next(State(AppendLast(row, f), false, LastOf(f, p)))
    decreases |f|
  {
    if |f| == 0 {
      assert row[|row| - 1] + f == row[|row| - 1];
      assert AppendLast(row, f) == row;
    } else {
      var c := f[0];
      var row' := AppendLast(row, [c]);
      QuotedConsSteps(f, row, p, fd, q);
      QuotedBodySteps(f[1..], row', Some(c), fd, q);
      AppendLastTwice(row, [c], f[1..]);
      assert [c] + f[1..] == f;
      assert LastOf(f[1..], Some(c)) == LastOf(f, p);
    }
  }

  lemma QuotedFieldSteps(f: string, row: seq<string>, fd: char, q: char)
    requires |row| > 0
    ensures Steps([q] + Double(f, q) + [q], State(row, true, None), fd, Some(q)) ==
            Next(State(AppendLast(row, f), true, Some(q)))
  {
    var sd := Some(q);
    var body := Double(f, q);
    QuotedBodySteps(f, row, Some(q), fd, q);
    var st := State(AppendLast(row, f), false, LastOf(f, Some(q)));
    StepsConcat([q] + body, [q], State(row, true, None), fd, sd);
    StepsConcat([q], body, State(row, true, None), fd, sd);
    assert Step(q, State(row, true, None), fd, sd) == Next(State(row, false, Some(q)));
    assert [q][1..] == [];
    assert Steps([q], State(row, true, None), fd, sd) == Next(State(row, false, Some(q)));
    assert Step(q, st, fd, sd) == Next(State(AppendLast(row, f), true, Some(q)));
    assert Steps([q], st, fd, sd) == Next(State(AppendLast(row, f), true, Some(q)));
  }

  /** Reading one written field from the start of a field appends exactly the field. */
  lemma FieldSteps(f: string, row: seq<string>, fd: char, sd: Option<char>)
    requires |row| > 0 && Delimiters(fd, sd) && Writable(f, fd, sd)
    ensures Steps(Written(f, fd, sd), State(row, true, None), fd, sd) == Next(State(AppendLast(row, f), true, FieldEnd(f, fd, sd)))
  {
    if NeedsQuotes(f, fd, sd) {
      QuotedFieldSteps(f, row, fd, sd.value);
    } else {
      PlainFieldSteps(f, row, None, fd, sd);
    }
  }

  /** Reading the joined fields of a row from the start of a field adds exactly the fields. */
  lemma {:induction false} FieldsSteps(fields: seq<string>, done: seq<string>, fd: char, sd: Option<char>)
    requires |fields| > 0 && Delimiters(fd, sd)
    requires forall k :: 0 <= k < |fields| ==> Writable(fields[k], fd, sd)
    ensures Steps(Join(fd, WrittenFields(fields, fd, sd)), State(done + [""], true, None), fd, sd) ==
            Next(State(done + fields, true, FieldEnd(fields[|fields| - 1], fd, sd)))
    decreases |fields|
  {
    var f := fields[0];
    var encs := WrittenFields(fields, fd, sd);
    var tail := WrittenFields(fields[1..], fd, sd);
    assert encs == [Written(f, fd, sd)] + tail;
    var st := State(done + [""], true, None);
    if |fields| == 1 {
      FirstFieldSteps(f, done, fd, sd);
      assert fields == [f];
    } else {
      var st2 := State(done + [f] + [""], true, None);
      assert Join(fd, encs) == Written(f, fd, sd) + [fd] + Join(fd, tail) by { assert encs[1..] == tail; }
      FieldDelimiterSteps(f, done, fd, sd);
      StepsConcat(Written(f, fd, sd) + [fd], Join(fd, tail), st, fd, sd);
      assert Steps(Join(fd, tail), st2, fd, sd) ==
             Next(State(done + fields, true, FieldEnd(fields[|fields| - 1], fd, sd))) by {
        assert forall k :: 0 <= k < |fields| - 1 ==> fields[1..][k] == fields[k + 1];
        FieldsSteps(fields[1..], done + [f], fd, sd);
        ConcatCons(done, fields);
      }
    }
  }

  lemma ConcatCons<T>(done: seq<T>, s: seq<T>)
    requires |s| > 0
    ensures done + [s[0]] + s[1..] == done + s
  {
    assert [s[0]] + s[1..] == s;
  }

  /** A written field read from the start of a new field becomes that field. */
  lemma FirstFieldSteps(f: string, done: seq<string>, fd: char, sd: Option<char>)
    requires Delimiters(fd, sd) && Writable(f, fd, sd)
    ensures Steps(Written(f, fd, sd), State(done + [""], true, None), fd, sd) ==
            Next(State(done + [f], true, FieldEnd(f, fd, sd)))
  {
    FieldSteps(f, done + [""], fd, sd);
    assert AppendLast(done + [""], f) == done + [f] by { assert "" + f == f; }
  }

  /** A written field and the field delimiter after it complete the field and start the next. */
  lemma FieldDelimiterSteps(f: string, done: seq<string>, fd: char, sd: Option<char>)
    requires Delimiters(fd, sd) && Writable(f, fd, sd)
    ensures Steps(Written(f, fd, sd) + [fd], State(done + [""], true, None), fd, sd) ==
            Next(State(done + [f] + [""], true, None))
  {
    var st := State(done + [""], true, None);
    FirstFieldSteps(f, done, fd, sd);
    StepsConcat(Written(f, fd, sd), [fd], st, fd, sd);
    StepsSingle(fd, State(done + [f], true, FieldEnd(f, fd, sd)), fd, sd);
  }

  /** The written texts of the fields, in order. */
  function WrittenFields(fields: seq<string>, fd: char, sd: Option<char>): (r: seq<string>)
    ensures |r| == |fields|
    decreases |fields|
  {
    if |fields| == 0 then [] else [Written(fields[0], fd, sd)] + WrittenFields(fields[1..], fd, sd)
  }

  lemma {:induction false} FinalFieldsWritten(row: seq<string>, fd: char, sd: Option<char>, ignore: bool)
    requires FinalFields(row, fd, sd, ignore).Ok?
    ensures FinalFields(row, fd, sd, ignore).value == WrittenFields(row, fd, sd)
    decreases |row|
  {
    if |row| > 0 {
      FinalFieldsWritten(row[1..], fd, sd, ignore);
    }
  }

  /** Every field of a writable row is written without an error. */
  lemma WritableFields(row: seq<string>, fd: char, sd: Option<char>, ignore: bool)
    requires forall k :: 0 <= k < |row| ==> Writable(row[k], fd, sd)
    ensures FinalFields(row, fd, sd, ignore).Ok?
  {
  }

  /** The line end after a complete row ends the row, the '\r' of a CRLF being trimmed again. */
  lemma LineEndScan(s: string, k: nat, row: seq<string>, p: Option<char>, nl: NewLine, fd: char, sd: Option<char>)
    requires |row| > 0 && Delimiters(fd, sd) && p != Some('\r')
    requires |row[|row| - 1]| == 0 || row[|row| - 1][|row[|row| - 1]| - 1] != '\r'
    requires k + |NewLineText(nl)| <= |s| && s[k..k + |NewLineText(nl)|] == NewLineText(nl)
    ensures Scan(s, k, State(row, true, p), fd, sd) == Found(row, k + |NewLineText(nl)|)
  {
    var nls := NewLineText(nl);
    assert s[k] == nls[0];
    if nl.LF? {
      assert Step('\n', State(row, true, p), fd, sd) == Emit(row);
    } else {
      assert s[k + 1] == nls[1];
      var row' := AppendLast(row, "\r");
      assert Step('\r', State(row, true, p), fd, sd) == Next(State(row', true, Some('\r')));
      var last := |row| - 1;
      assert (row[last] + "\r")[..|row[last]|] == row[last];
      assert TrimLast(row') == row;
      assert Step('\n', State(row', true, Some('\r')), fd, sd) == Emit(row);
    }
  }

  /** A written row, found at position `i` of a text, is scanned back as the row, up to the end of its line. */
  lemma LineScan(row: seq<string>, fd: char, sd: Option<char>, nl: NewLine, ignore: bool, line: string, s: string,
                 i: nat)
    requires Delimiters(fd, sd) && WritableRow(row, fd, sd)
    requires RowText(row, fd, sd, nl, ignore) == Ok(line)
    requires i + |line| <= |s| && s[i..i + |line|] == line
    ensures Scan(s, i, Init, fd, sd) == Found(row, i + |line|)
  {
    var j := Join(fd, FinalFields(row, fd, sd, ignore).value);
    var p := FieldEnd(row[|row| - 1], fd, sd);
    assert line == j + NewLineText(nl) by { RowTextValue(row, fd, sd, nl, ignore); }
    assert Steps(j, Init, fd, sd) == Next(State(row, true, p)) by { RowSteps(row, fd, sd, ignore); }
    assert p != Some('\r') && (|row[|row| - 1]| == 0 || row[|row| - 1][|row[|row| - 1]| - 1] != '\r') by {
      assert Writable(row[|row| - 1], fd, sd);
    }
    JoinedLineScan(s, i, j, line, row, p, nl, fd, sd);
  }

  lemma RowTextValue(row: seq<string>, fd: char, sd: Option<char>, nl: NewLine, ignore: bool)
    requires RowText(row, fd, sd, nl, ignore).Ok?
    ensures FinalFields(row, fd, sd, ignore).Ok?
    ensures RowText(row, fd, sd, nl, ignore).value == Join(fd, FinalFields(row, fd, sd, ignore).value) + NewLineText(nl)
  {
  }

  /** Reading the joined fields of a written row from the initial state gives back the row. */
  lemma RowSteps(row: seq<string>, fd: char, sd: Option<char>, ignore: bool)
    requires |row| > 0 && Delimiters(fd, sd)
    requires forall k :: 0 <= k < |row| ==> Writable(row[k], fd, sd)
    requires FinalFields(row, fd, sd, ignore).Ok?
    ensures Steps(Join(fd, FinalFields(row, fd, sd, ignore).value), Init, fd, sd) ==
            Next(State(row, true, FieldEnd(row[|row| - 1], fd, sd)))
  {
    FinalFieldsWritten(row, fd, sd, ignore);
    FieldsSteps(row, [], fd, sd);
    assert Init == State([] + [""], true, None) && [] + row == row;
  }

  /** A text that steps from the initial state to the complete row, followed by a line end, is scanned as the row. */
  lemma JoinedLineScan(s: string, i: nat, j: string, line: string, row: seq<string>, p: Option<char>, nl: NewLine,
                       fd: char, sd: Option<char>)
    requires |row| > 0 && Delimiters(fd, sd) && p != Some('\r')
    requires |row[|row| - 1]| == 0 || row[|row| - 1][|row[|row| - 1]| - 1] != '\r'
    requires Steps(j, Init, fd, sd) == Next(State(row, true, p))
    requires line == j + NewLineText(nl) && i + |line| <= |s| && s[i..i + |line|] == line
    ensures Scan(s, i, Init, fd, sd) == Found(row, i + |line|)
  {
    var k := i + |j|;
    assert Scan(s, i, Init, fd, sd) == Scan(s, k, State(row, true, p), fd, sd) by {
      SlicePrefix(s, i, j, NewLineText(nl));
      ScanSteps(s, i, j, Init, fd, sd);
    }
    assert Scan(s, k, State(row, true, p), fd, sd) == Found(row, k + |NewLineText(nl)|) by {
      SlicePrefix(s, i, j, NewLineText(nl));
      LineEndScan(s, k, row, p, nl, fd, sd);
    }
  }

  /** A suffix that spells `a + b` spells `a` and then `b`. */
  lemma SuffixSplit(s: string, i: nat, a: string, b: string)
    requires i <= |s| && s[i..] == a + b
    ensures i + |a| <= |s| && s[i..i + |a|] == a && s[i + |a|..] == b
  {
    assert s[i..][..|a|] == a && s[i..][|a|..] == b;
  }

  /** A slice that spells `a + b` spells `a` and then `b`. */
  lemma SlicePrefix(s: string, i: nat, a: string, b: string)
    requires i + |a + b| <= |s| && s[i..i + |a + b|] == a + b
    ensures s[i..i + |a|] == a && s[i + |a|..i + |a| + |b|] == b
  {
    var t := s[i..i + |a + b|];
    assert t[..|a|] == a && t[|a|..] == b;
    assert s[i..i + |a|] == t[..|a|];
    assert s[i + |a|..i + |a| + |b|] == t[|a|..];
  }

  /** `ParseHeaderFromString(EncodeRow(row))` is the row: the writer's quoting and doubling is exactly what the
      tokenizer undoes, for either line end. */
  lemma EncodeRowRoundTrip(row: seq<string>, fd: char, sd: Option<char>, nl: NewLine, ignore: bool)
    requires |row| > 0 && Delimiters(fd, sd)
    requires forall k :: 0 <= k < |row| ==> Writable(row[k], fd, sd)
    ensures RowText(row, fd, sd, nl, ignore).Ok?
    ensures HeaderOf(RowText(row, fd, sd, nl, ignore).value, fd, sd) == Ok(Some(row))
  {
    WritableFields(row, fd, sd, ignore);
    var line := RowText(row, fd, sd, nl, ignore).value;
    assert line[0..|line|] == line;
    LineScan(row, fd, sd, nl, ignore, line, line, 0);
  }

  /** Rows written one after the other are enumerated back as the same rows, without a fault. */
  lemma {:induction false} RowsScan(rows: seq<seq<string>>, fd: char, sd: Option<char>, nl: NewLine, ignore: bool,
                                    s: string, i: nat)
    requires Delimiters(fd, sd) && WritableRows(rows, fd, sd)
    requires RowsText(rows, fd, sd, nl, ignore).Ok?
    requires i <= |s| && s[i..] == RowsText(rows, fd, sd, nl, ignore).value
    ensures RowsFrom(s, i, Init, fd, sd) == Rows(rows, false)
    decreases |rows|
  {
    if |rows| == 0 {
      assert |s[i..]| == 0;
    } else {
      var j := RowsStep(rows, fd, sd, nl, ignore, s, i);
      RowsScan(rows[1..], fd, sd, nl, ignore, s, j);
      assert [rows[0]] + rows[1..] == rows;
    }
  }

  /** The first written row is enumerated first; the others follow at position `j`. */
  lemma RowsStep(rows: seq<seq<string>>, fd: char, sd: Option<char>, nl: NewLine, ignore: bool, s: string, i: nat)
    returns (j: nat)
    requires |rows| > 0 && Delimiters(fd, sd) && WritableRows(rows, fd, sd)
    requires RowsText(rows, fd, sd, nl, ignore).Ok?
    requires i <= |s| && s[i..] == RowsText(rows, fd, sd, nl, ignore).value
    ensures WritableRows(rows[1..], fd, sd) && RowsText(rows[1..], fd, sd, nl, ignore).Ok?
    ensures j <= |s| && s[j..] == RowsText(rows[1..], fd, sd, nl, ignore).value
    ensures RowsFrom(s, i, Init, fd, sd) == Prepend([rows[0]], RowsFrom(s, j, Init, fd, sd))
  {
    RowsTextCons(rows, fd, sd, nl, ignore);
    var line := RowText(rows[0], fd, sd, nl, ignore).value;
    var rest := RowsText(rows[1..], fd, sd, nl, ignore).value;
    j := i + |line|;
    SuffixSplit(s, i, line, rest);
    assert Scan(s, i, Init, fd, sd) == Found(rows[0], j) by {
      LineScan(rows[0], fd, sd, nl, ignore, line, s, i);
    }
    RowsAfterFound(s, i, rows[0], j, fd, sd);
  }

  lemma RowsAfterFound(s: string, i: nat, row: seq<string>, j: nat, fd: char, sd: Option<char>)
    requires i <= |s| && Scan(s, i, Init, fd, sd) == Found(row, j)
    ensures RowsFrom(s, i, Init, fd, sd) == Prepend([row], RowsFrom(s, j, Init, fd, sd))
  {
  }

  /** The text of several rows is the first row's line followed by the text of the others. */
  lemma RowsTextCons(rows: seq<seq<string>>, fd: char, sd: Option<char>, nl: NewLine, ignore: bool)
    requires |rows| > 0 && RowsText(rows, fd, sd, nl, ignore).Ok?
    ensures RowText(rows[0], fd, sd, nl, ignore).Ok? && RowsText(rows[1..], fd, sd, nl, ignore).Ok?
    ensures RowsText(rows, fd, sd, nl, ignore).value ==
            RowText(rows[0], fd, sd, nl, ignore).value + RowsText(rows[1..], fd, sd, nl, ignore).value
  {
  }

  lemma RowsRoundTrip(rows: seq<seq<string>>, fd: char, sd: Option<char>, nl: NewLine, ignore: bool)
    requires |rows| > 0 && Delimiters(fd, sd)
    requires forall r :: 0 <= r < |rows| ==> WritableRow(rows[r], fd, sd)
    ensures RowsText(rows, fd, sd, nl, ignore).Ok?
    ensures RowsOf(RowsText(rows, fd, sd, nl, ignore).value, fd, sd) == Rows(rows, false)
  {
    RowsTextOk(rows, fd, sd, nl, ignore);
    var s := RowsText(rows, fd, sd, nl, ignore).value;
    assert s[0..] == s;
    AllWritableRows(rows, fd, sd);
    RowsScan(rows, fd, sd, nl, ignore, s, 0);
  }

  lemma {:induction false} RowsTextOk(rows: seq<seq<string>>, fd: char, sd: Option<char>, nl: NewLine, ignore: bool)
    requires forall r :: 0 <= r < |rows| ==> forall k :: 0 <= k < |rows[r]| ==> Writable(rows[r][k], fd, sd)
    ensures RowsText(rows, fd, sd, nl, ignore).Ok?
    ensures |rows| > 0 ==> var s := RowsText(rows, fd, sd, nl, ignore).value; |s| > 0 && s[|s| - 1] == '\n'
    decreases |rows|
  {
    if |rows| > 0 {
      WritableFields(rows[0], fd, sd, ignore);
      RowsTextOk(rows[1..], fd, sd, nl, ignore);
    }
  }

  /** Examples of the quoting rule: `b"c` is written as `"b""c"`, `b,c` as `"b,c"`, and a row of `a` and `b"c` as the
      line `a,"b""c"`. */
  lemma QuoteDoublingExample()
    ensures FinalField("b\"c", ',', Some('"'), false) == Ok("\"b\"\"c\"")
  {
    var f := "b\"c";
    assert f[1] == '"';
    assert NeedsQuotes(f, ',', Some('"'));
    DoubleCons("c", '"');
    assert "c"[1..] == "";
    assert Double("c", '"') == "c";
    DoubleCons("\"c", '"');
    assert "\"c"[1..] == "c";
    assert Double("\"c", '"') == "\"\"c";
    DoubleCons(f, '"');
    assert f[1..] == "\"c";
    assert Double(f, '"') == "b\"\"c";
    assert Written(f, ',', Some('"')) == "\"b\"\"c\"";
  }

  lemma QuoteDelimiterExample()
    ensures FinalField("b,c", ',', Some('"'), false) == Ok("\"b,c\"")
    ensures FinalField("b,c", ',', None, false) == Err(InvalidData("String delimiter required"))
  {
    var f := "b,c";
    assert NeedsQuotes(f, ',', None) && NeedsQuotes(f, ',', Some('"')) by { assert f[1] == ','; }
    assert Double(f, '"') == f by {
      DoubleCons("c", '"');
      assert "c"[1..] == "";
      DoubleCons(",c", '"');
      assert ",c"[1..] == "c";
      DoubleCons(f, '"');
      assert f[1..] == ",c";
    }
    assert Written(f, ',', Some('"')) == "\"b,c\"";
  }

  lemma RowExample()
    ensures RowText(["a", "b\"c"], ',', Some('"'), LF, false) == Ok("a,\"b\"\"c\"\n")
  {
    QuoteDoublingExample();
    var row := ["a", "b\"c"];
    assert !NeedsQuotes("a", ',', Some('"')) by { assert "a" == ['a']; }
    assert FinalFields(["b\"c"], ',', Some('"'), false) == Ok(["\"b\"\"c\""]) by {
      var x := "\"b\"\"c\"";
      assert ["b\"c"][0] == "b\"c" && ["b\"c"][1..] == [];
      assert FinalField("b\"c", ',', Some('"'), false) == Ok(x);
      assert FinalFields([], ',', Some('"'), false) == Ok([]);
      assert [x] + [] == [x];
    }
    assert FinalFields(row, ',', Some('"'), false) == Ok(["a", "\"b\"\"c\""]) by {
      assert row[0] == "a" && row[1..] == ["b\"c"];
      assert FinalField("a", ',', Some('"'), false) == Ok("a");
      assert ["a"] + ["\"b\"\"c\""] == ["a", "\"b\"\"c\""];
    }
    var encs := ["a", "\"b\"\"c\""];
    assert Join(',', encs) == "a,\"b\"\"c\"" by {
      assert encs[1..] == ["\"b\"\"c\""];
      assert Join(',', encs[1..]) == "\"b\"\"c\"";
      assert "a" + [','] + "\"b\"\"c\"" == "a,\"b\"\"c\"";
    }
    assert "a,\"b\"\"c\"" + NewLineText(LF) == "a,\"b\"\"c\"\n";
  }
  /** A row with a quoted field delimiter, written with CR LF line ends: `a,"b,c"` then CR LF. */
  lemma CrLfRowExample()
    ensures RowText(["a", "b,c"], ',', Some('"'), CRLF, false) == Ok("a,\"b,c\"\r\n")
  {
    QuoteDelimiterExample();
    var row := ["a", "b,c"];
    assert !NeedsQuotes("a", ',', Some('"')) by { assert "a" == ['a']; }
    assert FinalFields(["b,c"], ',', Some('"'), false) == Ok(["\"b,c\""]) by {
      var x := "\"b,c\"";
      assert ["b,c"][0] == "b,c" && ["b,c"][1..] == [];
      assert FinalField("b,c", ',', Some('"'), false) == Ok(x);
      assert FinalFields([], ',', Some('"'), false) == Ok([]);
      assert [x] + [] == [x];
    }
    assert FinalFields(row, ',', Some('"'), false) == Ok(["a", "\"b,c\""]) by {
      assert row[0] == "a" && row[1..] == ["b,c"];
      assert FinalField("a", ',', Some('"'), false) == Ok("a");
      assert ["a"] + ["\"b,c\""] == ["a", "\"b,c\""];
    }
    var encs := ["a", "\"b,c\""];
    assert Join(',', encs) == "a,\"b,c\"" by {
      assert encs[1..] == ["\"b,c\""];
      assert Join(',', encs[1..]) == "\"b,c\"";
      assert "a" + [','] + "\"b,c\"" == "a,\"b,c\"";
    }
    assert "a,\"b,c\"" + NewLineText(CRLF) == "a,\"b,c\"\r\n";
  }

  /** The tokenizer reads the two example lines back: a doubled string delimiter inside quotes is one literal
      delimiter, a quoted field delimiter is a field character, and the '\r' of a CR LF line end is trimmed. A text
      without a final newline reads as if it had one. */
  lemma ReadBackExamples()
    ensures HeaderOf("a,\"b\"\"c\"", ',', Some('"')) == Ok(Some(["a", "b\"c"]))
    ensures HeaderOf("a,\"b,c\"\r\n", ',', Some('"')) == Ok(Some(["a", "b,c"]))
  {
    var q := Some('"');
    RowExample();
    EncodeRowRoundTrip(["a", "b\"c"], ',', q, LF, false);
    assert EnsureNewline("a,\"b\"\"c\"") == EnsureNewline("a,\"b\"\"c\"\n");
    CrLfRowExample();
    EncodeRowRoundTrip(["a", "b,c"], ',', q, CRLF, false);
  }
}
