/**
 * The text of the legacy `CsvTable.ToString`: every field that is not a number is put in string delimiters with the
 * delimiters inside it doubled, the fields of a row are joined with the field delimiter, and every line ends with
 * the line end. Numbers are recognised by `RX_NUMBER`.
 *
 * The main result is the round trip: the tokenizer reads the text back as the rows, when the delimiters cannot occur
 * in a number.
 */
module LegacyWriter {
  import opened Wrappers
  import opened Text
  import opened Tokenizer
  import opened CsvWriter

  predicate IsDigit(c: char)
  {
    '0' <= c <= '9'
  }

  predicate AllDigits(s: string)
  {
    forall k :: 0 <= k < |s| ==> IsDigit(s[k])
  }

  /** The characters a number is made of. */
  predicate NumberChar(c: char)
  {
    IsDigit(c) || c == '.' || c == ','
  }

  /** `\d+|\d*[\.,]\d+` matching the whole text: digits, or digits, one '.' or ',' and at least one digit. */
  predicate NumberBody(s: string)
  {
    || (|s| > 0 && AllDigits(s))
    || exists k :: 0 <= k < |s| - 1 && (s[k] == '.' || s[k] == ',') && AllDigits(s[..k]) && AllDigits(s[k + 1..])
  }

  /** `RX_NUMBER.IsMatch`: the anchor `$` also matches right before a final newline. */
  predicate IsNumber(s: string)
  {
    NumberBody(s) || (|s| > 0 && s[|s| - 1] == '\n' && NumberBody(s[..|s| - 1]))
  }

  /** A number without a newline is made of digits, '.' and ','. */
  lemma NumberChars(f: string)
    requires IsNumber(f) && '\n' !in f
    ensures forall k :: 0 <= k < |f| ==> NumberChar(f[k])
  {
    if !(|f| > 0 && AllDigits(f)) {
      var k :| 0 <= k < |f| - 1 && (f[k] == '.' || f[k] == ',') && AllDigits(f[..k]) && AllDigits(f[k + 1..]);
      forall j | 0 <= j < |f| ensures NumberChar(f[j]) {
        if j < k {
          assert f[..k][j] == f[j];
        } else if j > k {
          assert f[k + 1..][j - k - 1] == f[j];
        }
      }
    }
  }

  /** One field as the local `AddRow` writes it: a number as it is, anything else quoted. Without a string
      delimiter, `Replace` is asked to replace the empty string and throws. */
  function LegacyField(f: string, sd: Option<char>): (r: Result<string>)
    ensures IsNumber(f) ==> r == Ok(f)
    ensures !IsNumber(f) && sd.None? ==> r == Err(Argument("String cannot be of zero length."))
    ensures !IsNumber(f) && sd.Some? ==>
              r.Ok? && |r.value| >= |f| + 2 && r.value[0] == sd.value && r.value[|r.value| - 1] == sd.value
  {
    if IsNumber(f) then Ok(f)
    else if sd.None? then Err(Argument("String cannot be of zero length."))
    else Ok([sd.value] + Double(f, sd.value) + [sd.value])
  }

  /** The fields of a row as written, in order; the first failing field decides. */
  function LegacyFields(row: seq<string>, sd: Option<char>): (r: Result<seq<string>>)
    ensures r.Ok? <==> forall k :: 0 <= k < |row| ==> LegacyField(row[k], sd).Ok?
    ensures r.Ok? ==> |r.value| == |row| && forall k :: 0 <= k < |row| ==> r.value[k] == LegacyField(row[k], sd).value
    ensures r.Err? ==> r.error == Argument("String cannot be of zero length.")
    decreases |row|
  {
    if |row| == 0 then Ok([])
    else
      match LegacyField(row[0], sd)
      case Err(e) => Err(e)
      case Ok(x) =>
        match LegacyFields(row[1..], sd)
        case Err(e) => Err(e)
        case Ok(xs) =>
          assert forall k :: 1 <= k < |row| ==> row[k] == row[1..][k - 1];
          Ok([x] + xs)
  }

  /** One line: the written fields joined with the field delimiter, then the line end (`AppendLine`). */
  function LegacyLine(row: seq<string>, fd: char, sd: Option<char>, nl: NewLine): (r: Result<string>)
    ensures r.Ok? <==> LegacyFields(row, sd).Ok?
    ensures r.Ok? ==> |r.value| > 0 && r.value[|r.value| - 1] == '\n'
    ensures r.Err? ==> r.error == Argument("String cannot be of zero length.")
  {
    match LegacyFields(row, sd)
    case Err(e) => Err(e)
    case Ok(fields) => Ok(Join(fd, fields) + NewLineText(nl))
  }

  /** The lines of several rows, one after the other. */
  function LegacyLines(rows: seq<seq<string>>, fd: char, sd: Option<char>, nl: NewLine): (r: Result<string>)
    ensures r.Ok? <==> forall k :: 0 <= k < |rows| ==> LegacyLine(rows[k], fd, sd, nl).Ok?
    ensures r.Err? ==> r.error == Argument("String cannot be of zero length.")
    decreases |rows|
  {
    if |rows| == 0 then Ok("")
    else
      match LegacyLine(rows[0], fd, sd, nl)
      case Err(e) => Err(e)
      case Ok(line) =>
        assert forall k :: 1 <= k < |rows| ==> rows[k] == rows[1..][k - 1];
        match LegacyLines(rows[1..], fd, sd, nl)
        case Err(e) => Err(e)
        case Ok(rest) => Ok(line + rest)
  }

  /** The text of `ToString(header)`: the header line first when asked for, then one line per row. */
  function LegacyText(header: bool, h: seq<string>, rows: seq<seq<string>>, fd: char, sd: Option<char>, nl: NewLine)
    : Result<string>
  {
    LegacyLines(if header then [h] + rows else rows, fd, sd, nl)
  }

  /** The local `AddRow` of `ToString`: each field that is not a number is replaced by its quoted form, then the
      fields are joined and the line end is added. */
  method WriteLine(row: seq<string>, fd: char, sd: Option<char>, nl: NewLine) returns (r: Result<string>)
    ensures r == LegacyLine(row, fd, sd, nl)
  {
    var fields := row;
    var i := 0;
    while i < |fields|
      invariant 0 <= i <= |fields| == |row|
      invariant forall k :: 0 <= k < i ==> LegacyField(row[k], sd).Ok? && fields[k] == LegacyField(row[k], sd).value
      invariant forall k :: i <= k < |row| ==> fields[k] == row[k]
    {
      if !IsNumber(fields[i]) {
        if sd.None? {
          return Err(Argument("String cannot be of zero length."));
        }
        var q := sd.value;
        fields := fields[i := [q] + Double(fields[i], q) + [q]];
      }
      i := i + 1;
    }
    assert fields == LegacyFields(row, sd).value;
    return Ok(Join(fd, fields) + NewLineText(nl));
  }

  /** The loop of `ToString` over the rows: one line each, appended to the text. */
  method WriteLines(rows: seq<seq<string>>, fd: char, sd: Option<char>, nl: NewLine) returns (r: Result<string>)
    ensures r == LegacyLines(rows, fd, sd, nl)
  {
    var sb := "";
    var i := 0;
    assert rows[..0] == [];
    while i < |rows|
      invariant 0 <= i <= |rows| && LegacyLines(rows[..i], fd, sd, nl) == Ok(sb)
    {
      var line := WriteLine(rows[i], fd, sd, nl);
      LinesSnoc(rows[..i], rows[i], fd, sd, nl);
      assert rows[..i + 1] == rows[..i] + [rows[i]];
      if line.Err? {
        LinesPrefixError(rows, i + 1, fd, sd, nl);
        return Err(line.error);
      }
      sb := sb + line.value;
      i := i + 1;
    }
    assert rows[..i] == rows;
    return Ok(sb);
  }

  /** The lines of the rows so far and one more row. */
  lemma {:induction false} LinesSnoc(xs: seq<seq<string>>, x: seq<string>, fd: char, sd: Option<char>, nl: NewLine)
    ensures LegacyLines(xs + [x], fd, sd, nl) ==
              if LegacyLines(xs, fd, sd, nl).Ok? && LegacyLine(x, fd, sd, nl).Ok?
              then Ok(LegacyLines(xs, fd, sd, nl).value + LegacyLine(x, fd, sd, nl).value)
              else Err(Argument("String cannot be of zero length."))
    decreases |xs|
  {
    if |xs| == 0 {
      assert xs + [x] == [x] && [x][0] == x && [x][1..] == [];
      assert LegacyLines([], fd, sd, nl) == Ok("");
      var line := LegacyLine(x, fd, sd, nl);
      if line.Ok? {
        assert line.value + "" == "" + line.value == line.value;
        assert LegacyLines([x], fd, sd, nl) == Ok(line.value + "");
      }
    } else {
      assert (xs + [x])[0] == xs[0] && (xs + [x])[1..] == xs[1..] + [x];
      LinesSnoc(xs[1..], x, fd, sd, nl);
      if LegacyLines(xs, fd, sd, nl).Ok? && LegacyLine(x, fd, sd, nl).Ok? {
        var a := LegacyLine(xs[0], fd, sd, nl).value;
        var b := LegacyLines(xs[1..], fd, sd, nl).value;
        var c := LegacyLine(x, fd, sd, nl).value;
        assert a + b + c == a + (b + c);
      }
    }
  }

  /** When the lines of a prefix fail, so do the lines of the whole. */
  lemma LinesPrefixError(all: seq<seq<string>>, n: nat, fd: char, sd: Option<char>, nl: NewLine)
    requires n <= |all| && LegacyLines(all[..n], fd, sd, nl).Err?
    ensures LegacyLines(all, fd, sd, nl) == Err(Argument("String cannot be of zero length."))
  {
    var k :| 0 <= k < n && LegacyLine(all[..n][k], fd, sd, nl).Err?;
    assert all[..n][k] == all[k];
  }

  /* ------------------------------------------------------------------------------------------------------------ */
  /* Reading written rows back                                                                                     */

  /** Delimiters the tokenizer tells apart and that no number contains. */
  predicate LegacySafe(fd: char, q: char)
  {
    Delimiters(fd, Some(q)) && !NumberChar(fd) && !NumberChar(q)
  }

  /** The look-behind after a written field. */
  function LegacyEnd(f: string, q: char): Option<char>
  {
    if IsNumber(f) then LastOf(f, None) else Some(q)
  }

  /** Reading one written field from the start of a field appends exactly the field. */
  lemma LegacyFieldSteps(f: string, row: seq<string>, fd: char, q: char)
    requires |row| > 0 && LegacySafe(fd, q) && Writable(f, fd, Some(q))
    ensures Steps(LegacyField(f, Some(q)).value, State(row, true, None), fd, Some(q)) ==
            Next(State(AppendLast(row, f), true, LegacyEnd(f, q)))
  {
    if IsNumber(f) {
      NumberChars(f);
      assert fd !in f && q !in f by {
        forall k | 0 <= k < |f| ensures f[k] != fd && f[k] != q { }
      }
      PlainFieldSteps(f, row, None, fd, Some(q));
    } else {
      QuotedFieldSteps(f, row, fd, q);
    }
  }

  /** A written field read from the start of a new field becomes that field. */
  lemma LegacyFirstFieldSteps(f: string, done: seq<string>, fd: char, q: char)
    requires LegacySafe(fd, q) && Writable(f, fd, Some(q))
    ensures Steps(LegacyField(f, Some(q)).value, State(done + [""], true, None), fd, Some(q)) ==
            Next(State(done + [f], true, LegacyEnd(f, q)))
  {
    LegacyFieldSteps(f, done + [""], fd, q);
    assert AppendLast(done + [""], f) == done + [f] by { assert "" + f == f; }
  }

  /** A written field and the field delimiter after it complete the field and start the next. */
  lemma LegacyDelimiterSteps(f: string, done: seq<string>, fd: char, q: char)
    requires LegacySafe(fd, q) && Writable(f, fd, Some(q))
    ensures Steps(LegacyField(f, Some(q)).value + [fd], State(done + [""], true, None), fd, Some(q)) ==
            Next(State(done + [f] + [""], true, None))
  {
    var st := State(done + [""], true, None);
    LegacyFirstFieldSteps(f, done, fd, q);
    StepsConcat(LegacyField(f, Some(q)).value, [fd], st, fd, Some(q));
    StepsSingle(fd, State(done + [f], true, LegacyEnd(f, q)), fd, Some(q));
  }

  /** The written fields of a row are the first one's, then the others'. */
  lemma LegacyFieldsCons(fields: seq<string>, q: char)
    requires |fields| > 0 && LegacyFields(fields, Some(q)).Ok?
    ensures LegacyFields(fields[1..], Some(q)).Ok?
    ensures LegacyFields(fields, Some(q)).value ==
            [LegacyField(fields[0], Some(q)).value] + LegacyFields(fields[1..], Some(q)).value
  {
  }

  /** Reading the joined written fields from the start of a field adds exactly the fields. */
  lemma {:induction false} LegacyFieldsSteps(fields: seq<string>, done: seq<string>, fd: char, q: char)
    requires |fields| > 0 && LegacySafe(fd, q)
    requires forall k :: 0 <= k < |fields| ==> Writable(fields[k], fd, Some(q))
    ensures LegacyFields(fields, Some(q)).Ok?
    ensures Steps(Join(fd, LegacyFields(fields, Some(q)).value), State(done + [""], true, None), fd, Some(q)) ==
            Next(State(done + fields, true, LegacyEnd(fields[|fields| - 1], q)))
    decreases |fields|
  {
    var sd := Some(q);
    var f := fields[0];
    assert LegacyFields(fields, sd).Ok?;
    LegacyFieldsCons(fields, q);
    var encs := LegacyFields(fields, sd).value;
    var tail := LegacyFields(fields[1..], sd).value;
    var st := State(done + [""], true, None);
    if |fields| == 1 {
      LegacyFirstFieldSteps(f, done, fd, q);
      assert fields == [f];
    } else {
      var st2 := State(done + [f] + [""], true, None);
      assert Join(fd, encs) == LegacyField(f, sd).value + [fd] + Join(fd, tail) by { assert encs[1..] == tail; }
      LegacyDelimiterSteps(f, done, fd, q);
      StepsConcat(LegacyField(f, sd).value + [fd], Join(fd, tail), st, fd, sd);
      assert Steps(Join(fd, tail), st2, fd, sd) ==
             Next(State(done + fields, true, LegacyEnd(fields[|fields| - 1], q))) by {
        assert forall k :: 0 <= k < |fields| - 1 ==> fields[1..][k] == fields[k + 1];
        LegacyFieldsSteps(fields[1..], done + [f], fd, q);
        ConcatCons(done, fields);
      }
    }
  }

  /** A written line, found at position `i` of a text, is scanned back as the row, up to the end of the line. */
  lemma LegacyLineScan(row: seq<string>, fd: char, q: char, nl: NewLine, line: string, s: string, i: nat)
    requires LegacySafe(fd, q) && WritableRow(row, fd, Some(q))
    requires LegacyLine(row, fd, Some(q), nl) == Ok(line)
    requires i + |line| <= |s| && s[i..i + |line|] == line
    ensures Scan(s, i, Init, fd, Some(q)) == Found(row, i + |line|)
  {
    var sd := Some(q);
    var j := Join(fd, LegacyFields(row, sd).value);
    var last := row[|row| - 1];
    var p := LegacyEnd(last, q);
    assert Steps(j, Init, fd, sd) == Next(State(row, true, p)) by {
      LegacyFieldsSteps(row, [], fd, q);
      assert Init == State([] + [""], true, None) && [] + row == row;
    }
    assert p != Some('\r') && (|last| == 0 || last[|last| - 1] != '\r') by {
      assert Writable(last, fd, sd);
    }
    JoinedLineScan(s, i, j, line, row, p, nl, fd, sd);
  }

  /** The lines of several rows are the first row's line followed by the lines of the others. */
  lemma LegacyLinesCons(rows: seq<seq<string>>, fd: char, sd: Option<char>, nl: NewLine)
    requires |rows| > 0 && LegacyLines(rows, fd, sd, nl).Ok?
    ensures LegacyLine(rows[0], fd, sd, nl).Ok? && LegacyLines(rows[1..], fd, sd, nl).Ok?
    ensures LegacyLines(rows, fd, sd, nl).value ==
            LegacyLine(rows[0], fd, sd, nl).value + LegacyLines(rows[1..], fd, sd, nl).value
  {
  }

  /** Every row written without an error, stated row by row. */
  lemma {:induction false} LegacyLinesOk(rows: seq<seq<string>>, fd: char, q: char, nl: NewLine)
    requires forall r :: 0 <= r < |rows| ==> WritableRow(rows[r], fd, Some(q))
    ensures LegacyLines(rows, fd, Some(q), nl).Ok?
    ensures |rows| > 0 ==> var s := LegacyLines(rows, fd, Some(q), nl).value; |s| > 0 && s[|s| - 1] == '\n'
    decreases |rows|
  {
    if |rows| > 0 {
      assert forall r :: 0 <= r < |rows| - 1 ==> rows[1..][r] == rows[r + 1];
      LegacyLinesOk(rows[1..], fd, q, nl);
      LegacyLinesCons(rows, fd, Some(q), nl);
    }
  }

  /** The lines written from position `i` on are enumerated back as the same rows, without a fault. */
  lemma {:induction false} LegacyRowsScan(rows: seq<seq<string>>, fd: char, q: char, nl: NewLine, s: string, i: nat)
    requires LegacySafe(fd, q) && WritableRows(rows, fd, Some(q))
    requires LegacyLines(rows, fd, Some(q), nl).Ok?
    requires i <= |s| && s[i..] == LegacyLines(rows, fd, Some(q), nl).value
    ensures RowsFrom(s, i, Init, fd, Some(q)) == Rows(rows, false)
    decreases |rows|
  {
    if |rows| == 0 {
      assert |s[i..]| == 0;
    } else {
      var j := LegacyRowsStep(rows, fd, q, nl, s, i);
      LegacyRowsScan(rows[1..], fd, q, nl, s, j);
      assert [rows[0]] + rows[1..] == rows;
    }
  }

  /** The first written row is enumerated first; the others follow at position `j`. */
  lemma LegacyRowsStep(rows: seq<seq<string>>, fd: char, q: char, nl: NewLine, s: string, i: nat) returns (j: nat)
    requires |rows| > 0 && LegacySafe(fd, q) && WritableRows(rows, fd, Some(q))
    requires LegacyLines(rows, fd, Some(q), nl).Ok?
    requires i <= |s| && s[i..] == LegacyLines(rows, fd, Some(q), nl).value
    ensures WritableRows(rows[1..], fd, Some(q)) && LegacyLines(rows[1..], fd, Some(q), nl).Ok?
    ensures j <= |s| && s[j..] == LegacyLines(rows[1..], fd, Some(q), nl).value
    ensures RowsFrom(s, i, Init, fd, Some(q)) == Prepend([rows[0]], RowsFrom(s, j, Init, fd, Some(q)))
  {
    LegacyLinesCons(rows, fd, Some(q), nl);
    var line := LegacyLine(rows[0], fd, Some(q), nl).value;
    var rest := LegacyLines(rows[1..], fd, Some(q), nl).value;
    j := i + |line|;
    SuffixSplit(s, i, line, rest);
    assert Scan(s, i, Init, fd, Some(q)) == Found(rows[0], j) by {
      LegacyLineScan(rows[0], fd, q, nl, line, s, i);
    }
    RowsAfterFound(s, i, rows[0], j, fd, Some(q));
  }

  /** What `ToString` writes is enumerated back as the rows, the header first when it was written, provided no
      field holds a newline or ends in '\r' and neither delimiter can occur in a number. */
  lemma LegacyRoundTrip(header: bool, h: seq<string>, rows: seq<seq<string>>, fd: char, q: char, nl: NewLine)
    requires LegacySafe(fd, q)
    requires header ==> WritableRow(h, fd, Some(q))
    requires header || |rows| > 0
    requires forall r :: 0 <= r < |rows| ==> WritableRow(rows[r], fd, Some(q))
    ensures LegacyText(header, h, rows, fd, Some(q), nl).Ok?
    ensures RowsOf(LegacyText(header, h, rows, fd, Some(q), nl).value, fd, Some(q)) ==
            Rows(if header then [h] + rows else rows, false)
  {
    var all := if header then [h] + rows else rows;
    assert forall r :: 0 <= r < |all| ==> WritableRow(all[r], fd, Some(q));
    LegacyLinesOk(all, fd, q, nl);
    var s := LegacyLines(all, fd, Some(q), nl).value;
    assert EnsureNewline(s) == s;
    assert s[0..] == s;
    AllWritableRows(all, fd, Some(q));
    LegacyRowsScan(all, fd, q, nl, s, 0);
  }

  /** Examples of `RX_NUMBER`: digits, a decimal with '.' or ',' and a number followed by one final newline match;
      a second separator, a trailing separator and the empty text do not. */
  lemma NumberExamples()
    ensures IsNumber("42") && IsNumber("3.14") && IsNumber(",5") && IsNumber("7\n")
    ensures !IsNumber("1.2.3") && !IsNumber("1.") && !IsNumber("")
  {
    assert NumberBody("3.14") by { assert "3.14"[..1] == "3" && "3.14"[2..] == "14"; }
    assert NumberBody(",5") by { assert ",5"[..0] == "" && ",5"[1..] == "5"; }
    assert "7\n"[..1] == "7";
    assert !NumberBody("1.2.3") by {
      var s := "1.2.3";
      assert !AllDigits(s) by { assert !IsDigit(s[1]); }
      forall k | 0 <= k < |s| - 1 && (s[k] == '.' || s[k] == ',')
        ensures !(AllDigits(s[..k]) && AllDigits(s[k + 1..]))
      {
        if k == 1 {
          assert s[k + 1..][1] == '.';
        } else {
          assert s[..k][1] == '.';
        }
      }
    }
    assert !NumberBody("1.") by { assert !IsDigit("1."[1]); }
  }

  /** A decimal with a comma is written bare, so with the default field delimiter ',' it reads back as two fields. */
  lemma DecimalCommaExample()
    ensures LegacyText(false, [], [["1,5"]], ',', Some('"'), LF) == Ok("1,5\n")
    ensures RowsOf("1,5\n", ',', Some('"')) == Rows([["1", "5"]], false)
  {
    var sd := Some('"');
    assert NumberBody("1,5") by { assert "1,5"[..1] == "1" && "1,5"[2..] == "5"; }
    assert IsNumber("1,5");
    assert LegacyField("1,5", sd) == Ok("1,5");
    assert LegacyFields(["1,5"], sd) == Ok(["1,5"]) by {
      assert ["1,5"][0] == "1,5" && ["1,5"][1..] == [];
      assert LegacyFields([], sd) == Ok([]);
      assert ["1,5"] + [] == ["1,5"];
    }
    assert Join(',', ["1,5"]) == "1,5";
    assert NewLineText(LF) == "\n";
    assert "1,5" + "\n" == "1,5\n";
    assert LegacyLine(["1,5"], ',', sd, LF) == Ok("1,5\n");
    assert [["1,5"]][1..] == [];
    assert LegacyLines([["1,5"]], ',', sd, LF) == Ok("1,5\n" + "");
    assert "1,5\n" + "" == "1,5\n";
    var s := "1,5\n";
    assert EnsureNewline(s) == s;
    assert "" + ['1'] == "1" && "" + ['5'] == "5";
    assert [""][0 := "1"] == ["1"];
    assert ["1", ""][1 := "5"] == ["1", "5"];
    assert Step('1', Init, ',', sd) == Next(State(["1"], true, Some('1')));
    assert Step(',', State(["1"], true, Some('1')), ',', sd) == Next(State(["1", ""], true, None));
    assert Step('5', State(["1", ""], true, None), ',', sd) == Next(State(["1", "5"], true, Some('5')));
    assert Scan(s, 3, State(["1", "5"], true, Some('5')), ',', sd) == Found(["1", "5"], 4);
    assert Scan(s, 0, Init, ',', sd) == Found(["1", "5"], 4);
    assert RowsFrom(s, 4, Init, ',', sd) == Rows([], false);
    assert RowsFrom(s, 0, Init, ',', sd) == Prepend([["1", "5"]], Rows([], false));
  }
}
