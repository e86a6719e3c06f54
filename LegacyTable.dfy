/**
 * `CsvTable` of the legacy source tree: a header list and a list of rows that the column operations of
 * `CsvTable.Common.cs` change in place. Each column operation checks its arguments, changes the header, and then
 * runs one loop over the rows that changes every row the same way; a row the change cannot be made to (it is too
 * short) throws, and the rows before it stay changed.
 *
 * The row changes are the functions below, the shared loop is `CsvTable.EditRows`, proved against `Edited`.
 */
module LegacyTable {
  import opened Wrappers
  import opened Text
  import opened CsvWriter
  import opened LegacyWriter

  /* ------------------------------------------------------------------------------------------------------------ */
  /* Changes of one row                                                                                            */

  /** `List<string>.Insert(i, v)`. */
  function InsertAt(row: seq<string>, i: nat, v: string): (r: Result<seq<string>>)
    ensures r.Ok? <==> i <= |row|
    ensures r.Err? ==> r.error == ArgumentOutOfRange
  {
    if i > |row| then Err(ArgumentOutOfRange) else Ok(row[..i] + [v] + row[i..])
  }

  /** `List<string>.RemoveAt(i)`. */
  function RemoveAt(row: seq<string>, i: nat): (r: Result<seq<string>>)
    ensures r.Ok? <==> i < |row|
    ensures r.Err? ==> r.error == ArgumentOutOfRange
  {
    if i >= |row| then Err(ArgumentOutOfRange) else Ok(row[..i] + row[i + 1..])
  }

  /** The value the factory gives row `k`, the empty string without a factory. */
  function Value(factory: Option<nat -> string>, k: nat): string
  {
    if factory.Some? then factory.value(k) else ""
  }

  /** The local `MoveIndex` of `MoveColumn`, corrected: the field at `c` is taken out and put back in at `n`. Reading
      `data[c]` fails first on a row that does not reach `c`; a row shorter than `n` gets the field at its end. */
  function MoveIndex(d: seq<string>, c: nat, n: nat): (r: Result<seq<string>>)
    ensures r.Ok? <==> c < |d|
    ensures r.Err? ==> r.error == IndexOutOfRange
  {
    if c >= |d| then Err(IndexOutOfRange)
    else if c < n then Ok(Take(d, c) + Take(Skip(d, c + 1), n - c) + [d[c]] + Skip(d, n + 1))
    else Ok(Take(d, n) + [d[c]] + Take(Skip(d, n), c - n) + Skip(d, c + 1))
  }

  /** `MoveIndex` as the source writes it: the backward case skips `n + 1` fields where it should skip `n`. */
  function MoveIndexAsWritten(d: seq<string>, c: nat, n: nat): (r: Result<seq<string>>)
    ensures r.Ok? <==> c < |d|
  {
    if c >= |d| then Err(IndexOutOfRange)
    else if c < n then Ok(Take(d, c) + Take(Skip(d, c + 1), n - c) + [d[c]] + Skip(d, n + 1))
    else Ok(Take(d, n) + [d[c]] + Take(Skip(d, n + 1), c - n) + Skip(d, c + 1))
  }

  /** The local `SwapIndex` of `SwapColumn`: reading `data[a]`, then `data[b]`, fails before anything is written. */
  function SwapIndex(d: seq<string>, a: nat, b: nat): (r: Result<seq<string>>)
    ensures r.Ok? <==> a < |d| && b < |d|
    ensures r.Err? ==> r.error == IndexOutOfRange
  {
    if a >= |d| || b >= |d| then Err(IndexOutOfRange) else Ok(d[a := d[b]][b := d[a]])
  }

  /** Every field from `i` on has an index, and the index lies inside the row. */
  predicate Placeable(d: seq<string>, idx: seq<int>, i: nat)
  {
    (|d| <= i || |d| <= |idx|) && forall m :: i <= m < |d| ==> 0 <= idx[m] < |d|
  }

  lemma PlaceableStep(d: seq<string>, idx: seq<int>, i: nat)
    requires i < |d| && i < |idx| && 0 <= idx[i] < |d|
    ensures Placeable(d, idx, i) <==> Placeable(d, idx, i + 1)
  {
    if Placeable(d, idx, i + 1) {
      forall m | i <= m < |d| ensures 0 <= idx[m] < |d| {
        if m > i {
          assert i + 1 <= m < |d|;
        }
      }
    }
  }

  /** The loop of the local `ReorderIndex` of `ReorderColumns` from field `i` on, `res[idx[i]] = data[i]` for every
      field. A field without an index, or an index outside the row, fails. */
  function ReorderFrom(d: seq<string>, idx: seq<int>, i: nat, res: seq<string>): (r: Result<seq<string>>)
    requires i <= |d| && |res| == |d|
    ensures r.Ok? <==> Placeable(d, idx, i)
    ensures r.Ok? ==> |r.value| == |d|
    ensures r.Err? ==> r.error == IndexOutOfRange
    decreases |d| - i
  {
    if i == |d| then Ok(res)
    else if i >= |idx| || idx[i] < 0 || idx[i] >= |d| then Err(IndexOutOfRange)
    else
      PlaceableStep(d, idx, i);
      ReorderFrom(d, idx, i + 1, res[idx[i] := d[i]])
  }

  /** `ReorderIndex`: a new row of the same length, filled through the indexes. The source's array starts out with
      null entries; here an entry no index reaches stays empty. */
  function Reordered(d: seq<string>, idx: seq<int>): (r: Result<seq<string>>)
    ensures r.Ok? <==> Placeable(d, idx, 0)
    ensures r.Ok? ==> |r.value| == |d|
  {
    var init: seq<string> := seq(|d|, _ => "");
    ReorderFrom(d, idx, 0, init)
  }

  /** The change one column operation makes to every row. */
  datatype Edit =
    | Append(factory: Option<nat -> string>)             // `AddColumn` at the end
    | Insert(index: nat, factory: Option<nat -> string>) // `AddColumn` before an existing column
    | Remove(index: nat, ignore: bool)                   // `RemoveColumn`; in ignore mode a short row is skipped
    | Move(from: nat, to: nat)                           // `MoveColumn`
    | Swap(a: nat, b: nat)                               // `SwapColumn`
    | Reorder(indexes: seq<int>)                         // `ReorderColumns`

  /** The change `e` made to row `k`. */
  function EditRow(e: Edit, k: nat, row: seq<string>): Result<seq<string>>
  {
    match e
    case Append(f) => Ok(row + [Value(f, k)])
    case Insert(i, f) => InsertAt(row, i, Value(f, k))
    case Remove(i, ignore) => if ignore && |row| <= i then Ok(row) else RemoveAt(row, i)
    case Move(c, n) => MoveIndex(row, c, n)
    case Swap(a, b) => SwapIndex(row, a, b)
    case Reorder(idx) => Reordered(row, idx)
  }

  /* ------------------------------------------------------------------------------------------------------------ */
  /* The loop over the rows                                                                                        */

  /** The rows after the loop, the exception that stopped it, and the row where it stopped (the row count when it
      ran to the end). */
  datatype Applied = Applied(rows: seq<seq<string>>, error: Option<Error>, at: nat)

  /** The loop over the rows from row `i` on: changed rows are stored back, the first failing row stops it. */
  function EditedFrom(rows: seq<seq<string>>, i: nat, e: Edit): (a: Applied)
    requires i <= |rows|
    ensures |a.rows| == |rows| && i <= a.at <= |rows|
    ensures a.error.None? <==> a.at == |rows|
    ensures forall k :: 0 <= k < i ==> a.rows[k] == rows[k]
    ensures forall k :: i <= k < a.at ==> EditRow(e, k, rows[k]).Ok? && a.rows[k] == EditRow(e, k, rows[k]).value
    ensures forall k :: a.at <= k < |rows| ==> a.rows[k] == rows[k]
    ensures a.error.Some? ==> EditRow(e, a.at, rows[a.at]) == Err(a.error.value)
    decreases |rows| - i
  {
    if i == |rows| then Applied(rows, None, i)
    else
      match EditRow(e, i, rows[i])
      case Err(x) => Applied(rows, Some(x), i)
      case Ok(r) =>
        var rows' := rows[i := r];
        assert rows'[i] == r && forall k :: 0 <= k < |rows| && k != i ==> rows'[k] == rows[k];
        EditedFrom(rows', i + 1, e)
  }

  /** The loop over all rows. */
  function Edited(rows: seq<seq<string>>, e: Edit): Applied
  {
    EditedFrom(rows, 0, e)
  }

  /** Every row has one field per column. */
  predicate Rectangular(h: seq<string>, rows: seq<seq<string>>)
  {
    forall k :: 0 <= k < |rows| ==> |rows[k]| == |h|
  }

  /** `string.IsNullOrWhiteSpace` for a string that is not null: every character is white space for
      `char.IsWhiteSpace`. */
  predicate IsBlank(s: string)
  {
    forall k :: 0 <= k < |s| ==> IsWhiteSpace(s[k])
  }

  /** `char.IsWhiteSpace`: the control characters U+0009 to U+000D and U+0085, and the Unicode space, line and
      paragraph separators. */
  predicate IsWhiteSpace(c: char)
  {
    || '\U{0009}' <= c <= '\U{000D}' || c == ' ' || c == '\U{0085}' || c == '\U{00A0}' || c == '\U{1680}'
    || '\U{2000}' <= c <= '\U{200A}' || c == '\U{2028}' || c == '\U{2029}' || c == '\U{202F}' || c == '\U{205F}'
    || c == '\U{3000}'
  }

  function OutcomeOf(error: Option<Error>): (o: Outcome)
    ensures o.Pass? <==> error.None?
  {
    if error.Some? then Fail(error.value) else Pass
  }

  /* ------------------------------------------------------------------------------------------------------------ */
  /* The table                                                                                                     */

  class CsvTable {
    var header: seq<string>
    var rows: seq<seq<string>>

    constructor ()
      ensures header == [] && rows == []
    {
      header, rows := [], [];
    }

    function CountColumns(): (n: nat)
      reads this
      ensures n == |header|
    {
      |header|
    }

    function CountRows(): (n: nat)
      reads this
      ensures n == |rows|
    {
      |rows|
    }

    /** The loop every column operation runs over the rows, with the change `e`. */
    method EditRows(e: Edit) returns (error: Option<Error>)
      modifies this`rows
      ensures var a := Edited(old(rows), e); rows == a.rows && error == a.error
    {
      ghost var goal := Edited(rows, e);
      var i := 0;
      while i < |rows|
        invariant i <= |rows| && goal == EditedFrom(rows, i, e)
      {
        var r := EditOne(e, i, rows[i]);
        if r.Err? {
          return Some(r.error);
        }
        rows := rows[i := r.value];
        i := i + 1;
      }
      return None;
    }

    /** `CreateHeaders`: the positional names "0" .. "n-1" for the length n of the first row. */
    method CreateHeaders() returns (o: Outcome)
      modifies this`header
      ensures |rows| < 1 ==> o == Fail(InvalidOperation("No rows")) && header == old(header)
      ensures |rows| >= 1 ==> o == Pass && header == IndexNames(|rows[0]|)
    {
      if |rows| < 1 {
        return Fail(InvalidOperation("No rows"));
      }
      header := IndexNames(|rows[0]|);
      return Pass;
    }

    /** `AddColumn`: a negative index appends; the name must not be blank and the index must not lie beyond the
        last column. Every row gets the factory's value for its index, or the empty string, at that position. */
    method AddColumn(name: string, index: int, factory: Option<nat -> string>) returns (o: Outcome)
      modifies this
      ensures var idx := if index < 0 then |old(header)| else index;
              if IsBlank(name) then o == Fail(Argument("Header required")) && unchanged(this)
              else if idx > |old(header)| then o == Fail(Argument("Invalid index")) && unchanged(this)
              else
                var a := Edited(old(rows), if idx == |old(header)| then Append(factory) else Insert(idx, factory));
                header == InsertAt(old(header), idx, name).value && rows == a.rows && o == OutcomeOf(a.error)
    {
      var idx: nat := if index < 0 then |header| else index;
      if IsBlank(name) {
        return Fail(Argument("Header required"));
      }
      if idx > |header| {
        return Fail(Argument("Invalid index"));
      }
      var e;
      if idx == |header| {
        assert header[..idx] + [name] + header[idx..] == header + [name];
        header := header + [name];
        e := Append(factory);
      } else {
        header := header[..idx] + [name] + header[idx..];
        e := Insert(idx, factory);
      }
      var error := EditRows(e);
      o := OutcomeOf(error);
    }

    /** `RemoveColumn`: the index must name a column and the last column cannot be removed. */
    method RemoveColumn(index: int, ignore: bool) returns (o: Outcome)
      modifies this
      ensures if index < 0 || index >= |old(header)| then o == Fail(Argument("Invalid index")) && unchanged(this)
              else if |old(header)| == 1 then o == Fail(InvalidOperation("Can't remove all columns")) && unchanged(this)
              else
                var a := Edited(old(rows), Remove(index, ignore));
                header == RemoveAt(old(header), index).value && rows == a.rows && o == OutcomeOf(a.error)
    {
      if index < 0 || index >= |header| {
        return Fail(Argument("Invalid index"));
      }
      if |header| == 1 {
        return Fail(InvalidOperation("Can't remove all columns"));
      }
      header := header[..index] + header[index + 1..];
      var error := EditRows(Remove(index, ignore));
      o := OutcomeOf(error);
    }

    /** `MoveColumn` with the corrected `MoveIndex`; moving a column onto itself changes nothing. */
    method MoveColumn(c: int, n: int) returns (o: Outcome)
      modifies this
      ensures if c < 0 || c >= |old(header)| then o == Fail(Argument("Invalid current index")) && unchanged(this)
              else if n < 0 || n >= |old(header)| then o == Fail(Argument("Invalid new index")) && unchanged(this)
              else if c == n then o == Pass && unchanged(this)
              else
                var a := Edited(old(rows), Move(c, n));
                header == MoveIndex(old(header), c, n).value && rows == a.rows && o == OutcomeOf(a.error)
    {
      if c < 0 || c >= |header| {
        return Fail(Argument("Invalid current index"));
      }
      if n < 0 || n >= |header| {
        return Fail(Argument("Invalid new index"));
      }
      if c == n {
        return Pass;
      }
      header := MoveIndex(header, c, n).value;
      var error := EditRows(Move(c, n));
      o := OutcomeOf(error);
    }

    /** `SwapColumn`; swapping a column with itself changes nothing. */
    method SwapColumn(a: int, b: int) returns (o: Outcome)
      modifies this
      ensures if a < 0 || a >= |old(header)| then o == Fail(Argument("Invalid A index")) && unchanged(this)
              else if b < 0 || b >= |old(header)| then o == Fail(Argument("Invalid B index")) && unchanged(this)
              else if a == b then o == Pass && unchanged(this)
              else
                var x := Edited(old(rows), Swap(a, b));
                header == SwapIndex(old(header), a, b).value && rows == x.rows && o == OutcomeOf(x.error)
    {
      if a < 0 || a >= |header| {
        return Fail(Argument("Invalid A index"));
      }
      if b < 0 || b >= |header| {
        return Fail(Argument("Invalid B index"));
      }
      if a == b {
        return Pass;
      }
      header := header[a := header[b]][b := header[a]];
      var error := EditRows(Swap(a, b));
      o := OutcomeOf(error);
    }

    /** `ReorderColumns`: one new index per column; the header is reordered first, and when that fails nothing
        changes. */
    method ReorderColumns(indexes: Option<seq<int>>) returns (o: Outcome)
      modifies this
      ensures indexes.None? ==> o == Fail(ArgumentNull("newIndexes")) && unchanged(this)
      ensures indexes.Some? && |indexes.value| != |old(header)| ==>
                o == Fail(Argument("Index count mismatch")) && unchanged(this)
      ensures indexes.Some? && |indexes.value| == |old(header)| && Reordered(old(header), indexes.value).Err? ==>
                o == Fail(IndexOutOfRange) && unchanged(this)
      ensures indexes.Some? && |indexes.value| == |old(header)| && Reordered(old(header), indexes.value).Ok? ==>
                var a := Edited(old(rows), Reorder(indexes.value));
                header == Reordered(old(header), indexes.value).value && rows == a.rows && o == OutcomeOf(a.error)
    {
      if indexes.None? {
        return Fail(ArgumentNull("newIndexes"));
      }
      if |indexes.value| != |header| {
        return Fail(Argument("Index count mismatch"));
      }
      var h := ReorderIndex(header, indexes.value);
      if h.Err? {
        return Fail(h.error);
      }
      header := h.value;
      var error := EditRows(Reorder(indexes.value));
      o := OutcomeOf(error);
    }

    /** `AddRow`: a missing row is an error; outside ignore mode the row must have one field per column once there
        are columns. */
    method AddRow(row: Option<seq<string>>, ignore: bool) returns (o: Outcome)
      modifies this`rows
      ensures row.None? ==> o == Fail(Argument("Row required")) && rows == old(rows)
      ensures row.Some? && !ignore && |header| > 0 && |row.value| != |header| ==>
                o == Fail(Argument(NatToString(|header|) + " columns expected, " + NatToString(|row.value|) + " in row"))
                && rows == old(rows)
      ensures row.Some? && (ignore || |header| == 0 || |row.value| == |header|) ==>
                o == Pass && rows == old(rows) + [row.value]
    {
      if row.None? {
        return Fail(Argument("Row required"));
      }
      var r := row.value;
      if !ignore && |header| > 0 && |r| != |header| {
        return Fail(Argument(NatToString(|header|) + " columns expected, " + NatToString(|r|) + " in row"));
      }
      rows := rows + [r];
      return Pass;
    }

    /** `Validate`: outside ignore mode the table needs a column and every row one field per column. */
    function Validate(ignore: bool): (o: Outcome)
      reads this
      ensures o.Pass? <==> ignore || (|header| >= 1 && Rectangular(header, rows))
      ensures !ignore && |header| < 1 ==> o == Fail(InvalidData("No columns"))
      ensures !ignore && |header| >= 1 && !Rectangular(header, rows) ==> o == Fail(InvalidData("Rows with invalid field count"))
    {
      if ignore then Pass
      else if |header| < 1 then Fail(InvalidData("No columns"))
      else if exists k :: 0 <= k < |rows| && |rows[k]| != |header| then Fail(InvalidData("Rows with invalid field count"))
      else Pass
    }

    /** `Clear`: the rows, and the header too when asked. */
    method Clear(includingHeader: bool)
      modifies this
      ensures rows == [] && header == if includingHeader then [] else old(header)
    {
      if includingHeader {
        header := [];
      }
      rows := [];
    }

    /** `ToString`: the header line when asked for, then one line per row. */
    method ToString(withHeader: bool, fd: char, sd: Option<char>, nl: NewLine) returns (r: Result<string>)
      ensures r == LegacyText(withHeader, header, rows, fd, sd, nl)
    {
      assert ([header] + rows)[0] == header && ([header] + rows)[1..] == rows;
      var sb := "";
      if withHeader {
        var line := WriteLine(header, fd, sd, nl);
        if line.Err? {
          return Err(line.error);
        }
        sb := line.value;
      }
      var rest := WriteLines(rows, fd, sd, nl);
      if rest.Err? {
        return Err(rest.error);
      }
      assert !withHeader ==> sb + rest.value == rest.value;
      return Ok(sb + rest.value);
    }
  }

  /** `EditRow`, with the loop of `ReorderIndex` for a reordering. */
  method EditOne(e: Edit, k: nat, row: seq<string>) returns (r: Result<seq<string>>)
    ensures r == EditRow(e, k, row)
  {
    if e.Reorder? {
      r := ReorderIndex(row, e.indexes);
    } else {
      r := EditRow(e, k, row);
    }
  }

  /** The local `ReorderIndex`: a fresh array of the row's length, and `res[idx[i]] = data[i]` for every field. */
  method ReorderIndex(d: seq<string>, idx: seq<int>) returns (r: Result<seq<string>>)
    ensures r == Reordered(d, idx)
  {
    var res := new string[|d|](_ => "");
    assert res[..] == seq(|d|, _ => "");
    var i := 0;
    while i < |d|
      invariant 0 <= i <= |d| && res.Length == |d|
      invariant Reordered(d, idx) == ReorderFrom(d, idx, i, res[..])
    {
      if i >= |idx| || idx[i] < 0 || idx[i] >= |d| {
        return Err(IndexOutOfRange);
      }
      res[idx[i]] := d[i];
      i := i + 1;
    }
    return Ok(res[..]);
  }

  /* ------------------------------------------------------------------------------------------------------------ */
  /* Lemmas about one row                                                                                          */

  /** Removing what was inserted gives the row back. */
  lemma InsertRemove(row: seq<string>, i: nat, v: string)
    requires i <= |row|
    ensures InsertAt(row, i, v).Ok? && |InsertAt(row, i, v).value| == |row| + 1 && InsertAt(row, i, v).value[i] == v
    ensures RemoveAt(InsertAt(row, i, v).value, i) == Ok(row)
  {
    var r := row[..i] + [v] + row[i..];
    assert r[..i] == row[..i] && r[i + 1..] == row[i..];
    assert row[..i] + row[i..] == row;
  }

  /** Inserting what was removed gives the row back. */
  lemma RemoveInsert(row: seq<string>, i: nat)
    requires i < |row|
    ensures RemoveAt(row, i).Ok? && |RemoveAt(row, i).value| == |row| - 1
    ensures InsertAt(RemoveAt(row, i).value, i, row[i]) == Ok(row)
  {
    var r := row[..i] + row[i + 1..];
    assert r[..i] == row[..i] && r[i..] == row[i + 1..];
    assert row[..i] + [row[i]] + row[i + 1..] == row;
  }

  /** Appending is inserting after the last field. */
  lemma AppendIsInsert(row: seq<string>, v: string)
    ensures InsertAt(row, |row|, v) == Ok(row + [v])
  {
    assert row[..|row|] == row && row[|row|..] == [];
    assert row[..|row|] + [v] + row[|row|..] == row + [v];
  }

  /** The corrected `MoveIndex` on a row that reaches both positions, in slices. */
  lemma MoveIndexSlices(d: seq<string>, c: nat, n: nat)
    requires c < |d| && n < |d|
    ensures MoveIndex(d, c, n).Ok?
    ensures c < n ==> MoveIndex(d, c, n).value == d[..c] + d[c + 1..n + 1] + [d[c]] + d[n + 1..]
    ensures n <= c ==> MoveIndex(d, c, n).value == d[..n] + [d[c]] + d[n..c] + d[c + 1..]
  {
    if c < n {
      assert Take(d, c) == d[..c] && Skip(d, n + 1) == d[n + 1..];
      assert Take(Skip(d, c + 1), n - c) == d[c + 1..][..n - c] == d[c + 1..n + 1];
    } else {
      assert Take(d, n) == d[..n] && Skip(d, c + 1) == d[c + 1..];
      assert Take(Skip(d, n), c - n) == d[n..][..c - n] == d[n..c];
    }
  }

  /** The forward shape: the fields after `c` up to `n` move one place left and the field at `c` lands at `n`. */
  lemma ForwardShape(d: seq<string>, c: nat, n: nat)
    requires c < n < |d|
    ensures var r := d[..c] + d[c + 1..n + 1] + [d[c]] + d[n + 1..];
            && |r| == |d| && r[n] == d[c]
            && (forall k :: 0 <= k < c ==> r[k] == d[k])
            && (forall k :: c <= k < n ==> r[k] == d[k + 1])
            && (forall k :: n < k < |d| ==> r[k] == d[k])
            && multiset(r) == multiset(d)
  {
    var a, b, x, t := d[..c], d[c + 1..n + 1], [d[c]], d[n + 1..];
    var r := a + b + x + t;
    assert d == a + x + b + t;
    forall k | c <= k < n ensures r[k] == d[k + 1] {
      assert r[k] == b[k - c];
    }
    forall k | n < k < |d| ensures r[k] == d[k] {
      assert r[k] == t[k - n - 1];
    }
  }

  /** The backward shape: the field at `c` lands at `n` and the fields from `n` up to `c` move one place right. */
  lemma BackwardShape(d: seq<string>, c: nat, n: nat)
    requires n <= c < |d|
    ensures var r := d[..n] + [d[c]] + d[n..c] + d[c + 1..];
            && |r| == |d| && r[n] == d[c]
            && (forall k :: 0 <= k < n ==> r[k] == d[k])
            && (forall k :: n < k <= c ==> r[k] == d[k - 1])
            && (forall k :: c < k < |d| ==> r[k] == d[k])
            && multiset(r) == multiset(d)
  {
    var a, x, b, t := d[..n], [d[c]], d[n..c], d[c + 1..];
    var r := a + x + b + t;
    assert d == a + b + x + t;
    forall k | n < k <= c ensures r[k] == d[k - 1] {
      assert r[k] == b[k - n - 1];
    }
    forall k | c < k < |d| ensures r[k] == d[k] {
      assert r[k] == t[k - c - 1];
    }
  }

  /** The corrected `MoveIndex` puts the field at `c` at `n`, shifts the fields between by one towards `c`, leaves
      the fields outside both positions alone and loses or duplicates nothing. */
  lemma MovePlaces(d: seq<string>, c: nat, n: nat)
    requires c < |d| && n < |d|
    ensures MoveIndex(d, c, n).Ok?
    ensures |MoveIndex(d, c, n).value| == |d| && MoveIndex(d, c, n).value[n] == d[c]
    ensures forall k :: 0 <= k < |d| && k < c && k < n ==> MoveIndex(d, c, n).value[k] == d[k]
    ensures forall k :: c < k < |d| && n < k ==> MoveIndex(d, c, n).value[k] == d[k]
    ensures c < n ==> forall k :: c <= k < n ==> MoveIndex(d, c, n).value[k] == d[k + 1]
    ensures n < c ==> forall k :: n < k <= c ==> MoveIndex(d, c, n).value[k] == d[k - 1]
    ensures multiset(MoveIndex(d, c, n).value) == multiset(d)
  {
    MoveIndexSlices(d, c, n);
    if c < n {
      ForwardShape(d, c, n);
    } else {
      BackwardShape(d, c, n);
    }
  }

  /** Moving the field back from `n` to `c` undoes the move. */
  lemma MoveBack(d: seq<string>, c: nat, n: nat)
    requires c < |d| && n < |d|
    ensures MoveIndex(d, c, n).Ok? && |MoveIndex(d, c, n).value| == |d|
    ensures MoveIndex(MoveIndex(d, c, n).value, n, c) == Ok(d)
  {
    MoveIndexSlices(d, c, n);
    var r := MoveIndex(d, c, n).value;
    MoveIndexSlices(r, n, c);
    if c < n {
      ForwardThenBack(d, c, n);
    } else if n < c {
      BackThenForward(d, c, n);
    } else {
      StayPut(d, n);
      StayPut(r, n);
    }
  }

  lemma StayPut(d: seq<string>, n: nat)
    requires n < |d|
    ensures d[..n] + [d[n]] + d[n..n] + d[n + 1..] == d
  {
    assert d == d[..n] + [d[n]] + d[n + 1..];
  }

  lemma ForwardThenBack(d: seq<string>, c: nat, n: nat)
    requires c < n < |d|
    ensures var r := d[..c] + d[c + 1..n + 1] + [d[c]] + d[n + 1..];
            r[..c] + [r[n]] + r[c..n] + r[n + 1..] == d
  {
    var a, b, x, t := d[..c], d[c + 1..n + 1], [d[c]], d[n + 1..];
    var r := a + b + x + t;
    assert r[..c] == a && r[c..n] == b && r[n] == d[c] && r[n + 1..] == t;
    assert d == a + x + b + t;
  }

  lemma BackThenForward(d: seq<string>, c: nat, n: nat)
    requires n < c < |d|
    ensures var r := d[..n] + [d[c]] + d[n..c] + d[c + 1..];
            r[..n] + r[n + 1..c + 1] + [r[n]] + r[c + 1..] == d
  {
    var a, x, b, t := d[..n], [d[c]], d[n..c], d[c + 1..];
    var r := a + x + b + t;
    assert r[..n] == a && r[n + 1..c + 1] == b && r[n] == d[c] && r[c + 1..] == t;
    assert d == a + b + x + t;
  }

  /** As written, a backward move overwrites the field at `n` with the field at `c` and leaves everything else. */
  lemma MoveAsWrittenOverwrites(d: seq<string>, c: nat, n: nat)
    requires n < c < |d|
    ensures MoveIndexAsWritten(d, c, n) == Ok(d[n := d[c]])
  {
    assert Take(d, n) == d[..n] && Skip(d, c + 1) == d[c + 1..];
    assert Take(Skip(d, n + 1), c - n) == d[n + 1..][..c - n] == d[n + 1..c + 1];
    OverwriteShape(d, c, n);
  }

  lemma OverwriteShape(d: seq<string>, c: nat, n: nat)
    requires n < c < |d|
    ensures d[..n] + [d[c]] + d[n + 1..c + 1] + d[c + 1..] == d[n := d[c]]
  {
    assert d[n + 1..c + 1] + d[c + 1..] == d[n + 1..];
    assert d[n := d[c]] == d[..n] + [d[c]] + d[n + 1..];
  }

  /** Forward moves are the same in both versions. */
  lemma MoveForwardAgrees(d: seq<string>, c: nat, n: nat)
    requires c < n
    ensures MoveIndexAsWritten(d, c, n) == MoveIndex(d, c, n)
  {
  }

  /** Moving the last of three columns to the front, as written, loses the first field and duplicates the moved one;
      the corrected move keeps all three. */
  lemma MoveAsWrittenExample()
    ensures MoveIndexAsWritten(["a", "b", "c"], 2, 0) == Ok(["c", "b", "c"])
    ensures MoveIndex(["a", "b", "c"], 2, 0) == Ok(["c", "a", "b"])
    ensures multiset(MoveIndexAsWritten(["a", "b", "c"], 2, 0).value) != multiset(["a", "b", "c"])
  {
    AsWrittenBackExample();
    MovedBackExample();
    assert "a" !in multiset(["c", "b", "c"]);
  }

  lemma AsWrittenBackExample()
    ensures MoveIndexAsWritten(["a", "b", "c"], 2, 0) == Ok(["c", "b", "c"])
  {
    MoveAsWrittenOverwrites(["a", "b", "c"], 2, 0);
    assert ["a", "b", "c"][0 := "c"] == ["c", "b", "c"];
  }

  lemma MovedBackExample()
    ensures MoveIndex(["a", "b", "c"], 2, 0) == Ok(["c", "a", "b"])
  {
    var d := ["a", "b", "c"];
    MoveIndexSlices(d, 2, 0);
    assert d[..0] == [] && d[0..2] == ["a", "b"] && d[3..] == [];
    assert [] + ["c"] + ["a", "b"] + [] == ["c", "a", "b"];
  }

  /** Swapping twice gives the row back; a swap exchanges the two fields and leaves the others alone. */
  lemma SwapTwice(d: seq<string>, a: nat, b: nat)
    requires a < |d| && b < |d|
    ensures SwapIndex(d, a, b).Ok? && |SwapIndex(d, a, b).value| == |d|
    ensures SwapIndex(d, a, b).value[a] == d[b] && SwapIndex(d, a, b).value[b] == d[a]
    ensures forall k :: 0 <= k < |d| && k != a && k != b ==> SwapIndex(d, a, b).value[k] == d[k]
    ensures SwapIndex(SwapIndex(d, a, b).value, a, b) == Ok(d)
  {
    var r := d[a := d[b]][b := d[a]];
    assert r[a := r[b]][b := r[a]] == d;
  }

  /** A swap loses or duplicates no field. */
  lemma SwapKeeps(d: seq<string>, a: nat, b: nat)
    requires a < |d| && b < |d|
    ensures SwapIndex(d, a, b).Ok? && multiset(SwapIndex(d, a, b).value) == multiset(d)
  {
    var e := d[a := d[b]];
    assert multiset(e) == multiset(d) - multiset{d[a]} + multiset{d[b]};
    assert multiset(e[b := d[a]]) == multiset(e) - multiset{e[b]} + multiset{d[a]};
  }

  /** Reordering from field `i` on with distinct indexes puts field `m` at position `idx[m]` and leaves every position
      that no index names as it was in `res`. */
  lemma {:induction false} ReorderPlacesFrom(d: seq<string>, idx: seq<int>, i: nat, res: seq<string>)
    requires i <= |d| && |res| == |d| && Placeable(d, idx, i)
    requires forall m, m' :: i <= m < m' < |d| ==> idx[m] != idx[m']
    ensures ReorderFrom(d, idx, i, res).Ok?
    ensures forall m :: i <= m < |d| ==> ReorderFrom(d, idx, i, res).value[idx[m]] == d[m]
    ensures forall p :: 0 <= p < |d| && (forall m :: i <= m < |d| ==> idx[m] != p) ==>
              ReorderFrom(d, idx, i, res).value[p] == res[p]
    decreases |d| - i
  {
    if i < |d| {
      PlaceableStep(d, idx, i);
      var res' := res[idx[i] := d[i]];
      ReorderPlacesFrom(d, idx, i + 1, res');
      var r := ReorderFrom(d, idx, i, res).value;
      assert r == ReorderFrom(d, idx, i + 1, res').value;
      forall m | i <= m < |d| ensures r[idx[m]] == d[m] {
        if m == i {
          assert forall m' :: i + 1 <= m' < |d| ==> idx[m'] != idx[i];
        }
      }
    }
  }

  /** `ReorderColumns` on one row: with distinct indexes, field `m` ends at position `idx[m]`; a position no index
      names is left empty. */
  lemma ReorderPlaces(d: seq<string>, idx: seq<int>)
    requires Placeable(d, idx, 0)
    requires forall m, m' :: 0 <= m < m' < |d| ==> idx[m] != idx[m']
    ensures Reordered(d, idx).Ok? && |Reordered(d, idx).value| == |d|
    ensures forall m :: 0 <= m < |d| ==> Reordered(d, idx).value[idx[m]] == d[m]
    ensures forall p :: 0 <= p < |d| && (forall m :: 0 <= m < |d| ==> idx[m] != p) ==> Reordered(d, idx).value[p] == ""
  {
    ReorderPlacesFrom(d, idx, 0, seq(|d|, _ => ""));
  }

  /* ------------------------------------------------------------------------------------------------------------ */
  /* Lemmas about whole tables                                                                                     */

  /** When `e2` undoes `e1` on every row, applying one after the other changes nothing and fails nowhere. */
  lemma EditedInverse(rows: seq<seq<string>>, e1: Edit, e2: Edit)
    requires forall k :: 0 <= k < |rows| ==>
               EditRow(e1, k, rows[k]).Ok? && EditRow(e2, k, EditRow(e1, k, rows[k]).value) == Ok(rows[k])
    ensures Edited(rows, e1).error.None?
    ensures forall k :: 0 <= k < |rows| ==> Edited(rows, e1).rows[k] == EditRow(e1, k, rows[k]).value
    ensures Edited(Edited(rows, e1).rows, e2) == Applied(rows, None, |rows|)
  {
    var a := Edited(rows, e1);
    var b := Edited(a.rows, e2);
    assert b.rows == rows;
  }

  /** `AddColumn` then `RemoveColumn` at the same index gives the table back, header and rows, and the table in
      between has one more column in every row and in the header. */
  lemma AddThenRemove(h: seq<string>, rows: seq<seq<string>>, i: nat, name: string, f: Option<nat -> string>,
                      ignore: bool)
    requires Rectangular(h, rows) && i <= |h|
    ensures var e := if i == |h| then Append(f) else Insert(i, f);
            && InsertAt(h, i, name).Ok?
            && Edited(rows, e).error.None?
            && Rectangular(InsertAt(h, i, name).value, Edited(rows, e).rows)
            && RemoveAt(InsertAt(h, i, name).value, i) == Ok(h)
            && Edited(Edited(rows, e).rows, Remove(i, ignore)) == Applied(rows, None, |rows|)
  {
    var e := if i == |h| then Append(f) else Insert(i, f);
    forall k | 0 <= k < |rows|
      ensures EditRow(e, k, rows[k]) == InsertAt(rows[k], i, Value(f, k))
      ensures |EditRow(e, k, rows[k]).value| == |h| + 1
      ensures EditRow(Remove(i, ignore), k, EditRow(e, k, rows[k]).value) == Ok(rows[k])
    {
      AppendIsInsert(rows[k], Value(f, k));
      InsertRemove(rows[k], i, Value(f, k));
    }
    EditedInverse(rows, e, Remove(i, ignore));
    InsertRemove(h, i, name);
  }

  /** `RemoveColumn` of an index inside a rectangular table fails nowhere and keeps it rectangular. */
  lemma RemoveKeepsShape(h: seq<string>, rows: seq<seq<string>>, i: nat, ignore: bool)
    requires Rectangular(h, rows) && i < |h|
    ensures Edited(rows, Remove(i, ignore)).error.None?
    ensures Rectangular(RemoveAt(h, i).value, Edited(rows, Remove(i, ignore)).rows)
  {
  }

  /** `MoveColumn` then the move back gives the table back, and the table in between is rectangular. */
  lemma MoveThenBack(h: seq<string>, rows: seq<seq<string>>, c: nat, n: nat)
    requires Rectangular(h, rows) && c < |h| && n < |h|
    ensures MoveIndex(h, c, n).Ok? && MoveIndex(MoveIndex(h, c, n).value, n, c) == Ok(h)
    ensures Edited(rows, Move(c, n)).error.None?
    ensures Rectangular(MoveIndex(h, c, n).value, Edited(rows, Move(c, n)).rows)
    ensures Edited(Edited(rows, Move(c, n)).rows, Move(n, c)) == Applied(rows, None, |rows|)
  {
    forall k | 0 <= k < |rows|
      ensures EditRow(Move(c, n), k, rows[k]).Ok? && |EditRow(Move(c, n), k, rows[k]).value| == |h|
      ensures EditRow(Move(n, c), k, EditRow(Move(c, n), k, rows[k]).value) == Ok(rows[k])
    {
      MoveBack(rows[k], c, n);
    }
    EditedInverse(rows, Move(c, n), Move(n, c));
    MoveBack(h, c, n);
  }

  /** `SwapColumn` twice with the same indexes gives the rows back, whether or not some row is too short. */
  lemma SwapThenSwap(rows: seq<seq<string>>, a: nat, b: nat)
    ensures Edited(Edited(rows, Swap(a, b)).rows, Swap(a, b)).rows == rows
  {
    var x := Edited(rows, Swap(a, b));
    var y := Edited(x.rows, Swap(a, b));
    forall k | 0 <= k < x.at
      ensures EditRow(Swap(a, b), k, x.rows[k]) == Ok(rows[k])
    {
      SwapTwice(rows[k], a, b);
    }
    assert y.rows == rows;
  }

  /** `ReorderColumns` with indexes the header accepts fails on no row of a rectangular table and keeps it
      rectangular. */
  lemma ReorderKeepsShape(h: seq<string>, rows: seq<seq<string>>, idx: seq<int>)
    requires Rectangular(h, rows) && Reordered(h, idx).Ok?
    ensures Edited(rows, Reorder(idx)).error.None?
    ensures Rectangular(Reordered(h, idx).value, Edited(rows, Reorder(idx)).rows)
  {
  }

}
