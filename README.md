# CSV-Parser in Dafny

This project models the core of the `wan24.Data` CSV library (CSV-Parser). It covers two generations of the code: the
current tree under `src/CSV-Parser/` and the legacy tree under `CSV-Parser/`. The library tokenizes CSV text with a
character-by-character state machine. It parses the text into a `CsvTable` of a column header and rows, counts rows,
and reads only the header. It writes rows back as CSV with string delimiters, and it reads and writes CSV through a
buffered `CsvStream` that wraps a byte stream.

The Dafny modules follow the program's structure:

- `Wrappers`: `Option`, `Result` and `Outcome`, plus the .NET exception kinds as an `Error` datatype (with the
  source's messages).
- `Text`: strings, the single-byte text encoding, and the "append a newline unless there is one" normalisation.
- `Tokenizer`: the shared tokenizer of `EnumerateString`, `ParseHeaderFromString`, `ParseString` and
  `CountRowsFromString`. `Step` is one iteration of the C# `foreach`, with the same branch order. `Scan`, `RowsFrom`
  and `CountFrom` are recursive definitions of the loops.
- `CsvParser`: the string entry points as methods with `while` loops, each proved equal to a recursive definition.
  Both generations of `ParseString` are modelled.
- `CsvWriter`: `GetFinalField`, `EncodeRow` and `ValidateRow` of the current writer, and round-trip lemmas through
  the tokenizer.
- `Base`: a `MemoryStream`-like byte stream (`ByteStream`) with data, a position and a `closed` flag. A read may
  deliver at most `maxRead` bytes, which models a .NET `Read` that returns fewer bytes than requested.
- `Dictionaries`: the row-to-dictionary loop shared by `CsvStream` and `CsvTable`.
- `Stream`: the current `CsvStream` as a class (read buffer, buffer index and position, header, column count,
  header-written flag). Its readers, writers, counting and dictionaries are proved against functions on the unread
  bytes.
- `Table`: the current `CsvTable` class.
- `LegacyWriter`: the legacy `CsvTable.ToString`, which writes numbers bare and quotes everything else.
- `LegacyTable`: the legacy `CsvTable` class with its column operations.
- `LegacyStream`: the legacy `CsvStream` reader (shift, then fill chunk by chunk).
- `StreamParser`: the static stream entry points (`ParseStream`, `CountRowsFromStream`, `ParseHeaderFromStream`) of
  both generations.

Modelling choices:

- The global `CsvParser.IgnoreErrors` is a parameter `ignore`.
- `Environment.NewLine` is the datatype `NewLine` (`LF` or `CRLF`).
- A `char?` string delimiter is an `Option<char>`.
- Exceptions are `Err` values. Each carries its .NET type and, where the source gives one, its message (the
  current generation's wording where the two generations differ).
- Text encoding is the identity between bytes and characters below 256.
- A refill error of the current reader (a short read, or a request that overruns the buffer) is a "buffer fault".
  Each reader contract says the result is the defined one *or* a buffer fault. It is exactly the defined one
  when every line fits in the buffer and no read falls short (`Roomy`, `AllRoomy`).
- The legacy `WriteHeader` and `WriteRows` (CSV-Parser/CsvStream.cs:237-289 and CSV-Parser/CsvStream.Common.cs:51-103)
  make the same checks, in the same order, as the current `ValidateHeader`, `ValidateRow` and `EncodeRow`, written
  inline and with shorter messages for a refused row. `Stream.CsvStream.WriteHeader` and `Stream.CsvStream.WriteRows`
  model both generations.
- The legacy `CsvStream` code exists twice, in CSV-Parser/CsvStream.cs and CSV-Parser/CsvStream.Common.cs, with the
  same read methods. The table cites the latter.
- The legacy readers parse a decoded line with the legacy tree's `ParseHeaderFromString`
  (CSV-Parser/CsvParser.cs:369-401), whose text is the same as the current one (src/CSV-Parser/CsvParser.Header.cs:121-153).
  Where `LegacyStream` says it uses the current reader's line parse (`Stream.LineRow`, `Stream.HeaderOf`), it is that
  shared function.
- The legacy reader decodes `GetString(ReadBuffer, BufferIndex, len)` after a stop byte: the bytes from the cursor,
  `len` of them. The cursor is then one past the stop byte, so the range holds the bytes after the line, not the
  line: on `a,b` LF `c,d` LF read in one chunk, `ReadRow` parses `c,d` (`LegacyStream.DecodesBehindStop`). The
  model keeps that range as written (`LegacyStream.Decoded`), including the `ArgumentOutOfRangeException` when the
  range runs past the buffer.
- The legacy readers ask for at most the whole stream length per request, not what remains. At the end of the data
  that request cannot be met, and the read fails with an `IOException` (`LegacyStream.ShortAtEnd`). The second row of the
  Findings table (CSV-Parser/CsvParser.cs:308) is the same defect in `ParseHeaderFromStream`.

## Model

| member | source | states |
|---|---|---|
| Text.EnsureNewline | src/CSV-Parser/CsvParser.Header.cs:123 | the text ends in a line feed; it is unchanged exactly when it already ended in one, and otherwise one line feed is appended |
| Text.DecodeEncode | src/CSV-Parser/CsvStream.Common.cs:423-426 | decoding the encoded bytes of single-byte text gives the text back |
| Text.IndexNames | src/CSV-Parser/CsvParser.Parse.cs:199 | one generated column name per field of the first row |
| Tokenizer.Step | src/CSV-Parser/CsvParser.Enumerate.cs:66-90 | one character of the tokenizer: a field delimiter adds a field, an unquoted newline emits a row of the current width, and nothing removes a field |
| Tokenizer.Scan | src/CSV-Parser/CsvParser.Header.cs:127-152 | scanning to the first unquoted newline finds a row at least as wide as the state's row and ends after the newline |
| Tokenizer.CountFrom | src/CSV-Parser/CsvParser.Count.cs:98-106 | the row counter never counts more rows than there are newlines |
| Tokenizer.EnumerateMatchesCount | src/CSV-Parser/CsvParser.Count.cs:93-108 | without a fault, `EnumerateString` yields exactly `CountRowsFromString` rows; with a fault it yields fewer |
| Tokenizer.HeaderIsFirstRow | src/CSV-Parser/CsvParser.Header.cs:121-153 | the header is the first enumerated row; with no rows it is null, or the `Substring` fault when enumerating faults |
| Tokenizer.HeaderNullIffNoRows | src/CSV-Parser/CsvParser.Header.cs:152 | the header is null exactly when `CountRowsFromString` counts no rows |
| Tokenizer.DoubledDelimiterNeutral | src/CSV-Parser/CsvParser.Count.cs:99-102 | a doubled string delimiter leaves the row count unchanged |
| Tokenizer.CountWithoutQuotes | src/CSV-Parser/CsvParser.Count.cs:103-106 | with no string-delimiter character in the text, the count is the number of newlines |
| Tokenizer.RowCountBounds | src/CSV-Parser/CsvParser.Count.cs:95 | normalised text has at least one newline; the count is at most the number of newlines, and equal to it without quotes |
| Tokenizer.ScanWidth | src/CSV-Parser/CsvParser.Header.cs:135-140 | a scanned row gains one field per unquoted field delimiter |
| Tokenizer.HeaderWidth | src/CSV-Parser/CsvParser.Header.cs:135-140 | a header has one field more than its line has unquoted field delimiters |
| Tokenizer.NoFaultUnlessCrDelimiter | src/CSV-Parser/CsvParser.Header.cs:143 | unless the string delimiter is a carriage return, the CR trim never faults: the header is defined and enumeration does not fault |
| Tokenizer.CrDelimiterFault | src/CSV-Parser/CsvParser.Header.cs:143 | with a carriage return as string delimiter, the CR trim of an empty field throws `ArgumentOutOfRangeException` |
| Tokenizer.PlainLine | src/CSV-Parser/CsvParser.Header.cs:128-150 | a line without newlines or string delimiters is its split at the field delimiter, with a final carriage return trimmed |
| Tokenizer.PlainLineKeepsText | src/CSV-Parser/CsvParser.Header.cs:128-150 | joining such a header with the field delimiter, plus the trimmed carriage return, gives the line back |
| Tokenizer.StepsConcat | src/CSV-Parser/CsvParser.Enumerate.cs:63-91 | running the tokenizer over two pieces of text is running it over the first and then, unless a row or a fault ended the first, over the second |
| CsvParser.Absorb | src/CSV-Parser/CsvParser.Parse.cs:197-211 | absorbing a row never drops rows already collected |
| CsvParser.Selected | src/CSV-Parser/CsvParser.Parse.cs:206-209 | the selection keeps the header and holds at most `limit` rows when a limit is set |
| CsvParser.CollectSelects | src/CSV-Parser/CsvParser.Parse.cs:202-210 | when every row has the header's width, collecting is selection: skip before the offset, stop at the limit |
| CsvParser.CollectRejects | src/CSV-Parser/CsvParser.Parse.cs:204-205 | without a limit, any row of another width fails with `IndexOutOfRangeException` |
| CsvParser.CollectStopsAtLimit | src/CSV-Parser/CsvParser.Parse.cs:209 | once the limit is reached, later input is never examined |
| CsvParser.RowsNonEmpty | src/CSV-Parser/CsvParser.Parse.cs:202 | every enumerated row has at least one field |
| CsvParser.ParseOfRows | src/CSV-Parser/CsvParser.Parse.cs:174-175 | parsing is collecting the enumerated rows, starting at the first kept index (the offset plus one when one is given) |
| CsvParser.ParseNoRows | src/CSV-Parser/CsvParser.Parse.cs:224 | text without rows parses to an empty table, or to the CR-trim fault |
| CsvParser.ParseWithHeader | src/CSV-Parser/CsvParser.Parse.cs:197-201 | with a header, the first row is the header and the rest are selected, the header line counting as index 0 |
| CsvParser.ParseWithoutHeader | src/CSV-Parser/CsvParser.Parse.cs:199 | without a header, the columns are named "0".."n-1" from the first row and every row is selected |
| CsvParser.ParseRejectsWidth | src/CSV-Parser/CsvParser.Parse.cs:204-205 | without a limit, a row of the wrong width anywhere (before the offset too) fails the whole parse |
| CsvParser.ParseHeaderFromString | src/CSV-Parser/CsvParser.Header.cs:121-153 | the loop returns `HeaderOf`: the first row, null when no row is complete, or the CR-trim fault |
| CsvParser.EnumerateString | src/CSV-Parser/CsvParser.Enumerate.cs:56-92 | the loop yields exactly the rows `RowsOf` defines, faulting where it does |
| CsvParser.CountRowsFromString | src/CSV-Parser/CsvParser.Count.cs:93-108 | the loop returns `RowCount`, the number of unquoted newlines of the normalised text |
| CsvParser.ParseString | src/CSV-Parser/CsvParser.Parse.cs:165-225 | the loop returns `ParseOf`, the table or error that the lemmas below characterise |
| CsvParser.AddParsedRow | src/CSV-Parser/CsvParser.Parse.cs:197-211 | one emitted row updates the table as `Absorb` specifies |
| CsvParser.LegacyParseString | CSV-Parser/CsvParser.cs:98-150 | the legacy parser is the current one without offset or limit, never ignoring width errors |
| CsvWriter.NewLineText | src/CSV-Parser/CsvStream.Common.cs:426 | both line ends end in a line feed |
| CsvWriter.FinalField | src/CSV-Parser/CsvStream.Common.cs:272-278 | a field that needs no quotes is unchanged; one that does fails with "String delimiter required" when there is no string delimiter (unless errors are ignored), and is wrapped in string delimiters otherwise |
| CsvWriter.FinalFields | src/CSV-Parser/CsvStream.Common.cs:426 | the row's fields are written one by one; the row fails exactly when one field fails |
| CsvWriter.RowText | src/CSV-Parser/CsvStream.Common.cs:423-426 | a written row ends with a line feed |
| CsvWriter.EncodeRow | src/CSV-Parser/CsvStream.Common.cs:423-426 | the bytes exist exactly when the row text does, one byte per character |
| CsvWriter.ValidateRow | src/CSV-Parser/CsvStream.Common.cs:383-395 | a row is refused exactly when it is empty (errors ignored) or its width differs from a known header |
| CsvWriter.EncodeRowRoundTrip | src/CSV-Parser/CsvStream.Common.cs:423-426 | a row of writable fields, written and read back by `ParseHeaderFromString`, is the same row |
| CsvWriter.RowsRoundTrip | src/CSV-Parser/CsvStream.Common.cs:76-89 | rows written one after another are enumerated back as the same rows, without a fault |
| CsvWriter.RowsTextOk | src/CSV-Parser/CsvStream.Common.cs:76-89 | writable rows are always written, and the text ends in a line feed |
| CsvWriter.QuoteDoublingExample | src/CSV-Parser/CsvStream.Common.cs:278 | `b"c` is written as `"b""c"` |
| CsvWriter.QuoteDelimiterExample | src/CSV-Parser/CsvStream.Common.cs:272-278 | `b,c` is quoted, and without a string delimiter it fails |
| CsvWriter.RowExample | src/CSV-Parser/CsvStream.Common.cs:423-426 | the row `a`, `b"c` is the line `a,"b""c"` |
| CsvWriter.CrLfRowExample | src/CSV-Parser/CsvStream.Common.cs:423-426 | with CR LF, the row `a`, `b,c` is the line `a,"b,c"` then CR LF |
| CsvWriter.ReadBackExamples | src/CSV-Parser/CsvParser.Header.cs:121-153 | both example lines read back as their rows |
| Base.OverwriteSlices | src/CSV-Parser/CsvStream.cs:215 | a write keeps the bytes before the position, puts the new bytes at it, and keeps the bytes after them |
| Base.OverwriteAtEnd | src/CSV-Parser/CsvStream.cs:215 | a write at the end appends |
| Base.OverwriteTwice | src/CSV-Parser/CsvStream.Common.cs:84-86 | two writes in a row are one write of both |
| Base.ByteStream.Read | src/CSV-Parser/CsvStream.cs:206 | a read copies at most the requested, the available and `maxRead` bytes into the buffer at the offset, advances the position by that much and leaves the rest of the buffer alone; an overrunning range throws `ArgumentException` |
| Base.ByteStream.Write | src/CSV-Parser/CsvStream.cs:215 | the bytes overwrite the data at the position, which advances past them |
| Dictionaries.DictOf | src/CSV-Parser/CsvStream.Dictionary.cs:50-56 | the keys are the first `n` header names |
| Dictionaries.DictSize | src/CSV-Parser/CsvStream.Dictionary.cs:52 | a dictionary has at most `n` entries |
| Dictionaries.DictLastWins | src/CSV-Parser/CsvStream.Dictionary.cs:54 | for a repeated header name, the last column wins |
| Dictionaries.DictDistinct | src/CSV-Parser/CsvStream.Dictionary.cs:54 | with distinct names, every name maps to its own field and there are `n` entries |
| Dictionaries.FillDictionary | src/CSV-Parser/CsvStream.Dictionary.cs:50-56 | the loop builds `DictOf`: the first `count` names mapped to their fields |
| Stream.FirstStop | src/CSV-Parser/CsvStream.Common.cs:332-337 | the first stop byte at or after a point, or none |
| Stream.LineEnd | src/CSV-Parser/CsvStream.Common.cs:332-337 | a line ends just after its first stop byte, or at the end of the data |
| Stream.LineRow | src/CSV-Parser/CsvStream.Common.cs:150-151 | a row read from a line has the column count unless errors are ignored or no count is set; a tokenizer fault is passed on |
| Stream.NextRow | src/CSV-Parser/CsvStream.Common.cs:142-153 | at the end of the data the row is null; otherwise exactly one line is consumed |
| Stream.HeaderLine | src/CSV-Parser/CsvStream.Common.cs:102-103 | the header is defined exactly when the line has a row |
| Stream.FieldOf | src/CSV-Parser/CsvStream.Common.cs:131-133 | the peeked field is null unless the last byte read is the field delimiter, and otherwise the first field of the line |
| Stream.FirstField | CSV-Parser/CsvStream.Common.cs:171-173 | the first field of the decoded row, when there is one |
| Stream.PeekOf | src/CSV-Parser/CsvStream.Common.cs:123-136 | peeking at the end of the data gives null |
| Stream.StreamRows | src/CSV-Parser/CsvStream.Common.cs:52 | every enumerated row has the column count, unless errors are ignored or no count is set |
| Stream.DrainStep | src/CSV-Parser/CsvStream.Common.cs:142-153 | the enumeration is `ReadRow` repeated until null or an error |
| Stream.DrainsAll | src/CSV-Parser/CsvStream.Common.cs:52 | with a column count and without ignoring errors, an enumeration that ends without error leaves nothing unread |
| Stream.RowDictionary | src/CSV-Parser/CsvStream.Dictionary.cs:50-56 | the dictionary exists exactly when a header is known and both the header and the row are as wide as the column count; no header throws `ArgumentNullException` |
| Stream.DictionaryOf | src/CSV-Parser/CsvStream.Dictionary.cs:28-32 | the dictionary is null exactly when the row is null; a read error is passed on |
| Stream.StreamDicts | src/CSV-Parser/CsvStream.Dictionary.cs:30 | with no columns the enumeration fails with "No columns" |
| Stream.DictStep | src/CSV-Parser/CsvStream.Dictionary.cs:20 | the enumeration of dictionaries is `ReadDictionary` repeated |
| Stream.DictsOfRows | src/CSV-Parser/CsvStream.Dictionary.cs:20 | the dictionaries are those of the enumerated rows, with the same error |
| Stream.HeaderChoice | src/CSV-Parser/CsvStream.Common.cs:402-416 | a header already written fails with "Having header already - won't overwrite"; a given header needs at least one column; otherwise the known header is used, and there must be one |
| Stream.HeaderOut | src/CSV-Parser/CsvStream.Common.cs:61-69 | the header bytes are the encoded chosen header, and a refused header is passed on |
| Stream.HeadOut | src/CSV-Parser/CsvStream.Common.cs:83 | once the header is written nothing more is written; without a header `WriteRows` fails |
| Stream.RowOut | src/CSV-Parser/CsvStream.Common.cs:82-85 | a written row marks the header written; a refusal before any output leaves that flag alone |
| Stream.RowsOut | src/CSV-Parser/CsvStream.Common.cs:76-89 | after writing at least one row successfully, the header is written |
| Stream.CsvStream.EndOfDataIffNothingUnread | src/CSV-Parser/CsvStream.Common.cs:42 | `IsEndOfData` holds exactly when no byte is left unread |
| Stream.CsvStream.Init | src/CSV-Parser/CsvStream.cs:31-57 | the fields start as given, with an empty buffer |
| Stream.CsvStream.ResetBuffer | src/CSV-Parser/CsvStream.Common.cs:284-288 | both buffer indices go to zero |
| Stream.CsvStream.NormalizeReadBuffer | src/CSV-Parser/CsvStream.Common.cs:293-306 | the unread part of the buffer moves to the front and the unread bytes stay the same; nothing moves when the index is zero |
| Stream.CsvStream.Open | src/CSV-Parser/CsvStream.cs:31-135 | "Invalid buffer size" is checked first, then "Invalid chunk size"; a given header fixes the column count, and the unread bytes are the rest of the base stream |
| Stream.CsvStream.ValidateHeader | src/CSV-Parser/CsvStream.Common.cs:402-416 | the result is the header choice, and a given header becomes the stream's header and column count |
| Stream.CsvStream.WriteHeader | src/CSV-Parser/CsvStream.Common.cs:61-69 | a closed stream throws `ObjectDisposedException` and changes nothing; otherwise the header bytes are written at the position and the header is marked written |
| Stream.CsvStream.WriteRows | src/CSV-Parser/CsvStream.Common.cs:76-89 | a closed stream changes nothing; otherwise the header (when not yet written) and every row are written in turn until the first refusal, the bytes written so far stay written, and the header stays as it was |
| Stream.CsvStream.EnsureHeader | src/CSV-Parser/CsvStream.Common.cs:83 | the header is written exactly once, before the first row |
| Stream.CsvStream.ReadRow | src/CSV-Parser/CsvStream.Common.cs:142-153 | a closed stream throws; otherwise the next line is read as a row and consumed (or a buffer fault), exactly so at the end of data or when the line fits |
| Stream.CsvStream.Rows | src/CSV-Parser/CsvStream.Common.cs:47-53 | the enumerated rows are `ReadRow` repeated (`StreamRows` of the unread bytes), ending in null or the first error, or a buffer fault |
| Stream.CsvStream.PeekField | src/CSV-Parser/CsvStream.Common.cs:123-136 | the first field of the next row when the first stop byte is the field delimiter, null otherwise; the buffer keeps the line on success |
| Stream.CsvStream.ReadHeader | src/CSV-Parser/CsvStream.Common.cs:95-105 | "Having header already - won't overwrite" when a header is known; "No header" at the end of data; otherwise the first line's row becomes the header |
| Stream.CsvStream.SkipHeader | src/CSV-Parser/CsvStream.Common.cs:111-117 | "Having header already" when a header is known; otherwise `ReadHeader` |
| Stream.CsvStream.SetColumnCount | src/CSV-Parser/CsvStream.cs:170-185 | "Header set already" once a header is known; a count below one means none |
| Stream.CsvStream.CountRows | src/CSV-Parser/CsvStream.Count.cs:15-27 | the count is the number of enumerated rows or their error, and the base position is restored |
| Stream.CsvStream.ToDictionary | src/CSV-Parser/CsvStream.Dictionary.cs:50-56 | the dictionary of a row under the stream's header and column count |
| Stream.CsvStream.ReadDictionary | src/CSV-Parser/CsvStream.Dictionary.cs:28-32 | "No columns" before anything is read; otherwise the next row's dictionary |
| Stream.CsvStream.AsDictionaries | src/CSV-Parser/CsvStream.Dictionary.cs:20 | the enumerated dictionaries are `ReadDictionary` repeated (`StreamDicts` of the unread bytes), or a buffer fault |
| Stream.CsvStream.Close | src/CSV-Parser/CsvStream.cs:217-223 | the stream is closed, and its base stream too unless it is left open or was already closed |
| Stream.CsvStream.ReadUntil | src/CSV-Parser/CsvStream.Common.cs:313-340 | the result says whether a stop byte exists; the line up to it is in the buffer and consumed; `false` only at the end of data; errors are argument or I/O errors, and none occur when the line fits |
| Table.InitialHeader | src/CSV-Parser/CsvTable.cs:35 | the given header, or "0".."k-1" from the first row's length when rows are given and the header is missing or empty |
| Table.IndexOf | src/CSV-Parser/CsvTable.cs:60 | the first position of a name, or -1 when it is absent |
| Table.OneRowAtATime | src/CSV-Parser/CsvTable.cs:127 | writing rows one `WriteRows` call at a time is writing them all at once |
| Table.CsvTable.constructor | src/CSV-Parser/CsvTable.cs:22-37 | `hasHeader` defaults to whether a header was given; the header is the initial header; the rows are the given ones or none |
| Table.CsvTable.Row | src/CSV-Parser/CsvTable.cs:44-47 | a row exists exactly for an index inside the rows, otherwise "Invalid index" |
| Table.CsvTable.Field | src/CSV-Parser/CsvTable.cs:55-63 | "Invalid index", then "Invalid header"; otherwise the field in the first column of that name, or `InvalidDataException` for a short row |
| Table.CsvTable.Clone | src/CSV-Parser/CsvTable.cs:106-110 | a new table with equal properties, header and rows |
| Table.CsvTable.ToDictionary | src/CSV-Parser/CsvTable.Dictionary.cs:28-33 | a row shorter than the header throws `IndexOutOfRangeException`; otherwise the dictionary over the whole header |
| Table.CsvTable.AsDictionary | src/CSV-Parser/CsvTable.Dictionary.cs:20-21 | the index is checked against the column count ("Invalid index"), then against the rows (`ArgumentOutOfRangeException`) |
| Table.CsvTable.AsDictionaries | src/CSV-Parser/CsvTable.Dictionary.cs:13 | one dictionary per row, in order, exactly when no row is shorter than the header |
| Table.CsvTable.ToString | src/CSV-Parser/CsvTable.cs:120-130 | the delimiters default to the table's (the string delimiter only when the header argument is also null); the text is the header followed by every row as `WriteRows` writes them |
| LegacyWriter.NumberChars | CSV-Parser/CsvTable.cs:15 | a number consists of digits, decimal point and comma only |
| LegacyWriter.LegacyField | CSV-Parser/CsvTable.cs:57-58 | a number is written bare; anything else is quoted with inner string delimiters doubled, and without a string delimiter it fails with "String cannot be of zero length." (the empty `Replace` pattern) |
| LegacyWriter.LegacyFields | CSV-Parser/CsvTable.cs:56-58 | the row is written field by field and fails exactly when a field does |
| LegacyWriter.LegacyLine | CSV-Parser/CsvTable.cs:59 | a written line ends in a line feed |
| LegacyWriter.LegacyLines | CSV-Parser/CsvTable.cs:67-71 | the lines are written exactly when every row can be |
| LegacyWriter.WriteLine | CSV-Parser/CsvTable.cs:53-61 | the loop writes `LegacyLine`: the fields joined by the field delimiter, then a line end |
| LegacyWriter.WriteLines | CSV-Parser/CsvTable.cs:67-71 | the loop writes `LegacyLines`: one line per row, in order |
| LegacyWriter.LinesSnoc | CSV-Parser/CsvTable.cs:67-71 | one more row adds its line at the end |
| LegacyWriter.LegacyRoundTrip | CSV-Parser/CsvTable.cs:49-73 | what `ToString` writes enumerates back as the table's rows, header first when asked |
| LegacyWriter.NumberExamples | CSV-Parser/CsvTable.cs:15 | `42`, `3.14`, `,5` and `7` with a newline are numbers; `1.2.3`, `1.` and the empty text are not |
| LegacyWriter.DecimalCommaExample | CSV-Parser/CsvTable.cs:15 | `1,5` is written bare, and reads back as two fields |
| LegacyTable.InsertAt | CSV-Parser/CsvTable.Common.cs:45 | inserting succeeds exactly at a position inside or at the end of the row |
| LegacyTable.RemoveAt | CSV-Parser/CsvTable.Common.cs:67 | removing succeeds exactly at a position inside the row |
| LegacyTable.MoveIndex | CSV-Parser/CsvTable.Common.cs:85-88 | the corrected move succeeds exactly when the current index is inside the row |
| LegacyTable.MoveIndexAsWritten | CSV-Parser/CsvTable.Common.cs:85-88 | the move as written, backward branch included |
| LegacyTable.SwapIndex | CSV-Parser/CsvTable.Common.cs:144-150 | swapping succeeds exactly for two indices inside the row |
| LegacyTable.ReorderFrom | CSV-Parser/CsvTable.Common.cs:174-179 | reordering succeeds exactly when every new index is inside the row |
| LegacyTable.Reordered | CSV-Parser/CsvTable.Common.cs:174-179 | the reordered row, or `IndexOutOfRangeException` for a new index outside it |
| LegacyTable.EditedFrom | CSV-Parser/CsvTable.Common.cs:42-47 | every row is edited in turn until the first error |
| LegacyTable.CsvTable.constructor | CSV-Parser/CsvTable.cs:20 | a new table has no header and no rows |
| LegacyTable.CsvTable.EditRows | CSV-Parser/CsvTable.Common.cs:90 | the loop applies an edit to every row as `Edited` specifies |
| LegacyTable.CsvTable.CreateHeaders | CSV-Parser/CsvTable.Common.cs:14-19 | "No rows" without rows; otherwise "0".."n-1" from the first row |
| LegacyTable.CsvTable.AddColumn | CSV-Parser/CsvTable.Common.cs:28-50 | a negative index appends; a blank name fails with "Header required"; an index past the end fails with "Invalid index"; otherwise the column is inserted in the header and in every row |
| LegacyTable.CsvTable.RemoveColumn | CSV-Parser/CsvTable.Common.cs:57-71 | "Invalid index", then "Can't remove all columns"; otherwise the column leaves the header and every row (a short row is skipped when errors are ignored) |
| LegacyTable.CsvTable.MoveColumn | CSV-Parser/CsvTable.Common.cs:80-129 | "Invalid current index", then "Invalid new index"; an equal index changes nothing; otherwise the header and every row are moved with the corrected move |
| LegacyTable.CsvTable.SwapColumn | CSV-Parser/CsvTable.Common.cs:138-162 | "Invalid A index", then "Invalid B index"; an equal index changes nothing; otherwise two columns swap everywhere |
| LegacyTable.CsvTable.ReorderColumns | CSV-Parser/CsvTable.Common.cs:170-190 | no indices throws `ArgumentNullException`; a wrong count fails with "Index count mismatch"; an index outside the header throws `IndexOutOfRangeException`; otherwise the header and every row are reordered |
| LegacyTable.CsvTable.AddRow | CSV-Parser/CsvTable.Common.cs:197-207 | no row fails with "Row required"; a row of the wrong width fails with the expected and actual counts unless errors are ignored; otherwise the row is appended |
| LegacyTable.CsvTable.Validate | CSV-Parser/CsvTable.Common.cs:213-227 | the table passes exactly when errors are ignored, or it has columns and every row has their width; "No columns" comes first, then "Rows with invalid field count" |
| LegacyTable.CsvTable.Clear | CSV-Parser/CsvTable.Common.cs:234-239 | the rows are removed, and the header too when asked |
| LegacyTable.CsvTable.ToString | CSV-Parser/CsvTable.cs:49-73 | the text is `LegacyText`: the header line when asked, then one line per row |
| LegacyTable.EditOne | CSV-Parser/CsvTable.Common.cs:44-46 | one row is edited as `EditRow` specifies |
| LegacyTable.ReorderIndex | CSV-Parser/CsvTable.Common.cs:174-179 | the placement loop builds `Reordered`: each field at its new index |
| LegacyTable.InsertRemove | CSV-Parser/CsvTable.Common.cs:40-67 | removing an inserted field gives the row back |
| LegacyTable.RemoveInsert | CSV-Parser/CsvTable.Common.cs:40-67 | inserting the removed field where it was gives the row back |
| LegacyTable.AppendIsInsert | CSV-Parser/CsvTable.Common.cs:33-47 | appending is inserting at the end |
| LegacyTable.MoveIndexSlices | CSV-Parser/CsvTable.Common.cs:85-88 | the corrected forward move takes the field out and puts it back after the fields up to the new index; the backward move puts it before the fields from the new index |
| LegacyTable.ForwardShape | CSV-Parser/CsvTable.Common.cs:86 | a forward move shifts the fields between the two indices one place left |
| LegacyTable.BackwardShape | CSV-Parser/CsvTable.Common.cs:87 | the corrected backward move shifts the fields between the two indices one place right |
| LegacyTable.MovePlaces | CSV-Parser/CsvTable.Common.cs:85-88 | the moved field lands at the new index, and the result is a permutation of the row |
| LegacyTable.MoveBack | CSV-Parser/CsvTable.Common.cs:80-88 | moving back from the new index to the old one undoes a move |
| LegacyTable.MoveAsWrittenOverwrites | CSV-Parser/CsvTable.Common.cs:87 | as written, a backward move only copies the moved field over the field at the new index |
| LegacyTable.MoveForwardAgrees | CSV-Parser/CsvTable.Common.cs:86 | the forward branch as written and the corrected move agree |
| LegacyTable.MoveAsWrittenExample | CSV-Parser/CsvTable.Common.cs:87 | moving column 2 of `a`, `b`, `c` to 0 gives `c`, `b`, `c` as written and `c`, `a`, `b` corrected; only the latter keeps the fields |
| LegacyTable.SwapTwice | CSV-Parser/CsvTable.Common.cs:144-150 | a swap exchanges the two fields and keeps every other one, and a second swap gives the row back |
| LegacyTable.SwapKeeps | CSV-Parser/CsvTable.Common.cs:144-150 | a swap keeps the row's fields, as a permutation |
| LegacyTable.ReorderPlaces | CSV-Parser/CsvTable.Common.cs:177 | every field lands at its new index, and a place no index names stays empty |
| LegacyTable.EditedInverse | CSV-Parser/CsvTable.Common.cs:36-68 | an edit followed by its inverse gives every row back |
| LegacyTable.AddThenRemove | CSV-Parser/CsvTable.Common.cs:28-71 | adding a column and removing it again restores the header and the rows |
| LegacyTable.RemoveKeepsShape | CSV-Parser/CsvTable.Common.cs:57-71 | removing a column from a rectangular table keeps it rectangular |
| LegacyTable.MoveThenBack | CSV-Parser/CsvTable.Common.cs:80-90 | moving a column and moving it back restores the table |
| LegacyTable.SwapThenSwap | CSV-Parser/CsvTable.Common.cs:151-152 | swapping two columns twice restores the rows |
| LegacyTable.ReorderKeepsShape | CSV-Parser/CsvTable.Common.cs:180-181 | reordering a rectangular table keeps it rectangular |
| LegacyStream.Shifted | CSV-Parser/CsvStream.Common.cs:185-189 | the unread tail moves to the front, and the last bytes stay as they were |
| LegacyStream.FillRun | CSV-Parser/CsvStream.Common.cs:191-203 | the fill loop reads consecutive bytes into consecutive buffer places, and a found stop byte lies inside what was read |
| LegacyStream.RunSpent | CSV-Parser/CsvStream.Common.cs:193-194 | a request of less than one byte ends the loop without reading |
| LegacyStream.RunShort | CSV-Parser/CsvStream.Common.cs:195-196 | a read that delivers fewer bytes than requested throws `IOException` |
| LegacyStream.RunStopped | CSV-Parser/CsvStream.Common.cs:197-199 | a stop byte in the bytes read ends the loop just after it |
| LegacyStream.RunScan | CSV-Parser/CsvStream.Common.cs:198 | no byte before the one the loop stops after is a stop byte |
| LegacyStream.RunHalts | CSV-Parser/CsvStream.Common.cs:191-204 | the loop ends when the buffer is full, the stream is spent, a read falls short or a stop byte is found |
| LegacyStream.ShortAtEnd | CSV-Parser/CsvStream.Common.cs:193 | a request capped by the stream length, not by what remains, throws `IOException` at the end of data |
| LegacyStream.CappedNeverShort | CSV-Parser/CsvStream.Common.cs:193 | capped by what remains, with reads that deliver a full chunk, the loop never falls short |
| LegacyStream.Decoded | CSV-Parser/CsvStream.Common.cs:200 | the decoded range starts at the cursor and has the fill's length, and must fit in the buffer |
| LegacyStream.DecodesBehindStop | CSV-Parser/CsvStream.Common.cs:191-200 | on `a,b` LF `c,d` LF in one chunk, the fill stops one past the first newline and the decoded range is `c,d` LF followed by zero bytes, so the row parsed is the second line's |
| LegacyStream.RowOfFill | CSV-Parser/CsvStream.Common.cs:182-205 | a row is returned only after a stop byte was found |
| LegacyStream.HeaderOfFill | CSV-Parser/CsvStream.Common.cs:109-133 | a header is returned only after a newline was found, and it is the header parse of the decoded range |
| LegacyStream.PeekOfFill | CSV-Parser/CsvStream.Common.cs:151-176 | a field is returned only after a stop byte was found, when the byte under the cursor is the field delimiter |
| LegacyStream.ParseRow | CSV-Parser/CsvStream.Common.cs:200-201 | the row parse is the current reader's line parse, which is the legacy `ParseHeaderFromString` as well |
| LegacyStream.ParseHeader | CSV-Parser/CsvStream.Common.cs:128-130 | the header parse is the current reader's header parse, which is the legacy `ParseHeaderFromString` as well |
| LegacyStream.ParseFirstField | CSV-Parser/CsvStream.Common.cs:169-171 | the peek parse is the first field of the row |
| LegacyStream.FillLoop | CSV-Parser/CsvStream.Common.cs:191-203 | the loop ends as `FillRun` defines and leaves the bytes read in the buffer |
| LegacyStream.CsvStream.Init | CSV-Parser/CsvStream.cs:51-80 | the fields start as given, with the cursor at zero |
| LegacyStream.CsvStream.Open | CSV-Parser/CsvStream.cs:51-124 | "Invalid buffer size" is checked first, then "Invalid chunk size"; a given header fixes the column count |
| LegacyStream.CsvStream.SetColumnCount | CSV-Parser/CsvStream.cs:164-179 | "Header set already" once a header is known; a count below one means none |
| LegacyStream.CsvStream.Close | CSV-Parser/CsvStream.cs:224-230 | the stream is closed, and its base stream too unless it is left open or was already closed |
| LegacyStream.CsvStream.Shift | CSV-Parser/CsvStream.Common.cs:185-189 | the buffer is shifted and the cursor goes to zero |
| LegacyStream.CsvStream.ReadRow | CSV-Parser/CsvStream.Common.cs:182-205 | a closed stream throws; otherwise the result and the new buffer state are those of the next fill |
| LegacyStream.CsvStream.ReadHeader | CSV-Parser/CsvStream.Common.cs:109-133 | "Having header already - won't overwrite" when a header is known; otherwise the header of the next fill, which becomes the stream's header |
| LegacyStream.CsvStream.SkipHeader | CSV-Parser/CsvStream.Common.cs:139-145 | "Having header already" when a header is known; otherwise `ReadHeader` |
| LegacyStream.CsvStream.PeekField | CSV-Parser/CsvStream.Common.cs:151-176 | the peek of the next fill; the cursor goes back to zero when a stop byte was found and the peek returns |
| LegacyStream.CsvStream.Rows | CSV-Parser/CsvStream.Common.cs:37-44 | the enumerated rows are `ReadRow` repeated until null or an error |
| LegacyStream.CsvStream.CountRows | CSV-Parser/CsvStream.Count.cs:14-26 | the count of the enumerated rows or their error, with the base position restored |
| LegacyStream.CsvStream.ToDictionary | CSV-Parser/CsvStream.Dictionary.cs:50-56 | the dictionary of a row under the stream's header and column count |
| LegacyStream.CsvStream.ReadDictionary | CSV-Parser/CsvStream.Dictionary.cs:27-32 | "No columns" when the column count is below one; a header read by `ReadHeader` sets none, so it is refused there too; otherwise the next row's dictionary |
| LegacyStream.CsvStream.AsDictionaries | CSV-Parser/CsvStream.Dictionary.cs:15-21 | the enumerated dictionaries are `ReadDictionary` repeated |
| StreamParser.Whole | CSV-Parser/CsvParser.cs:54-56 | empty data fails with "No CSV data"; the whole stream is read exactly when it starts at position 0 and one read delivers it |
| StreamParser.ReadWhole | CSV-Parser/CsvParser.cs:52-56 | the read is the whole-stream read, and the stream is closed unless left open |
| StreamParser.CountRowsFromStream | CSV-Parser/CsvParser.cs:180-190 | the count of the decoded text, or the read error |
| StreamParser.LegacyParseStream | CSV-Parser/CsvParser.cs:49-59 | the legacy string parse of the decoded text, or the read error |
| StreamParser.ParseHeaderFromStream | src/CSV-Parser/CsvParser.Header.cs:76-87 | the stream's size checks, then the first row (or a buffer fault), exactly so when the line fits |
| StreamParser.Picked | src/CSV-Parser/CsvParser.Parse.cs:106 | the kept rows follow the offset, number at most the limit, and an error is the enumeration's |
| StreamParser.SelectRows | src/CSV-Parser/CsvParser.Parse.cs:141-149 | the loop keeps the rows `Picked` selects from the enumeration, or a buffer fault |
| StreamParser.HeaderColumns | src/CSV-Parser/CsvParser.Parse.cs:140 | columns exactly when a header is wanted; "No header" for empty data |
| StreamParser.ReadColumns | src/CSV-Parser/CsvParser.Parse.cs:140 | reading the header consumes its line, or ends in a buffer fault |
| StreamParser.StreamParse | src/CSV-Parser/CsvParser.Parse.cs:123-152 | the parsed table has columns exactly when a header is wanted and at most `limit` rows; empty data with a header wanted fails with "No header" |
| StreamParser.ParseOpen | src/CSV-Parser/CsvParser.Parse.cs:123-152 | the open stream parses to `StreamParse` of its unread bytes, or a buffer fault |
| StreamParser.ParseStream | src/CSV-Parser/CsvParser.Parse.cs:91-108 | the table has the wanted header flag, the delimiters, and the columns and rows of `StreamParse`; the base stream is closed unless left open |
| StreamParser.HeaderOfRun | CSV-Parser/CsvParser.cs:309-315 | a short read throws `IOException`; a spent stream gives null |
| StreamParser.HeaderFill | CSV-Parser/CsvParser.cs:304-305 | a zero-sized buffer fails with "No CSV data" |
| StreamParser.LegacyParseHeaderFromStream | CSV-Parser/CsvParser.cs:289-317 | the header as written: requests are capped by the stream's whole length |
| StreamParser.CappedParseHeaderFromStream | CSV-Parser/CsvParser.cs:289-317 | the header with requests capped by what remains of the stream |
| StreamParser.HeaderFillRefusesLastChunk | CSV-Parser/CsvParser.cs:308 | as written, `abcd` plus a newline, with buffer 8 and chunk 4, throws `IOException` |
| StreamParser.CappedHeaderFillReadsLastChunk | CSV-Parser/CsvParser.cs:308 | capped by what remains, the same input gives its first row |
| StreamParser.CappedHeaderFillNeverShort | CSV-Parser/CsvParser.cs:306-315 | capped by what remains, with reads that deliver a full chunk, the header read never throws `IOException` |

## Left out

- The `async` variants (`ParseStreamAsync` apart from its loop, `ReadRowAsync`, `WriteRowsAsync` and the others) and cancellation tokens are left out: they run the same steps as the synchronous code.
- The legacy `PeekFieldAsync` is left out. It is not the synchronous `PeekField` run asynchronously: it differs from it in decoding from `BufferIndex - 1` (CSV-Parser/CsvStream.Common.cs:319) where `PeekField` decodes from `BufferIndex` (CSV-Parser/CsvStream.Common.cs:170).
- The file entry points (`ParseFile`, `CountRowsFromFile`, `ParseHeaderFromFile`) are left out: they open a file and call the stream entry points.
- Text encodings are left out: bytes and characters below 256 are identified, so multi-byte UTF-8 and `Encoding.Convert` are not modelled.
- The `Stream` overrides that pass calls through to the base stream (`Flush`, `Seek`, `SetLength`, the `Can*` properties) are left out; only the reads, writes, position and closing they rely on are modelled in `Base.ByteStream`.
- The object mapping layer (`CsvMapping`, `ReadObject`, `WriteObjects`, the mapping updates in `MoveColumn`, `SwapColumn` and `ReorderColumns`) is left out: it uses reflection.
- The `RX_NUMBER` regular expression is modelled for ASCII digits only; .NET's `\d` also matches other Unicode digits.
- Null rows, null fields and null headers are left out: sequences in the model are never null, so the "NULL values" checks of `AddRow` and `Validate` cannot fail.
- Exception messages that embed a row number (`#index`) are modelled as the exception type with a fixed message.
- Stream.CsvStream.WriteRows: a refused row fails with the current messages "No fields in row" and "Invalid field count in row" for both generations; the legacy `WriteRows` (CSV-Parser/CsvStream.Common.cs:88 and 92, CSV-Parser/CsvStream.cs:274 and 278) throws the same `ArgumentException` with the messages "No fields" and "Invalid field count".
- LegacyTable.CsvTable.ReorderColumns: the source's `new string[data.Length]` (CSV-Parser/CsvTable.Common.cs:174-179) leaves null at every place no index reaches, which happens with duplicate indices; the model (`LegacyTable.Reordered`) puts "" there, so a later legacy `ToString` or `Validate` of such a table can differ from the source.
- Aliasing of row arrays is left out: rows are values, so `Clone` sharing its row arrays and `SwapColumn` swapping in place are modelled as copies.
- Concurrency is left out; the source has none.
- A current-reader refill whose request overruns the buffer is modelled as the `ArgumentException` that `MemoryStream.Read` throws.
- Line breaks inside quoted fields are left out of the stream reader: it cuts lines at every line feed, as the source does. The writer does not quote line breaks, so fields with line breaks are outside the round-trip lemmas (`CsvWriter.Writable`).
- Stream.CsvStream.ReadRow: the result is "the row `NextRow` defines, or a buffer fault"; it is exact only when the line fits in the buffer and reads deliver a full chunk (`Roomy`).
- Stream.CsvStream.PeekField: the same buffer-fault alternative as `ReadRow`.
- Stream.CsvStream.ReadHeader: the same buffer-fault alternative as `ReadRow`.
- Stream.CsvStream.SkipHeader: the same buffer-fault alternative as `ReadRow`.
- Stream.CsvStream.ReadDictionary: the same buffer-fault alternative as `ReadRow`.
- Stream.CsvStream.Rows: the enumeration may end in a buffer fault; it is exact when every line fits (`AllRoomy`).
- Stream.CsvStream.AsDictionaries: the same buffer-fault alternative as `Rows`.
- Stream.CsvStream.CountRows: the same buffer-fault alternative as `Rows`.
- StreamParser.ParseHeaderFromStream: the same buffer-fault alternative as `ReadRow`.
- StreamParser.SelectRows: the same buffer-fault alternative as `Rows`.
- StreamParser.ReadColumns: the same buffer-fault alternative as `ReadHeader`.
- StreamParser.ParseOpen: the same buffer-fault alternative as `Rows`.
- StreamParser.ParseStream: the same buffer-fault alternative as `Rows`.
- Stream.CsvStream.ReadUntil: the same buffer-fault alternative as `ReadRow`: a fault is an `ArgumentException` or an `IOException` and none occurs under `Roomy`, but the contract does not state the converse (a full buffer without a stop byte and data left, or a short read, gives the fault).
- Text.EnsureNewline: the test `csv.EndsWith("\n")` is taken in its ordinal reading (the last character is a line feed). Under culture-sensitive comparison on ICU-based .NET, text ending in CR LF does not end with "\n", so the source appends another newline and the string entry points see one more, empty, row; the model does not capture this.
- LegacyTable.CsvTable.MoveColumn: the header and every row are moved with the corrected `MoveIndex` of the Findings table, not with the lambda as written at CSV-Parser/CsvTable.Common.cs:85-88; the program as written is `MoveIndexAsWritten`, which for a backward move loses the field at the new index.
- LegacyTable.MoveThenBack: stated of the corrected move; it does not hold of the program as written for a backward move (`MoveAsWrittenExample`).
- Table.CsvTable.AsDictionaries: the source's `Rows.Select(ToDictionary)` is lazy, so a consumer receives the dictionaries of the rows before the first short row and then the `IndexOutOfRangeException`; the model gives the whole enumeration or the exception.
- Integer widths of the legacy stream reads are left out: the cast `(int)Length` that caps each request (CSV-Parser/CsvStream.Common.cs:193, CSV-Parser/CsvParser.cs:308) truncates a length of 2^31 bytes or more, and `long` stream lengths and positions wrap at 2^63; the model (`LegacyStream.Request`) uses the unbounded length of the data.
- StreamParser.LegacyParseHeaderFromStream: the buffer size is a `nat`; the negative `int` sizes that make `new byte[bufferSize]` throw `OverflowException` are not modelled. The same holds for StreamParser.CappedParseHeaderFromStream.

## Findings

| source | as written | input that shows it | evidently intended | confidence | as-written member | corrected member |
|---|---|---|---|---|---|---|
| CSV-Parser/CsvTable.Common.cs:87 | a backward move takes `data.Take(newIndex)`, the moved field, then `data.Skip(newIndex + 1).Take(currentIndex - newIndex)`, which starts one place too late: the field at the new index is lost and the moved field appears twice | `MoveColumn(2, 0)` on the row `a`, `b`, `c` gives `c`, `b`, `c` | `c`, `a`, `b`: the moved field at the new index and the others shifted right, a permutation of the row | not executed | LegacyTable.MoveIndexAsWritten, LegacyTable.MoveAsWrittenExample, LegacyTable.MoveAsWrittenOverwrites | LegacyTable.MoveIndex, LegacyTable.MovePlaces, LegacyTable.MoveBack |
| CSV-Parser/CsvParser.cs:308 | each request is capped by `stream.Length`, not by what remains of the stream, so the last request asks for more bytes than are left and the length check throws `IOException` | `ParseHeaderFromStream` on the bytes `abcd` and a newline, with buffer size 8 and chunk size 4, throws `IOException` | requests capped by what remains, so the header row `abcd` is returned | not executed | StreamParser.LegacyParseHeaderFromStream, StreamParser.HeaderFillRefusesLastChunk | StreamParser.CappedParseHeaderFromStream, StreamParser.CappedHeaderFillReadsLastChunk, StreamParser.CappedHeaderFillNeverShort |
