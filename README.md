# ScriptGrid conversion core in Dafny

ScriptGrid converts subtitle files between SRT, ASS and an Excel workbook.
Every format goes through one shared cue list: a list of rows
`[index, start, end, text]`. This project models the core of that
conversion and proves properties of the model:

- `parse_srt` is the SRT block scanner. It is modelled by hand from its
  regular expression.
- `_convert_ass_time_to_srt` is the ASS time codec.
- `parse_ass_to_srt_structure` is the ASS `[Events]` line state machine.
- `write_to_srt` is the SRT serialiser.
- `write_to_excel` is the worksheet row writer.
- `parse_xlsx` is the header-checked worksheet reader.
- `convert` is the orchestrator. It dispatches on the conversion type and
  the file suffix, rejects an empty parse, picks one writer and re-wraps
  every failure.

## Modules

- `Wrappers`: `Option`.
- `Exceptions`: the exception classes as a `Kind`, plus `Error`, `Result`
  and `IoResult`.
  - `IoResult` is the outcome of reading a file: the content that was
    read, or the text of the exception raised.
- `Constants`: `EXCEL_HEADERS` and the messages the core raises.
- `Text`: the Python string operations the core uses:
  - `strip`, `lower`, `split` with and without `maxsplit`, `join`;
  - `zfill`, `ljust`, `replace` of a two-character pattern, `str(int)`;
  - generic sequence facts.
- `TimeCodec`: SRT timestamps and `_convert_ass_time_to_srt`.
- `SrtParser`:
  - the block matcher as functions on positions;
  - `SrtCues` is the specification of `parse_srt`;
  - the `ParseSrt` method is its loop.
- `SrtWriter`:
  - a `TextFile` class with `Write` stands for the open file handle;
  - `WriteToSrt` writes one block at a time and is proved against `SrtText`.
- `SrtRoundTrip`: reading back what `write_to_srt` wrote.
- `AssParser`:
  - the text cleaning (tag stripping, escape replacement);
  - the line classifier;
  - one step function per line kind;
  - `AssCues` runs the whole file;
  - `ParseAss` keeps the source's four mutable locals in a loop with
    `continue`-style early exits, split over `ParseLine` and
    `ParseDialogue`.
- `Spreadsheet`:
  - the abstract worksheet: rows of optional cell values;
  - the `Worksheet` class with `Append`, and the `XlsxFile` class with `Save`;
  - `WriteToExcel` and `ParseXlsx` as loops, proved against `ExcelSheet`
    and `XlsxRows`;
  - the Excel round trip.
- `Converter`:
  - `Route`, `Parsed`, `Data` and `Outcome` specify `convert`;
  - the `Convert` method calls the parser methods and the writer methods
    and is proved equal to them.

The file system is replaced by parameters:
- what a parser reads, or the reason reading fails, is an `IoResult`;
- the reason the SRT output cannot be opened, or the workbook cannot be
  saved, is an `Option<string>`. Such a failure is modelled as happening
  before any byte of the output is written.

## Model

| member | source | states |
|---|---|---|
| TimeCodec.AssToSrtUnchangedIff | parsers.py:51-70 | The codec returns its input unchanged exactly when it does not split on '.' into two parts or the part before the '.' has fewer than three ':' components (otherwise a result with ',' and without '.' differs from it). |
| TimeCodec.AssToSrtBuilds | parsers.py:53-67 | For `h:m:s[:more].f` with no other separators the result is `zfill(h):zfill(m):zfill(s),ljust(f)`: components after the third are dropped. |
| TimeCodec.AssToSrtWithoutDot | parsers.py:53 | A time without '.' fails to unpack and comes back unchanged. |
| TimeCodec.ConvertedHasNoDot | parsers.py:56-67 | A converted time contains no '.'. |
| TimeCodec.PaddingAddsOnlyZeros | parsers.py:59-64 | zfill and ljust add no character other than '0' (and keep a sign). |
| TimeCodec.AssToSrtExample | parsers.py:47 | "0:00:06.40" becomes "00:00:06,400". |
| TimeCodec.AssToSrtSecondExample | parsers.py:53-67 | "1:02:03.05" becomes "01:02:03,050". |
| TimeCodec.AssembleFirstExample | parsers.py:59-67 | The padding of the components 0, 00, 06 and 40 gives "00:00:06,400". |
| TimeCodec.AssToSrtOfFields | parsers.py:53-67 | A digit-only `h:m:s.cs` converts to the padded assembly of its four fields. |
| TimeCodec.AssembleInstant | parsers.py:59-67 | For a well-formed ASS time the assembled string is an SRT timestamp denoting the same instant. |
| TimeCodec.AssToSrtKeepsInstant | parsers.py:44-70 | Converting a well-formed `H:MM:SS.cc` gives an SRT timestamp of the same instant in milliseconds. |
| TimeCodec.ZFillValue | parsers.py:59-61 | zfill(2) of one or two digits gives two digits with the same value. |
| TimeCodec.LJustValue | parsers.py:64 | ljust(3, '0') of two centisecond digits is the same time in milliseconds. |
| SrtParser.DigitEndDigits | parsers.py:25 | The greedy `\d+` run covers only digits and stops at the first non-digit. |
| SrtParser.BlankFromFirst | parsers.py:25 | The lazy body ends at the first "\n\n" after its start; no earlier blank line exists. |
| SrtParser.MatchFrom | parsers.py:25 | A match has a non-empty index, two SRT timestamps and ends strictly after it starts. |
| SrtParser.MatchFromWellFormed | parsers.py:25 | Every match is a well-formed block: digit index, two `dd:dd:dd,ddd` times. |
| SrtParser.FindAll | parsers.py:25-27 | `findall` yields only well-formed blocks; the scan is left to right without overlap by definition. |
| Text.UniversalNewlines | parsers.py:20-21 | Text read in text mode holds no '\r'. |
| Text.UniversalNewlinesUnchanged | parsers.py:20-21 | Text without '\r' is read back exactly as written. |
| Text.CarriageReturnRead | parsers.py:20-21 | A lone '\r' between two parts is read back as '\n'. |
| SrtParser.JoinLines | parsers.py:36 | The joined text contains no line break. |
| SrtParser.JoinLinesSingleLine | parsers.py:36 | A one-line body is kept as it is. |
| SrtParser.SrtCues | parsers.py:29-39 | One cue per match, in order; each has a non-empty digit index copied verbatim from the text, two SRT times and a one-line text. |
| SrtParser.NoBlankNoBlocks | parsers.py:25-27 | Text with no blank line after a position has no match after it. |
| SrtParser.NoBlankLineNoCues | parsers.py:25-39 | Text without any "\n\n" gives the empty list, not an error. |
| SrtParser.NoBlankNoMatch | parsers.py:25 | No block can be matched at a position with no blank line after it. |
| SrtParser.LastBlockNeedsBlankLine | parsers.py:25 | Example: the text `1\n00:00:01,000 --> 00:00:02,000\nHi\n`, whose only block has no blank line after it, gives no cue. |
| SrtParser.ParseSrt | parsers.py:18-41 | The loop returns `SrtCues` of the decoded text; a read failure raises ParseError with the file name and the reason. |
| SrtWriter.TextFile.Write | backend/writers.py:48-51 | A write appends its string to the file. |
| SrtWriter.SrtText | backend/writers.py:44-51 | The serialised text is empty exactly when there are no entries. |
| SrtWriter.SrtTextSnoc | backend/writers.py:45-51 | Serialising one more entry appends exactly its block `index\nstart --> end\ntext\n\n`. |
| SrtWriter.SrtTextAppend | backend/writers.py:45-51 | Serialisation distributes over concatenation of entry lists. |
| SrtWriter.BlockInFourWrites | backend/writers.py:48-51 | Proof step for SrtWriter.WriteToSrt: the four `write` calls of one entry add exactly its block. |
| SrtWriter.FirstBadEntry | backend/writers.py:46 | The index of the first entry that does not unpack into four values, or the length when all do. |
| SrtWriter.SrtWriteSucceeds | backend/writers.py:43-51 | When every entry has four fields and the file opens, nothing is raised and every entry is written. |
| SrtWriter.WriteToSrt | backend/writers.py:36-53 | The file holds the blocks of all entries before the first one that does not unpack; that entry or a failed open raises WriteError with the path and the reason; a failed open leaves the file as it was. |
| SrtRoundTrip.MatchFromBlock | parsers.py:25 | The block pattern matches a written block exactly, giving back its four fields. |
| SrtRoundTrip.FindAllWritten | parsers.py:25-27 | Scanning written SRT text finds exactly one match per written entry, with its fields. |
| SrtRoundTrip.CueOfWritten | parsers.py:36-37 | A matched written block gives back the original entry. |
| SrtRoundTrip.SrtRoundTrip | backend/writers.py:44-51 | Parsing the decoded text `write_to_srt` wrote returns the entry list unchanged, indices included, when each index is non-empty digits, times are `dd:dd:dd,ddd` and texts have no '\n'. |
| SrtRoundTrip.TimeWithoutCR | backend/writers.py:49 | A written SRT timestamp holds no '\r'. |
| SrtRoundTrip.SrtTextWithoutCR | backend/writers.py:44-51 | The written file holds a '\r' only where an entry's text does. |
| SrtRoundTrip.SrtFileRoundTrip | parsers.py:20-21 | Reading the written file back in text mode and parsing it returns the entry list unchanged when, in addition, texts have no '\r'. |
| AssParser.CloseFromNone | parsers.py:132 | On one line, no closing '}' is found exactly when none follows. |
| AssParser.StripTagsBraceFree | parsers.py:132 | After the non-greedy tag removal no '{' is followed later by a '}'. |
| AssParser.StripTagsUnchanged | parsers.py:132 | Text without '{' is unchanged by tag removal. |
| AssParser.ReplacePairBraceFree | parsers.py:134 | Replacing an escape with a space keeps a text brace-free. |
| AssParser.CleanTextEscapeFree | parsers.py:132-134 | The cleaned text contains no `\N` or `\n` escape. |
| AssParser.CleanTextBraceFree | parsers.py:132-134 | The cleaned text of a one-line field has no '{' followed later by a '}'. |
| AssParser.CleanTextUnchanged | parsers.py:132-134 | Text without '{' and without escapes is kept as it is. |
| AssParser.CleanTextExample | parsers.py:131-134 | `{\an8}Hi` is cleaned to `Hi`. |
| AssParser.CloseFromShift | parsers.py:132 | The search for a tag's '}' in a suffix does not depend on the text before it. |
| AssParser.StripTagsShift | parsers.py:132 | Tag removal from a position in a suffix does not depend on the text before it. |
| AssParser.TagThenRest | parsers.py:132 | A one-line tag in front of any text is removed up to its own first '}', and the rest is cleaned on its own. |
| AssParser.PlainThenRest | parsers.py:132 | Text without '{' in front of any text is kept, and the rest is cleaned on its own. |
| AssParser.CleanTextSeveralTags | parsers.py:131-134 | `{\an8}Hi {\i1}there{\i0}` is cleaned to `Hi there`: each tag ends at its own '}'. |
| AssParser.FormatMapEntry | parsers.py:104-106 | A name is in the field map exactly when it is a Format field, and it maps to its last position. |
| AssParser.Classify | parsers.py:94-110 | A stripped line is classified as `[events]`, Format or Dialogue exactly when its lower-cased form is `[events]`, starts with `format:` (and is not `[events]`), or starts with `dialogue:` (and is neither). |
| AssParser.ClassifyTests | parsers.py:94-110 | Proof step for AssParser.ParseLine: the classifier tests the line in the order of the source's branches and carries the Format fields and the Dialogue body. |
| AssParser.Kinds | parsers.py:93-94 | One classification per line, in order. |
| AssParser.RunStep | parsers.py:93-146 | Proof step for AssParser.ParseAss: running one more line applies that line's step to the state reached so far. |
| AssParser.DialogueCueNumbered | parsers.py:137 | A Dialogue cue carries the current counter as its index and an escape-free text. |
| AssParser.AddCueValid | parsers.py:137-138 | Appending the next-numbered cue and incrementing the counter keeps the invariant. |
| AssParser.ApplyValid | parsers.py:93-146 | Every line keeps the invariant: counter = cues + 1, cues numbered 1..N, field map empty or holding start, end and text. |
| AssParser.RunValid | parsers.py:89-146 | The invariant holds after every prefix of the file. |
| AssParser.AssCuesNumbered | parsers.py:89-138 | The cues are numbered "1", "2", ..., "N" with no gaps, and their texts are escape-free. |
| AssParser.ErrorSticky | parsers.py:107-108 | Once a bad Format line raises, the result of the file is that error. |
| AssParser.RunErrorIsFormatError | parsers.py:107-108 | The only error of the state machine is the missing-fields ParseError. |
| AssParser.AssCuesError | parsers.py:107-108 | The ASS parser raises only the missing-fields ParseError once the file is read. |
| AssParser.ApplyKeepsEvents | parsers.py:95-97 | No line clears the events flag. |
| AssParser.EventsSticky | parsers.py:95-100 | Once set, the events flag stays set for the rest of the file. |
| AssParser.RunPreamble | parsers.py:99-100 | Before the `[events]` line nothing changes the state. |
| AssParser.PreambleIgnored | parsers.py:95-100 | Lines before the first `[events]` line leave the initial state, whatever they contain. |
| AssParser.ApplyWithoutFormat | parsers.py:110 | Without a Format line a line adds no cue and sets no field map. |
| AssParser.RunWithoutEventsFormat | parsers.py:95-110 | When every Format line comes before every `[events]` line, no field map is set and no Dialogue line produces a cue. |
| AssParser.NoEventsFormatNoCues | parsers.py:95-110 | A file whose Format lines all come before its `[Events]` line (for instance only in `[V4+ Styles]`) gives the empty list. |
| AssParser.ApplyBadFormat | parsers.py:102-108 | In the events section a Format line lacking start, end or text raises ParseError. |
| AssParser.BadFormatFails | parsers.py:102-108 | A file reaching such a Format line in the events section fails with that ParseError, whatever follows. |
| AssParser.ShortDialogueSkipped | parsers.py:122-142 | A Dialogue line whose split has too few parts for a mapped position is skipped: the state, counter included, is unchanged. |
| AssParser.DialogueTextKeepsCommas | parsers.py:115-137 | With Text as the last Format field, the cue text is the cleaned rest of the line, commas included, and start and end are the converted mapped fields. |
| AssParser.ReadLineStripped | parsers.py:84-94 | A line as `readlines` returns it, with '\n' at most at its end, holds no '\n' once stripped. |
| AssParser.DialogueBodyOneLine | parsers.py:94-115 | When the stripped line holds no '\n', neither does its Dialogue body. |
| AssParser.DialogueCueBraceFree | parsers.py:130-134 | A cue's text has no '{' followed later by a '}'. |
| AssParser.ApplyBraceFree | parsers.py:110-138 | Every step keeps all cue texts brace-free. |
| AssParser.RunBraceFree | parsers.py:93-146 | All cue texts stay brace-free through the file. |
| AssParser.AssCuesBraceFree | parsers.py:73-148 | For lines whose stripped form holds no '\n' (every line `readlines` returns), no cue text has a '{' followed later by a '}'. |
| AssParser.ParseDialogue | parsers.py:114-146 | The Dialogue branch appends the cue and increments the counter, or skips the line. |
| AssParser.ParseLine | parsers.py:93-146 | One loop iteration does what the line's kind calls for. |
| AssParser.ParseAss | parsers.py:73-148 | The loop returns the cue list of the specification, or the read error with the file name, or the Format ParseError. |
| Spreadsheet.Truncated | backend/writers.py:28 | A stored string is a prefix of the value, at most 32767 characters, and the value itself when it fits. |
| Spreadsheet.StoredRow | backend/writers.py:28 | One cell per value. |
| Spreadsheet.IllegalFromFirst | backend/writers.py:24-28 | A row is rejected exactly when some value has an illegal control character within its stored part, and the message names the first such value. |
| Spreadsheet.DataRows | backend/writers.py:27-28 | One sheet row per entry. |
| Spreadsheet.ExcelSheet | backend/writers.py:24-28 | The sheet is the header row followed by one row per entry. |
| Spreadsheet.DataRowsSnoc | backend/writers.py:27-28 | Proof step for Spreadsheet.WriteToExcel: one more entry adds exactly its row at the end. |
| Spreadsheet.HeadersLegal | backend/writers.py:24 | The header row can always be appended. |
| Spreadsheet.Worksheet.Append | backend/writers.py:24-28 | Appends the stored row, or rejects a row with an illegal value and names it, leaving the sheet as it was. |
| Spreadsheet.XlsxFile.Save | backend/writers.py:31 | Saving replaces the file's sheet. |
| Spreadsheet.WriteToExcel | backend/writers.py:11-33 | On success the saved sheet is the header row followed by one row per entry in order, and nothing else; an illegal value or a failed save raises WriteError with the path and the reason, and the file is left as it was (a save failure is taken to happen before anything is written). |
| Spreadsheet.EntryOf | backend/writers.py:84-86 | Every kept row gives four strings. |
| Spreadsheet.EntryOfEmptyCells | backend/writers.py:84-86 | An empty index cell becomes "None"; a falsy text cell becomes ""; a truthy one its `str`. |
| Spreadsheet.DataOf | backend/writers.py:76-86 | Every output row has four fields. |
| Spreadsheet.DataOfAppend | backend/writers.py:76-88 | Reading rows distributes over concatenation: rows are kept in sheet order. |
| Spreadsheet.SkippedRowIgnored | backend/writers.py:78-82 | A row with only empty cells, or with fewer than four cells, contributes nothing. A row shorter than four cells only arises in a sheet narrower than four columns. |
| Spreadsheet.XlsxRowsAccepts | backend/writers.py:69-72 | A sheet is accepted exactly when its first row equals the header; a sheet without rows raises the wrapped ParseError. |
| Spreadsheet.StoredEntry | backend/writers.py:28-86 | A storable entry reads back from its stored row unchanged. |
| Spreadsheet.DataRowsRoundTrip | backend/writers.py:27-28 | Reading the data rows written from storable entries returns the entries. |
| Spreadsheet.StorableLegal | backend/writers.py:27-28 | Storable entries raise no illegal-character error. |
| Spreadsheet.HeaderStored | backend/writers.py:24-71 | The stored header row is the header `parse_xlsx` expects. |
| Spreadsheet.ExcelRoundTrip | backend/writers.py:24-28 | Writing entries of four fields, each free of refused control characters and at most 32767 long, with non-empty index and times, then reading the sheet back, returns the entries; writing them raises nothing. |
| Spreadsheet.ParseXlsx | backend/writers.py:56-94 | The loop returns the rows of the specification, or the wrapped load error with the file name. |
| Converter.Rewrap | subtitle_converter.py:84-91 | Re-wrapping keeps the message. |
| Converter.RouteTable | subtitle_converter.py:48-66 | A parser is chosen exactly for subtitle_to_excel with .srt or .ass, ass_to_srt with .ass and xlsx_to_srt with .xlsx (suffix compared case-insensitively), and it is the parser of the table. |
| Converter.EarlyRejection | subtitle_converter.py:48-69 | An unsupported type, or a suffix that does not fit the type, raises its own SubtitleConverterError before any parsing. |
| Converter.EmptyResultRejected | subtitle_converter.py:72-74 | An empty parse result raises SubtitleConverterError(MSG_WARNING_NO_DATA_PARSED). |
| Converter.ParsedErrorKind | subtitle_converter.py:48-66 | Every parser raises only ParseError. |
| Converter.FailuresAreConverterErrors | subtitle_converter.py:84-95 | Every failure of `convert` is a SubtitleConverterError, and a parser's error keeps its message. |
| Converter.WriterFailureRewrapped | subtitle_converter.py:77-87 | A writer failure is a WriteError and reaches the caller with the same message; a writer success is a success. |
| Converter.XlsxConvertsToSrt | subtitle_converter.py:62-80 | xlsx_to_srt hands exactly the rows `parse_xlsx` read to `write_to_srt`, which succeeds. |
| Converter.ExcelConvertsBack | subtitle_converter.py:62-80 | A workbook written from storable entries converts to SRT with those same entries, all of them written. |
| Converter.Parse | subtitle_converter.py:48-66 | Calls exactly the chosen parser. |
| Converter.Convert | subtitle_converter.py:33-95 | Returns the outcome of the specification. Only the writer for the type touches its file, and only after a non-empty parse. Excel output is the header and rows; SRT output is the blocks of the entries. |

## Left out

- Reading files is not modelled as I/O: opening, UTF-8-with-BOM decoding and `readlines`. SRT text arrives decoded; the universal-newline translation of text mode is a function (`Text.UniversalNewlines`) used by the file round trip. ASS lines arrive as strings; each is stripped, so a kept line break is inert. A failure to read arrives as the text of its exception.
- The xlsx format and openpyxl are not modelled. A worksheet is a sequence of rows of optional values. Its observable rules are assumed as follows:
  - a string is cut to 32767 characters and then checked for the control characters openpyxl refuses;
  - the refusal message is `<value> cannot be used in worksheets.`;
  - an empty string is stored as an empty cell;
  - a read-only reload returns each row padded with empty cells to the sheet's width. Every row written here has four cells, so a written sheet reads back as written.
- Spreadsheet.ParseXlsx reads a sheet's rows without that padding. For a workbook made elsewhere, the model therefore differs in two cases:
  - if the sheet is wider than four columns, the real header row is padded with empty cells and rejected;
  - if the sheet is at least four columns wide, a row with fewer than four values is padded and kept rather than skipped.
- Spreadsheet.Worksheet.Append does not keep the partial row that openpyxl leaves behind when a value is refused. That workbook is never saved, so the difference is not observable.
- The sheet title `Sheet1` is not modelled.
- Spreadsheet.ReprOf: Python's `repr` of a string is modelled as the string between single quotes. The quote choice and escaping of strings that contain quotes or control characters are not modelled. This only affects the header error message.
- Logging and `print` warnings are not modelled. They have no effect on results.
- `lower()` is modelled on ASCII letters only. Every keyword and suffix compared is ASCII. Other Format field names keep their non-ASCII case.
- The SRT pattern's `\d` is narrowed to ASCII digits. `\s` and `strip()` use Python's whitespace set.
- The ASS parser's `except Exception` branches around the Dialogue split and the cue build are not modelled. Nothing in the modelled code raises there.
- `convert`'s wrapping of unexpected exceptions is not modelled. No modelled operation raises one: every failure of a modelled operation is a ParseError, a WriteError or a SubtitleConverterError.
- SrtWriter.UnpackMessage uses the unpacking messages of current Python versions. Other versions word them differently.
- AssParser.AssCuesBraceFree requires every stripped line to be free of '\n'. Every line `readlines` returns qualifies, since its only '\n' is its last character (AssParser.ReadLineStripped).
- SrtRoundTrip.SrtRoundTrip is stated on decoded text. Through a real file, texts must also be free of '\r' (SrtRoundTrip.SrtFileRoundTrip): text-mode reading turns a '\r' into a line break, which `parse_srt` then joins as a space, or drops when it ends the text.
- SrtWriter.WriteToSrt models only a failure to open the file, which leaves the old file. A `write` that fails after `open` has emptied the file leaves a partial file; the model does not show that case.
- Spreadsheet.WriteToExcel models a failed `wb.save` as leaving the old file. A real save may fail after it has truncated or partly written the file; the model does not show that case.
- Spreadsheet.ExcelRoundTrip requires the index and times to be non-empty: an empty string is stored as an empty cell, and an empty index cell reads back as "None".
- The orchestrator in the HTTP application is not part of this model, nor are its own suffix checks.
- Where the documentation of the system and the code disagree, the model follows the code:
  - SRT indices are copied verbatim, not renumbered;
  - the ASS time codec makes no numeric check;
  - an empty index cell reads back as the string "None".
