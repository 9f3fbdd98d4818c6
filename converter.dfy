/**
 * `convert` (subtitle_converter.py): choose one parser from the conversion
 * type and the input file's suffix, reject an empty result, write with one
 * writer, and turn every failure into a SubtitleConverterError.
 */
module Converter {
  import opened Wrappers
  import opened Exceptions
  import opened Constants
  import opened Text
  import opened SrtParser
  import opened AssParser
  import opened SrtWriter
  import opened Spreadsheet

  /** The parser `convert` calls. */
  datatype Reader = SrtReader | AssReader | XlsxReader

  /** The input file as each parser would read it; only the chosen parser's reading is used. */
  datatype Input = Input(text: IoResult<string>, lines: IoResult<seq<string>>, book: IoResult<Sheet>)

  /** The three conversion types. */
  const SubtitleToExcel := "subtitle_to_excel"
  const AssToSrtType := "ass_to_srt"
  const XlsxToSrt := "xlsx_to_srt"

  /** A SubtitleConverterError raised by `convert` itself. */
  function ConverterError(msg: string): Error {
    Error(SubtitleConverterError, msg)
  }

  /** The case-insensitive suffix test `input_path.lower().endswith(suffix)`. */
  predicate HasSuffix(path: string, suffix: string) {
    EndsWith(Lower(path), suffix)
  }

  /** The parser for a conversion type and an input path, or the error raised before any parsing. */
  function Route(conversionType: string, inputPath: string): Result<Reader> {
    if conversionType == SubtitleToExcel then
      if HasSuffix(inputPath, ".srt") then Ok(SrtReader)
      else if HasSuffix(inputPath, ".ass") then Ok(AssReader)
      else Err(ConverterError(MsgUnsupportedFormat))
    else if conversionType == AssToSrtType then
      if HasSuffix(inputPath, ".ass") then Ok(AssReader)
      else Err(ConverterError("输入文件必须是 .ass 格式。"))
    else if conversionType == XlsxToSrt then
      if HasSuffix(inputPath, ".xlsx") then Ok(XlsxReader)
      else Err(ConverterError("输入文件必须是 .xlsx 格式。"))
    else Err(ConverterError("不支持的转换类型: " + conversionType))
  }

  /** What the chosen parser returns or raises. */
  function Parsed(reader: Reader, inputPath: string, input: Input): Result<seq<seq<string>>> {
    match reader
    case SrtReader =>
      if input.text.IoError? then Err(Error(ParseError, "解析 SRT 文件 '" + inputPath + "' 时出错: " + input.text.reason))
      else Ok(SrtCues(input.text.content))
    case AssReader =>
      if input.lines.IoError? then Err(ReadError(inputPath, input.lines.reason))
      else AssCues(input.lines.content)
    case XlsxReader =>
      if input.book.IoError? then Err(XlsxError(inputPath, input.book.reason))
      else XlsxRows(inputPath, input.book.content)
  }

  /**
   * The `except` chain: a ParseError or WriteError becomes a
   * SubtitleConverterError with the same message, and a
   * SubtitleConverterError is raised again as it is.
   */
  function Rewrap(e: Error): (r: Error)
    ensures r.msg == e.msg
  {
    if e.kind == ParseError || e.kind == WriteError then Error(SubtitleConverterError, e.msg) else e
  }

  /** The parsed entries `convert` hands to a writer, or the error that stops it first. */
  function Data(conversionType: string, inputPath: string, input: Input): Result<seq<seq<string>>> {
    var route := Route(conversionType, inputPath);
    if route.Err? then Err(route.error)
    else
      var parsed := Parsed(route.value, inputPath, input);
      if parsed.Err? then Err(Rewrap(parsed.error))
      else if parsed.value == [] then Err(ConverterError(MsgNoDataParsed))
      else Ok(parsed.value)
  }

  /** Whether the Excel writer is the one for a conversion type. */
  predicate WritesExcel(conversionType: string) {
    conversionType == SubtitleToExcel
  }

  /** What `convert` returns or raises. */
  function Outcome(conversionType: string, inputPath: string, outputPath: string, input: Input,
                   openFailure: Option<string>, saveFailure: Option<string>): Result<()>
  {
    var data := Data(conversionType, inputPath, input);
    if data.Err? then Err(data.error)
    else
      var written :=
        if WritesExcel(conversionType) then ExcelWriteResult(outputPath, data.value, saveFailure)
        else SrtWriteResult(outputPath, data.value, openFailure);
      if written.Err? then Err(Rewrap(written.error)) else Ok(())
  }

  /**
   * The dispatch table: which parser runs for which conversion type and
   * (case-insensitive) suffix, and no other combination reaches a parser.
   */
  lemma RouteTable(conversionType: string, inputPath: string, reader: Reader)
    ensures Route(conversionType, inputPath) == Ok(reader) <==>
      (conversionType == SubtitleToExcel && HasSuffix(inputPath, ".srt") && reader == SrtReader)
      || (conversionType == SubtitleToExcel && HasSuffix(inputPath, ".ass") && reader == AssReader)
      || (conversionType == AssToSrtType && HasSuffix(inputPath, ".ass") && reader == AssReader)
      || (conversionType == XlsxToSrt && HasSuffix(inputPath, ".xlsx") && reader == XlsxReader)
  {
  }

  /**
   * An unsupported conversion type, or a suffix that does not fit the type,
   * is rejected with its own SubtitleConverterError before any parsing.
   */
  lemma EarlyRejection(conversionType: string, inputPath: string, outputPath: string, input: Input,
                       openFailure: Option<string>, saveFailure: Option<string>)
    ensures conversionType != SubtitleToExcel && conversionType != AssToSrtType && conversionType != XlsxToSrt ==>
      Outcome(conversionType, inputPath, outputPath, input, openFailure, saveFailure)
      == Err(ConverterError("不支持的转换类型: " + conversionType))
    ensures conversionType == SubtitleToExcel && !HasSuffix(inputPath, ".srt") && !HasSuffix(inputPath, ".ass") ==>
      Outcome(conversionType, inputPath, outputPath, input, openFailure, saveFailure)
      == Err(ConverterError(MsgUnsupportedFormat))
    ensures conversionType == AssToSrtType && !HasSuffix(inputPath, ".ass") ==>
      Outcome(conversionType, inputPath, outputPath, input, openFailure, saveFailure)
      == Err(ConverterError("输入文件必须是 .ass 格式。"))
    ensures conversionType == XlsxToSrt && !HasSuffix(inputPath, ".xlsx") ==>
      Outcome(conversionType, inputPath, outputPath, input, openFailure, saveFailure)
      == Err(ConverterError("输入文件必须是 .xlsx 格式。"))
  {
  }

  /** A parse that yields no entries is rejected, and no writer runs. */
  lemma EmptyResultRejected(conversionType: string, inputPath: string, outputPath: string, input: Input,
                            openFailure: Option<string>, saveFailure: Option<string>)
    requires Route(conversionType, inputPath).Ok?
    requires Parsed(Route(conversionType, inputPath).value, inputPath, input) == Ok([])
    ensures Outcome(conversionType, inputPath, outputPath, input, openFailure, saveFailure)
      == Err(ConverterError(MsgNoDataParsed))
  {
  }

  /** Every parser raises only ParseErrors. */
  lemma ParsedErrorKind(reader: Reader, inputPath: string, input: Input)
    ensures Parsed(reader, inputPath, input).Err? ==> Parsed(reader, inputPath, input).error.kind == ParseError
  {
    if reader == AssReader && input.lines.Read? {
      AssCuesError(input.lines.content);
    }
  }

  /**
   * Every failure of `convert` is a SubtitleConverterError; a ParseError or
   * WriteError from a parser or a writer keeps its message.
   */
  lemma FailuresAreConverterErrors(conversionType: string, inputPath: string, outputPath: string, input: Input,
                                   openFailure: Option<string>, saveFailure: Option<string>)
    ensures var r := Outcome(conversionType, inputPath, outputPath, input, openFailure, saveFailure);
      r.Err? ==> r.error.kind == SubtitleConverterError
    ensures var route := Route(conversionType, inputPath);
      route.Ok? && Parsed(route.value, inputPath, input).Err? ==>
        Outcome(conversionType, inputPath, outputPath, input, openFailure, saveFailure)
        == Err(ConverterError(Parsed(route.value, inputPath, input).error.msg))
  {
    var route := Route(conversionType, inputPath);
    if route.Ok? {
      ParsedErrorKind(route.value, inputPath, input);
    }
  }

  /** A writer's WriteError reaches the caller as a SubtitleConverterError with the same message. */
  lemma WriterFailureRewrapped(conversionType: string, inputPath: string, outputPath: string, input: Input,
                               openFailure: Option<string>, saveFailure: Option<string>)
    requires Data(conversionType, inputPath, input).Ok?
    ensures var data := Data(conversionType, inputPath, input).value;
      var written :=
        if WritesExcel(conversionType) then ExcelWriteResult(outputPath, data, saveFailure)
        else SrtWriteResult(outputPath, data, openFailure);
      (written.Err? ==>
        (written.error.kind == WriteError
         && Outcome(conversionType, inputPath, outputPath, input, openFailure, saveFailure)
            == Err(ConverterError(written.error.msg))))
      && (written.Ok? ==> Outcome(conversionType, inputPath, outputPath, input, openFailure, saveFailure) == Ok(()))
  {
  }

  /**
   * `xlsx_to_srt` on a workbook `parse_xlsx` reads into some entries hands
   * exactly those entries to `write_to_srt`, which writes all of them.
   */
  lemma XlsxConvertsToSrt(inputPath: string, outputPath: string, input: Input, saveFailure: Option<string>)
    requires HasSuffix(inputPath, ".xlsx") && input.book.Read?
    requires XlsxRows(inputPath, input.book.content).Ok? && XlsxRows(inputPath, input.book.content).value != []
    ensures Data(XlsxToSrt, inputPath, input) == XlsxRows(inputPath, input.book.content)
    ensures Outcome(XlsxToSrt, inputPath, outputPath, input, None, saveFailure) == Ok(())
  {
    var data := XlsxRows(inputPath, input.book.content).value;
    assert Route(XlsxToSrt, inputPath) == Ok(XlsxReader);
    SrtWriteSucceeds(outputPath, data);
  }

  /**
   * A workbook written by `write_to_excel` from storable entries converts
   * back with `xlsx_to_srt`, and every one of those entries is written.
   */
  lemma ExcelConvertsBack(inputPath: string, outputPath: string, input: Input, data: seq<seq<string>>,
                          saveFailure: Option<string>)
    requires HasSuffix(inputPath, ".xlsx") && input.book == Read(ExcelSheet(data))
    requires data != [] && forall i :: 0 <= i < |data| ==> Storable(data[i])
    ensures Data(XlsxToSrt, inputPath, input) == Ok(data)
    ensures Outcome(XlsxToSrt, inputPath, outputPath, input, None, saveFailure) == Ok(())
    ensures FirstBadEntry(data) == |data|
  {
    ExcelRoundTrip(inputPath, data);
    XlsxConvertsToSrt(inputPath, outputPath, input, saveFailure);
    SrtWriteSucceeds(outputPath, data);
  }

  /** The parsing stage: call the chosen parser on the input file. */
  method Parse(reader: Reader, inputPath: string, input: Input) returns (parsed: Result<seq<seq<string>>>)
    ensures parsed == Parsed(reader, inputPath, input)
  {
    match reader {
      case SrtReader =>
        parsed := ParseSrt(inputPath, input.text);
      case AssReader =>
        parsed := ParseAss(inputPath, input.lines);
      case XlsxReader =>
        parsed := ParseXlsx(inputPath, input.book);
    }
  }

  /**
   * `convert(input_path, output_path, conversion_type)`.  The input file's
   * readings are `input`; the SRT output goes to `srtOut` unless it cannot be
   * opened (`openFailure`), the Excel output to `xlsxOut` unless saving fails
   * (`saveFailure`).  Only the writer for the conversion type touches its
   * file, and only once parsing has produced some entries.
   */
  method Convert(inputPath: string, outputPath: string, conversionType: string, input: Input,
                 srtOut: TextFile, xlsxOut: XlsxFile, openFailure: Option<string>, saveFailure: Option<string>)
    returns (r: Result<()>)
    modifies srtOut, xlsxOut
    ensures r == Outcome(conversionType, inputPath, outputPath, input, openFailure, saveFailure)
    ensures Data(conversionType, inputPath, input).Err? ==>
      srtOut.text == old(srtOut.text) && xlsxOut.sheet == old(xlsxOut.sheet)
    ensures Data(conversionType, inputPath, input).Ok? && WritesExcel(conversionType) ==>
      srtOut.text == old(srtOut.text)
      && xlsxOut.sheet == if r.Ok? then Some(ExcelSheet(Data(conversionType, inputPath, input).value)) else old(xlsxOut.sheet)
    ensures Data(conversionType, inputPath, input).Ok? && !WritesExcel(conversionType) ==>
      xlsxOut.sheet == old(xlsxOut.sheet)
      && var data := Data(conversionType, inputPath, input).value;
      srtOut.text == if openFailure.Some? then old(srtOut.text) else SrtText(data[..FirstBadEntry(data)])
  {
    // 1. Parsing.
    var route := Route(conversionType, inputPath);
    if route.Err? {
      return Err(route.error);
    }
    var parsed := Parse(route.value, inputPath, input);
    if parsed.Err? {
      return Err(Rewrap(parsed.error));
    }
    var data := parsed.value;
    // 2. The parse result must not be empty.
    if data == [] {
      return Err(ConverterError(MsgNoDataParsed));
    }
    assert Data(conversionType, inputPath, input) == Ok(data);
    // 3. Writing.
    var written: Result<()>;
    if conversionType == SubtitleToExcel {
      written := WriteToExcel(outputPath, data, xlsxOut, saveFailure);
    } else {
      written := WriteToSrt(outputPath, data, srtOut, openFailure);
    }
    if written.Err? {
      return Err(Rewrap(written.error));
    }
    return Ok(());
  }
}
