/** The constants of constants.py that the conversion core uses. */
module Constants {
  /** EXCEL_HEADERS: index, start time, end time, subtitle text. */
  const ExcelHeaders: seq<string> := ["序号", "开始时间", "结束时间", "字幕内容"]

  /** MSG_WARNING_UNSUPPORTED_FORMAT */
  const MsgUnsupportedFormat: string := "格式不支持"

  /** MSG_WARNING_NO_DATA_PARSED */
  const MsgNoDataParsed: string := "解析失败"

  /** The two halves of MSG_WARNING_INCORRECT_HEADER around `{expected}` and `{actual}`. */
  const MsgIncorrectHeaderExpected: string := "Excel 文件表头不正确。期望: "
  const MsgIncorrectHeaderActual: string := ", 实际: "
}
