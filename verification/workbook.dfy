/** What opening an uploaded Excel file gives. Reading the workbook is I/O
    (Apache POI), so its outcome is an input of the model: the first sheet's
    rows, an I/O failure, or any other exception raised while the workbook
    is opened or its first sheet fetched. */
module Workbooks {

  import opened Results

  /** The first sheet's rows, a missing row being `None`; or the failure,
      whose exception message may be missing. A workbook without any sheet
      is `Malformed`: `getSheetAt(0)` throws rather than returning null. */
  datatype Workbook =
    | Opened(sheet: seq<Option<seq<string>>>)
    | Unreadable(ioMessage: Option<string>)
    | Malformed(message: Option<string>)

  /** Java's string concatenation prints a missing message as "null". */
  function ExceptionText(message: Option<string>): (r: string)
    ensures message.Some? ==> r == message.value
    ensures message.None? ==> r == "null"
  {
    if message.None? then "null" else message.value
  }
}
