/** The parsed event payload, as far as storage, grouping and display read it. */
module Protocol {
  import opened Basics

  datatype Frame = Frame(
    filename: string, absPath: string, funcName: string, moduleName: string, lineno: int, colno: int, inApp: bool)

  /** A stack trace is its list of frames; a missing one is None. */
  type Stacktrace = seq<Frame>

  datatype Thread = Thread(current: bool, stacktrace: Option<Stacktrace>)

  datatype ExceptionValue = ExceptionValue(typ: string, value: string, stacktrace: Option<Stacktrace>)

  datatype Event = Event(
    eventId: string, timestamp: Option<int>, platform: string, level: string, message: string,
    exceptions: seq<ExceptionValue>, threads: seq<Thread>, release: string)
}
