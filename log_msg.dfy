/// The log record: `source_loc` and `log_msg`, with their constructors and
/// field defaults. The clock and the thread-id query that the constructors
/// call are given as arguments.
module LogMsgs {
  import opened Optional
  import opened Levels

  /** Ticks of `log_clock` (`std::chrono::system_clock`) per second: its
      period is one nanosecond in the GNU C++ library. */
  const TicksPerSecond: nat := 1_000_000_000

  /** Where a log call was made. A null `const char*` is `None`. */
  datatype SourceLoc = SourceLoc(filename: Option<string>, line: int, funcname: Option<string>) {
    /** `source_loc::empty`: no location was given. */
    predicate Empty() {
      line == 0
    }
  }

  /** `source_loc()`: null names, line 0. */
  function DefaultSourceLoc(): (loc: SourceLoc)
    ensures loc.Empty()
    ensures loc.filename == None && loc.funcname == None
  {
    SourceLoc(None, 0, None)
  }

  /** One log event. `time` counts clock ticks since the epoch; `threadId`
      is a `size_t`. */
  datatype LogMsg = LogMsg(
    loggerName: string,
    lvl: Level,
    time: int,
    threadId: nat,
    source: SourceLoc,
    payload: string)

  /** `log_msg()`: level `off`, thread id 0, the epoch as time, empty texts
      and an empty source location. */
  function DefaultLogMsg(): (m: LogMsg)
    ensures m.lvl == Off && m.threadId == 0 && m.time == 0
    ensures m.loggerName == [] && m.payload == [] && m.source.Empty()
  {
    LogMsg([], Off, 0, 0, DefaultSourceLoc(), [])
  }

  /** The five-argument constructor; `threadId` is what `get_thread_id()`
      returned. It stores every argument unchanged. */
  function NewLogMsg(time: int, loc: SourceLoc, loggerName: string, lvl: Level, payload: string, threadId: nat): (m: LogMsg)
    ensures m.time == time && m.source == loc && m.loggerName == loggerName
    ensures m.lvl == lvl && m.payload == payload && m.threadId == threadId
  {
    LogMsg(loggerName, lvl, time, threadId, loc, payload)
  }

  /** The four-argument constructor: the time is `log_clock::now()`, given
      here as `now`. */
  function NewLogMsgNow(now: int, threadId: nat, loc: SourceLoc, loggerName: string, lvl: Level, payload: string): (m: LogMsg)
    ensures m.time == now && m.source == loc && m.loggerName == loggerName
    ensures m.lvl == lvl && m.payload == payload && m.threadId == threadId
  {
    NewLogMsg(now, loc, loggerName, lvl, payload, threadId)
  }

  /** The three-argument constructor: no source location. */
  function NewLogMsgNoLoc(now: int, threadId: nat, loggerName: string, lvl: Level, payload: string): (m: LogMsg)
    ensures m.source.Empty()
    ensures m.time == now && m.loggerName == loggerName && m.lvl == lvl
    ensures m.payload == payload && m.threadId == threadId
  {
    NewLogMsgNow(now, threadId, DefaultSourceLoc(), loggerName, lvl, payload)
  }

  /** `source_loc(filename, line, funcname)` is empty exactly when its line
      is 0, whatever the names, null or not. */
  lemma SourceLocEmptyIffLineZero(file: Option<string>, line: int, func: Option<string>)
    ensures SourceLoc(file, line, func).Empty() <==> line == 0
  {
  }
}
