/// The flag formatters of the pattern formatter: one directive per kind of
/// placeholder, each rendered from a log record and broken-down calendar
/// fields.
module FlagFormatters {
  import opened Levels
  import opened LogMsgs
  import opened Decimal

  /** The six fields of `std::tm` that the directives read: year counts from
      1900 and month from 0, as in C. */
  datatype Tm = Tm(year: int, mon: int, mday: int, hour: int, min: int, sec: int)

  /** A value-initialised `std::tm`. */
  const ZeroTm := Tm(0, 0, 0, 0, 0, 0)

  /** One compiled step of a pattern: plain text or one placeholder. Each
      subclass of `flag_formatter` is one alternative; a flag formatter's
      `clone` is a copy of the value. */
  datatype Directive =
    | Literal(text: string)  // raw_string_formatter
    | Year                   // %Y
    | Month                  // %m
    | Day                    // %d
    | Hour                   // %H
    | Minute                 // %M
    | Second                 // %S
    | LevelShort             // %l
    | LevelFull              // %L
    | Name                   // %n
    | Payload                // %v
    | ThreadId               // %t

  /** The directives that read the calendar fields. */
  predicate IsTimeField(d: Directive) {
    d.Year? || d.Month? || d.Day? || d.Hour? || d.Minute? || d.Second?
  }

  /** What a flag formatter's `format` appends to the buffer. */
  function Render(d: Directive, msg: LogMsg, tm: Tm): string {
    match d
    case Literal(text) => text
    case Year => ZeroPadded(tm.year + 1900, 4)
    case Month => ZeroPadded(tm.mon + 1, 2)
    case Day => ZeroPadded(tm.mday, 2)
    case Hour => ZeroPadded(tm.hour, 2)
    case Minute => ZeroPadded(tm.min, 2)
    case Second => ZeroPadded(tm.sec, 2)
    case LevelShort => LevelToShortString(msg.lvl)
    case LevelFull => LevelToString(msg.lvl)
    case Name => msg.loggerName
    case Payload => msg.payload
    case ThreadId => Digits(msg.threadId)
  }

  /** The renderings of `ds`, concatenated in order. */
  function RenderAll(ds: seq<Directive>, msg: LogMsg, tm: Tm): string {
    if ds == [] then [] else Render(ds[0], msg, tm) + RenderAll(ds[1..], msg, tm)
  }

  // ---------------------------------------------------------------------
  // Properties
  // ---------------------------------------------------------------------

  /** Rendering a concatenation renders each part in turn. */
  lemma {:induction false} RenderAllAppend(a: seq<Directive>, b: seq<Directive>, msg: LogMsg, tm: Tm)
    ensures RenderAll(a + b, msg, tm) == RenderAll(a, msg, tm) + RenderAll(b, msg, tm)
  {
    if a == [] {
      assert a + b == b;
    } else {
      assert (a + b)[0] == a[0];
      assert (a + b)[1..] == a[1..] + b;
      RenderAllAppend(a[1..], b, msg, tm);
    }
  }

  /** The minimum width of a calendar directive's rendering. */
  function FieldWidth(d: Directive): nat {
    if d.Year? then 4 else 2
  }

  /** The number a calendar directive shows: `tm_year + 1900`, `tm_mon + 1`,
      and the day, hour, minute and second as stored. */
  function FieldValue(d: Directive, tm: Tm): int
    requires IsTimeField(d)
  {
    match d
    case Year => tm.year + 1900
    case Month => tm.mon + 1
    case Day => tm.mday
    case Hour => tm.hour
    case Minute => tm.min
    case Second => tm.sec
  }

  /** Each calendar directive renders its number zero-padded to its width
      (four for the year, two for the rest), or unpadded when the number
      alone is already wider: digits, after a minus sign for a negative
      number, that read back as exactly that number. */
  lemma RenderTimeField(d: Directive, msg: LogMsg, tm: Tm)
    requires IsTimeField(d)
    ensures |Render(d, msg, tm)| >= FieldWidth(d)
    ensures |Render(d, msg, tm)| ==
      if FieldWidth(d) > |ZeroPadded(FieldValue(d, tm), 0)| then FieldWidth(d) else |ZeroPadded(FieldValue(d, tm), 0)|
    ensures FieldValue(d, tm) >= 0 ==> AllDigits(Render(d, msg, tm))
    ensures FieldValue(d, tm) < 0 ==> Render(d, msg, tm)[0] == '-' && AllDigits(Render(d, msg, tm)[1..])
    ensures SignedValue(Render(d, msg, tm)) == FieldValue(d, tm)
  {
    ZeroPaddedRoundTrip(FieldValue(d, tm), FieldWidth(d));
  }

  /** The thread id renders as its plain decimal digits. */
  lemma RenderThreadId(msg: LogMsg, tm: Tm)
    ensures AllDigits(Render(ThreadId, msg, tm))
    ensures DecimalValue(Render(ThreadId, msg, tm)) == msg.threadId
  {
    DigitsRoundTrip(msg.threadId);
  }

  /** A flag formatter reads only what it renders: the calendar directives
      read only `tm`, and every other directive only the record. */
  lemma RenderReadsOnlyItsInputs(d: Directive, msg: LogMsg, msg': LogMsg, tm: Tm, tm': Tm)
    ensures IsTimeField(d) ==> Render(d, msg, tm) == Render(d, msg', tm)
    ensures !IsTimeField(d) ==> Render(d, msg, tm) == Render(d, msg, tm')
  {
  }

  /** `%l` and `%L` render the short and full names of the record's level,
      and `%n` and `%v` its logger name and payload verbatim. */
  lemma RenderTextFields(msg: LogMsg, tm: Tm)
    ensures Render(LevelShort, msg, tm) == [ToUpperChar(Render(LevelFull, msg, tm)[0])]
    ensures IsNamed(msg.lvl) ==> ParseLevel(Render(LevelFull, msg, tm)) == msg.lvl
    ensures Render(Name, msg, tm) == msg.loggerName && Render(Payload, msg, tm) == msg.payload
  {
    ShortNameIsInitial(msg.lvl);
    if IsNamed(msg.lvl) {
      ParseLevelRoundTrip(msg.lvl, LevelToString(msg.lvl));
    }
  }
}
