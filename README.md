# ICPLog formatter core in Dafny

This project models the core of ICPLog, a small C++ logging library. It
covers the pattern formatter, the log levels, the sink base class, the log
record, and the string-trim helpers. The model states and proves what each
piece promises.

- `levels.dfy` (module `Levels`) models the `level` enum as a 32-bit
  integer with the seven levels 0 to 6.
  - `level_to_string` and `level_to_short_string` are bounds-checked table
    lookups. Anything outside 0..6 gives "unknown" or "U".
  - `string_to_level` is a method with its two loops: it lowercases a copy
    of the input in the C locale, then scans the name table. It falls back
    to `info`.
  - `should_log` is the comparison of a record's level with a threshold.
- `utils.dfy` (module `Utils`) models `ltrim`, `rtrim` and `trim`.
  - Each one erases whitespace in place from a `std::string` object
    (`StdString`) and returns that same object.
  - Whitespace is `isspace` in the C locale: space, and the codes 9 to 13.
- `log_msg.dfy` (module `LogMsgs`) models the `source_loc` and `log_msg`
  value types, their constructors and the defaults of their fields.
  - The clock reading and the thread id are arguments.
  - Time is a count of clock ticks: nanoseconds, as in the GNU C++ library.
- `decimal.dfy` (module `Decimal`) models the two `fmt` format specs the
  formatter uses:
  - `"{}"` of an unsigned value;
  - `"{:0Nd}"` of a signed value: zero padding after the sign.
- `flag_formatters.dfy` (module `FlagFormatters`) models the flag formatters.
  - Each is one alternative of the datatype `Directive`, with what its
    `format` appends.
  - `Tm` holds the six fields of `std::tm` that the directives read.
- `pattern_compiler.dfy` (module `PatternCompiler`) holds the specification
  of `compile_pattern`.
  - `Compile` gives the directives a pattern compiles to.
  - `Expand` is an independent reading of a pattern's meaning, placeholder
    by placeholder.
  - The central lemma, `CompileRenders`, shows that rendering the compiled
    directives in order gives exactly that meaning.
- `pattern_formatter.dfy` (module `PatternFormatters`) models
  `pattern_formatter` as a class.
  - Its fields are the pattern, the directive list and the one-second time
    cache.
  - `CompilePattern` is the scanning loop itself, proved to append
    `Compile(pattern)`.
  - `Format` refreshes the cache only when the record's whole second
    differs from the cached one. It then appends each directive's
    rendering and one newline.
  - A ghost counter records the calendar conversions. Over a run of
    records, `Conversions` counts them: one per change of second.
  - The calendar conversion (`localtime_r`) is a function given to the
    constructor.
- `sinks.dfy` (module `Sinks`) models `base_sink` as a class.
  - Its fields are the threshold and the sink's own formatter.
  - A ghost history records the calls to the subclass hooks `sink_it_` and
    `flush_`.
  - `LogIfEnabled` models the callers' loop that asks `should_log` before
    `log`. `log` itself does no filtering.

Two behaviours of the code differ from how the formatter is usually
described. The model follows the code in both cases.

- `%%` and an unknown tag `%c` do not extend the current literal. The
  literal run is flushed at every `%`, so "Progress: 50%% - %v" compiles
  to three directives, `[Literal("Progress: 50"), Literal("% - "), Payload]`,
  not two. The output text is the same either way (`EscapeExample`).
- The cache starts at second 0 with zeroed calendar fields. A record from
  the epoch's own second is therefore rendered from the zeroed fields
  (`1900-01-00`), without a conversion (`FormatAtEpochSecond`).

## Model

| member | source | states |
|---|---|---|
| Levels.SeverityOrder | include/icplog/level.h:9-17 | the seven levels are the ordinals 0 to 6, each one more severe than the last, and exactly they are the named levels |
| Levels.LevelToStringTable | src/level.cpp:8-22 | `level_to_string` gives the table name for ordinals 0..6, and "unknown" exactly for every other value |
| Levels.LevelNamesDistinct | src/level.cpp:8-10 | two named levels have the same full name only if they are the same level |
| Levels.ShortNameIsInitial | src/level.cpp:12-30 | the short name is the upper-cased first letter of the full name, including "U" for "unknown" |
| Levels.NamesAreLowerCase | src/level.cpp:8-10 | every full name is already lower case |
| Levels.Lower | src/level.cpp:34-36 | the lowered copy has the same length, contains no upper-case letter, matches the input character by character up to case, and keeps every character that was not an upper-case letter |
| Levels.LowerIdempotent | src/level.cpp:34-36 | lowering an already lowered string changes nothing |
| Levels.LowerIgnoresCase | src/level.cpp:34-36 | two strings lower to the same text exactly when they differ at most in the case of their letters |
| Levels.ParseLevelIgnoresCase | src/level.cpp:32-43 | strings that differ only in letter case parse to the same level |
| Levels.StringToLevel | src/level.cpp:32-46 | the lowercase-then-scan loops return what `ParseLevel` specifies |
| Levels.FindLevelInRange | src/level.cpp:38-45 | the table scan always yields a named level |
| Levels.ParseLevelInRange | src/level.cpp:38-45 | `string_to_level` always returns an ordinal in 0..6 |
| Levels.FindLevelFirstMatch | src/level.cpp:38-42 | the scan returns the first index whose name equals the lowered text |
| Levels.FindLevelNoMatch | src/level.cpp:44-45 | when no name matches, the scan returns `info` |
| Levels.ParseLevelDefault | src/level.cpp:44-45 | text whose lowered form is no level name parses as `info` |
| Levels.ParseLevelMatches | src/level.cpp:32-45 | for any named level, text parses to it exactly when the lowered text is its name, or, for `info` only, when the lowered text is no name at all |
| Levels.ParseLevelRoundTrip | src/level.cpp:8-43 | a level's name, in any mix of upper and lower case, parses back to that level |
| Levels.ParseLevelExamples | src/level.cpp:32-45 | "" and " warn " give `info`; "WARN" gives `warn` and "Critical" gives `critical` |
| Levels.ShouldLogMonotone | include/icplog/level.h:29-31 | `should_log` holds exactly when the record's level is at least the threshold; it is reflexive and monotone in the record's level |
| Levels.ShouldLogExtremes | include/icplog/level.h:29-31 | with threshold `trace` every named level passes; with `off` only `off` passes |
| Levels.WarnPassesThreeOfSix | include/icplog/level.h:29-31 | of trace..critical, exactly warn, error and critical pass threshold `warn`, in that order |
| Utils.LTrim | src/details/utils.cpp:44-49 | erases the leading whitespace of the string object in place and returns that same object |
| Utils.RTrim | src/details/utils.cpp:51-56 | erases the trailing whitespace in place and returns that same object |
| Utils.Trim | src/details/utils.cpp:58-60 | `rtrim` then `ltrim` on the same object; the result is `Trimmed` of the old contents |
| Utils.LeftTrimmedIsSuffix | src/details/utils.cpp:44-49 | `ltrim` leaves a suffix; everything removed is whitespace; the rest is empty or starts with a non-space |
| Utils.RightTrimmedIsPrefix | src/details/utils.cpp:51-56 | `rtrim` leaves a prefix; everything removed is whitespace; the rest is empty or ends with a non-space |
| Utils.LeftTrimmedFixed | src/details/utils.cpp:44-49 | a string that is empty or starts with a non-space is left unchanged by `ltrim` |
| Utils.RightTrimmedFixed | src/details/utils.cpp:51-56 | a string that is empty or ends with a non-space is left unchanged by `rtrim` |
| Utils.TrimmedIsSlice | src/details/utils.cpp:58-60 | `trim` leaves one contiguous slice, with only whitespace cut off on either side; the slice is empty or begins and ends with a non-space |
| Utils.TrimIdempotent | src/details/utils.cpp:44-60 | applying `ltrim`, `rtrim` or `trim` twice gives the same result as applying it once |
| Utils.TrimmedEmpty | src/details/utils.cpp:44-60 | a string trims to "" exactly when it is all whitespace, including the empty string |
| LogMsgs.DefaultSourceLoc | include/icplog/details/log_msg.h:13-20 | a default `source_loc` has null names and line 0, so it is empty |
| LogMsgs.SourceLocEmptyIffLineZero | include/icplog/details/log_msg.h:14-16 | a location is empty exactly when its line is 0, whatever its names |
| LogMsgs.DefaultLogMsg | include/icplog/details/log_msg.h:60-67 | a default `log_msg` has level `off`, thread id 0, epoch time, empty texts and an empty location |
| LogMsgs.NewLogMsg | include/icplog/details/log_msg.h:29-40 | the full constructor stores name, level, time, location, payload and the thread id unchanged |
| LogMsgs.NewLogMsgNow | include/icplog/details/log_msg.h:42-48 | the four-argument constructor stores the clock reading as the time and the other arguments unchanged |
| LogMsgs.NewLogMsgNoLoc | include/icplog/details/log_msg.h:50-55 | the three-argument constructor gives an empty location and stores the other fields unchanged |
| Decimal.DigitsRoundTrip | src/pattern_formatter.cpp:159 | `"{}"` of a value gives a non-empty digit string without a leading zero, which reads back as the value |
| Decimal.ZeroPaddedRoundTrip | src/pattern_formatter.cpp:36-96 | `"{:0Nd}"` gives at least N characters, exactly N when the plain digits are shorter; digits after an optional minus sign; reads back as the value |
| Decimal.ZeroPaddedYears | src/pattern_formatter.cpp:36 | 2025 and 1900 at width 4 are "2025" and "1900" |
| Decimal.ZeroPaddedSmall | src/pattern_formatter.cpp:48-96 | 7, 1 and 0 at width 2 are "07", "01" and "00"; -5 at width 4 is "-005" |
| FlagFormatters.RenderAllAppend | src/pattern_formatter.cpp:197-199 | rendering a concatenation of directive lists renders each list in turn |
| FlagFormatters.RenderTimeField | src/pattern_formatter.cpp:33-102 | each calendar directive renders `tm_year + 1900`, `tm_mon + 1`, or the day, hour, minute or second, padded with zeros to exactly width 4 for the year and 2 for the others, or left unpadded when already wider; digits only, after a minus sign for a negative number; reads back as that number |
| FlagFormatters.RenderThreadId | src/pattern_formatter.cpp:155-160 | `%t` renders the thread id as plain digits that read back as it |
| FlagFormatters.RenderReadsOnlyItsInputs | include/icplog/pattern_formatter.h:37-39 | a calendar directive reads only the calendar fields; every other directive reads only the record |
| FlagFormatters.RenderTextFields | src/pattern_formatter.cpp:105-148 | `%l` is the upper-cased initial of the level's name and `%L` its name, which parses back to the level; `%n` and `%v` copy the logger name and the payload verbatim |
| PatternCompiler.CompileFromRenders | src/pattern_formatter.cpp:215-270 | from any point of the scan, the compiled directives render as the pending text followed by the meaning of the rest of the pattern |
| PatternCompiler.CompileRenders | src/pattern_formatter.cpp:215-270 | the directives of any pattern render, in order, to exactly the pattern's meaning: source order kept, no text lost or added |
| PatternCompiler.CompileFromNoEmptyLiteral | src/pattern_formatter.cpp:222-228 | from any point of the scan no empty literal is emitted |
| PatternCompiler.CompileNoEmptyLiteral | src/pattern_formatter.cpp:257-269 | no pattern compiles to an empty literal, because pending text is flushed only when non-empty |
| PatternCompiler.LiteralRun | src/pattern_formatter.cpp:256-260 | text without `%` joins the current literal run |
| PatternCompiler.FlushAtPercent | src/pattern_formatter.cpp:221-228 | at a `%` the pending literal is emitted before anything else |
| PatternCompiler.CompileSplit | src/pattern_formatter.cpp:220-262 | a `%`-free run followed by the end or a `%` becomes exactly one literal, placed before what follows |
| PatternCompiler.CompileTag | src/pattern_formatter.cpp:231-254 | a recognised tag becomes its one directive; `%%` starts a literal run with one `%`; an unknown `%c` starts one with the two characters `%c` |
| PatternCompiler.PercentStep | src/pattern_formatter.cpp:221-255 | one `%` step of the scan: flush, then the tag's directive or escape text, or nothing at the end |
| PatternCompiler.TrailingPercentDropped | src/pattern_formatter.cpp:230-232 | a lone `%` at the end adds no directive and no text |
| PatternCompiler.TextThenTag | src/pattern_formatter.cpp:237-248 | text followed by a recognised tag compiles to a literal and then that tag's directive |
| PatternCompiler.TextEscapeTextTag | src/pattern_formatter.cpp:249-254 | text, an escape, more text and a tag compile to two literals, split at the escape, then the directive |
| PatternCompiler.ExpandTextEscapeTextTag | src/pattern_formatter.cpp:249-254 | that pattern's meaning is the texts with the escape's text between them, then the tag's field |
| PatternCompiler.EscapeExample | tests/test_formatter.cpp:124-134 | "Progress: 50%% - %v" compiles to two literals and the payload, and renders as "Progress: 50% - " followed by the payload |
| PatternCompiler.ExpandText | src/pattern_formatter.cpp:257-261 | text without `%` stands for itself in a pattern's meaning |
| PatternCompiler.TextTagExpand | src/pattern_formatter.cpp:220-248 | the meaning of text followed by a recognised tag is the text, then the tag's field |
| PatternCompiler.DateThenRestCompiles | src/pattern_formatter.cpp:220-262 | three text runs, each followed by `%Y`, `%m` or `%d`, compile to a literal and the matching directive per run, ahead of what the rest compiles to |
| PatternCompiler.DateThenRestExpands | src/pattern_formatter.cpp:220-262 | their meaning is the texts with the year, month and day between them, then the meaning of the rest |
| PatternCompiler.UnknownTagPatternParts | tests/test_formatter.cpp:212 | the test pattern "[%Y-%m-%d] [%Z] %v" is its three date runs followed by the tail "] [%Z] %v" |
| PatternCompiler.UnknownTagExample | tests/test_formatter.cpp:209-220 | "[%Y-%m-%d] [%Z] %v" compiles to the date directives, then "] [" and "%Z] " as two literals (split at the unknown tag), then the payload |
| PatternCompiler.UnknownTagRendering | tests/test_formatter.cpp:209-220 | that pattern renders as "[", the year, "-", the month, "-", the day, then "] [%Z] " and the payload: "%Z" is output verbatim |
| PatternFormatters.WholeSeconds | src/pattern_formatter.cpp:187-189 | whole seconds of a tick count, truncated toward zero for both signs |
| PatternFormatters.AppendRenderings | src/pattern_formatter.cpp:196-199 | the loop over the flag formatters appends the rendering of every directive, in order, after the existing buffer |
| PatternFormatters.PatternFormatter.constructor | src/pattern_formatter.cpp:172-176 | stores the pattern and compiles it; the cache is at second 0 with zeroed fields |
| PatternFormatters.PatternFormatter.CompilePattern | src/pattern_formatter.cpp:215-270 | the scanning loop appends exactly `Compile(pattern)` to the directive list |
| PatternFormatters.PatternFormatter.Format | src/pattern_formatter.cpp:184-203 | converts the calendar fields once exactly when the record's second differs from the cached one; records that second; appends the pattern's meaning and one newline after the existing buffer; keeps the invariant |
| PatternFormatters.PatternFormatter.Clone | src/pattern_formatter.cpp:205-207 | a fresh formatter with the same pattern, directives and calendar conversion, a cache at second 0 with zeroed fields, and no conversions made yet |
| PatternFormatters.PatternFormatter.SetPattern | src/pattern_formatter.cpp:209-213 | the directives become exactly those of a fresh compile of the new pattern; the cache is kept |
| PatternFormatters.GetTimeOfSecond | src/pattern_formatter.cpp:272-283 | every record whose time falls in second `s`, with the seconds counted toward zero as `to_time_t` counts them, gets the calendar fields of `s`; second 0 covers the ticks on both sides of the epoch |
| PatternFormatters.SameSecondRun | src/pattern_formatter.cpp:185-194 | records that all fall in one second cost at most one conversion, and none if the cache already holds that second |
| PatternFormatters.ConversionsBounds | src/pattern_formatter.cpp:191-194 | a run makes at most one conversion per record, and exactly one per record when every record changes second |
| PatternFormatters.FormatEach | tests/test_formatter.cpp:78-83 | formatting each record of a run into a fresh buffer gives each record's rendering from its own second's fields; the ghost conversion count grows by `Conversions` of the run |
| PatternFormatters.DefaultShapeCompiles | include/icplog/pattern_formatter.h:19-21 | eight text runs, each followed by one of the default pattern's tags, compile to runs and directives in alternation |
| PatternFormatters.DefaultPatternCompiles | include/icplog/pattern_formatter.h:19-21 | the default pattern compiles to its sixteen directives |
| PatternFormatters.ZeroTmFields | include/icplog/pattern_formatter.h:53-54 | the zeroed fields render the year, month and day as "1900", "01" and "00" |
| PatternFormatters.ZeroTmDate | include/icplog/pattern_formatter.h:53-54 | "%Y-%m-%d" over the zeroed fields reads "1900-01-00" |
| PatternFormatters.FormatAtEpochSecond | include/icplog/pattern_formatter.h:53-54 | a new formatter given a record from second 0 writes "1900-01-00" and a newline |
| Sinks.BaseSink.constructor | include/icplog/sinks/base_sink.h:40 | a new sink has threshold `trace` and a formatter with the default pattern and an empty cache |
| Sinks.BaseSink.Log | include/icplog/sinks/base_sink.h:45-48 | `log` hands the record to `sink_it_` once, whatever its level |
| Sinks.BaseSink.Flush | include/icplog/sinks/base_sink.h:50-53 | `flush` calls `flush_` once and changes nothing else |
| Sinks.BaseSink.SetLevel | include/icplog/sinks/base_sink.h:55-58 | the threshold becomes the given level; the formatter is kept |
| Sinks.BaseSink.GetLevel | include/icplog/sinks/base_sink.h:60-63 | returns the current threshold and changes nothing |
| Sinks.BaseSink.ShouldLog | include/icplog/sinks/base_sink.h:65-67 | holds exactly when the level is at least the threshold, which is `should_log` of the level model; changes nothing |
| Sinks.BaseSink.SetFormatter | include/icplog/sinks/base_sink.h:69-72 | the sink's formatter becomes the given one; the threshold is kept |
| Sinks.BaseSink.FormatMessage | include/icplog/sinks/base_sink.h:80-82 | formats with the sink's current formatter: the formatter's cached second becomes the record's, it converts exactly when that second changed, and the record's rendering and a newline are appended after the existing buffer |
| Sinks.LogIfEnabled | tests/test_sink.cpp:78-88 | asking `should_log` before each `log` hands exactly the records at or above the threshold to `sink_it_`, in order |
| Sinks.AdmittedLevels | tests/test_sink.cpp:78-88 | the levels of the admitted records are the levels that pass the threshold, in order |
| Sinks.AdmittedMembers | tests/test_sink.cpp:78-88 | a record is admitted exactly when it is one of the records and its level reaches the threshold |
| Sinks.WarnAdmitsLastThree | tests/test_sink.cpp:69-88 | with threshold `warn`, of six records at trace..critical exactly the last three reach `sink_it_` |

## Left out

- Console and stderr sinks: they write to the standard streams, which is
  I/O. Their `sink_it_` does not use the sink's formatter. The transport
  is modelled only as the ghost history of records handed to `sink_it_`.
- The mutex and `null_mutex`: every operation is modelled as sequential.
  This includes the read of `level_` in `should_log`, which takes no lock.
- `localtime_r`/`localtime_s` and the time zone: they are foreign calls.
  The conversion from seconds to calendar fields is the function
  `localTime` given to the formatter.
- `format_time`, `std::put_time`, `get_timestamp_ms`, `get_thread_id` and
  `log_clock::now()`: they are clock, platform and I/O calls. The time and
  the thread id are inputs of the record's constructors.
- The `fmt` library: `fmt::format_to` is modelled by the zero-padded
  decimal functions. `fmt::memory_buffer` is a string passed in and
  returned.
- `get_time` gives `localTime` of the record's whole second. `to_time_t`
  and the conversion are not modelled further.
- The abstract `flag_formatter` class: each of its subclasses is one
  alternative of `Directive`. A flag formatter's `clone` is a copy of that
  value, so there is no separate member for it.
- The abstract `formatter` interface: its only implementation,
  `pattern_formatter`, is the class `PatternFormatter`. The sink's
  formatter, `BaseSink.SetFormatter` and `BaseSink.FormatMessage` accept
  only that class. Other `formatter` implementations are not modelled.
  Neither is a null `unique_ptr` passed to `set_formatter`, nor the
  transfer of ownership.
- The unused color-range fields of `log_msg`, and the mismatch between
  the names `finename` and `filename` in `source_loc`: the model has a
  single `filename` field and proves nothing about it.
- The `thread_id` field of `log_msg` is an unbounded natural, not a
  `size_t`. Its width plays no part in any rendering.
- The test `main` functions, timing output and threading tests: they are
  output and performance. Only the loops in the tests that call the core
  are modelled (`FormatEach`, `LogIfEnabled`).
- Logger names and payloads are `string_view_t`, which
  include/icplog/common.h defines as `std::string`. The model stores them
  as values of type `string`.
