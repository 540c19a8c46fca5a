/// `base_sink`: a sink's level threshold and its own formatter. Locking is
/// left out (every operation is sequential), and the subclass hooks
/// `sink_it_` and `flush_` are recorded as a ghost history: the records
/// handed to `sink_it_`, in order, and the number of `flush_` calls.
module Sinks {
  import opened Levels
  import opened LogMsgs
  import opened FlagFormatters
  import opened PatternCompiler
  import opened PatternFormatters

  class BaseSink {
    var level: Level
    var formatter: PatternFormatter
    /** The records passed to `sink_it_`, oldest first. */
    ghost var sunk: seq<LogMsg>
    /** The number of calls to `flush_`. */
    ghost var flushes: nat

    ghost predicate Valid()
      reads this, formatter
    {
      formatter.Valid()
    }

    /** `base_sink()`: threshold `trace` and a formatter with the default
        pattern; `localTime` is that formatter's calendar conversion. */
    constructor (localTime: int -> Tm)
      ensures Valid() && fresh(formatter)
      ensures level == Trace
      ensures formatter.pattern == DefaultPattern && formatter.formatters == Compile(DefaultPattern)
      ensures formatter.lastSecs == 0 && formatter.cachedTm == ZeroTm && !formatter.populated
      ensures sunk == [] && flushes == 0
    {
      level := Trace;
      formatter := new PatternFormatter(DefaultPattern, localTime);
      sunk := [];
      flushes := 0;
    }

    /** `log`: hand the record to `sink_it_` once, whatever its level; the
        threshold is not consulted here. */
    method Log(msg: LogMsg)
      modifies this`sunk
      ensures sunk == old(sunk) + [msg]
    {
      sunk := sunk + [msg];
    }

    /** `flush`: call `flush_` once. */
    method Flush()
      modifies this`flushes
      ensures flushes == old(flushes) + 1
    {
      flushes := flushes + 1;
    }

    /** `set_level`: replace the threshold; the formatter is kept. */
    method SetLevel(l: Level)
      modifies this`level
      ensures level == l
    {
      level := l;
    }

    /** `get_level`: the current threshold. */
    method GetLevel() returns (l: Level)
      ensures l == level
    {
      l := level;
    }

    /** `should_log`: whether a record of level `msgLevel` reaches the
        threshold; nothing changes. */
    method ShouldLog(msgLevel: Level) returns (b: bool)
      ensures b <==> Levels.ShouldLog(level, msgLevel)
      ensures b <==> msgLevel >= level
    {
      b := msgLevel >= level;
    }

    /** `set_formatter`: take ownership of a new formatter; the threshold is
        kept. */
    method SetFormatter(f: PatternFormatter)
      requires f.Valid()
      modifies this`formatter
      ensures formatter == f && Valid()
    {
      formatter := f;
    }

    /** `format_message`: format the record with the sink's own formatter,
        appending to `dest`; the formatter's cache changes as `format`
        changes it. */
    method FormatMessage(msg: LogMsg, dest: string) returns (out: string)
      requires Valid()
      modifies formatter`lastSecs, formatter`cachedTm, formatter`conversions, formatter`populated
      ensures Valid()
      ensures formatter.lastSecs == WholeSeconds(msg.time)
      ensures formatter.conversions == old(formatter.conversions) + if old(formatter.lastSecs) != formatter.lastSecs then 1 else 0
      ensures old(formatter.lastSecs) != formatter.lastSecs ==>
        formatter.populated && formatter.cachedTm == formatter.localTime(formatter.lastSecs)
      ensures old(formatter.lastSecs) == formatter.lastSecs ==>
        formatter.populated == old(formatter.populated) && formatter.cachedTm == old(formatter.cachedTm)
      ensures FieldsFor(formatter.localTime, formatter.lastSecs, formatter.cachedTm)
      ensures out == dest + RenderAll(formatter.formatters, msg, formatter.cachedTm) + "\n"
      ensures out == dest + Expand(formatter.pattern, msg, formatter.cachedTm) + "\n"
    {
      out := formatter.Format(msg, dest);
    }
  }

  /** The records of `msgs` whose level reaches `threshold`, in order. */
  function Admitted(threshold: Level, msgs: seq<LogMsg>): seq<LogMsg> {
    if msgs == [] then []
    else (if Levels.ShouldLog(threshold, msgs[0].lvl) then [msgs[0]] else []) + Admitted(threshold, msgs[1..])
  }

  /** The levels of a run of records. */
  function LevelsOf(msgs: seq<LogMsg>): (ls: seq<Level>)
    ensures |ls| == |msgs|
    ensures forall k :: 0 <= k < |msgs| ==> ls[k] == msgs[k].lvl
  {
    seq(|msgs|, k requires 0 <= k < |msgs| => msgs[k].lvl)
  }

  /** A caller's loop that asks `should_log` before each `log`: exactly the
      records at or above the threshold reach `sink_it_`, in order, and the
      threshold and formatter are untouched. */
  method LogIfEnabled(sink: BaseSink, msgs: seq<LogMsg>)
    modifies sink`sunk
    ensures sink.sunk == old(sink.sunk) + Admitted(sink.level, msgs)
  {
    for i := 0 to |msgs|
      invariant sink.sunk + Admitted(sink.level, msgs[i..]) == old(sink.sunk) + Admitted(sink.level, msgs)
    {
      assert msgs[i..][1..] == msgs[i + 1..];
      var should := sink.ShouldLog(msgs[i].lvl);
      if should {
        sink.Log(msgs[i]);
      }
    }
  }

  // ---------------------------------------------------------------------
  // Properties
  // ---------------------------------------------------------------------

  lemma LevelsOfAppend(a: seq<LogMsg>, b: seq<LogMsg>)
    ensures LevelsOf(a + b) == LevelsOf(a) + LevelsOf(b)
  {
  }

  /** Filtering records by level filters their levels the same way. */
  lemma {:induction false} AdmittedLevels(threshold: Level, msgs: seq<LogMsg>)
    ensures LevelsOf(Admitted(threshold, msgs)) == Passing(threshold, LevelsOf(msgs))
    decreases |msgs|
  {
    if msgs != [] {
      AdmittedLevels(threshold, msgs[1..]);
      assert LevelsOf(msgs)[1..] == LevelsOf(msgs[1..]);
      var head := if Levels.ShouldLog(threshold, msgs[0].lvl) then [msgs[0]] else [];
      LevelsOfAppend(head, Admitted(threshold, msgs[1..]));
    }
  }

  /** Every admitted record is one of the records given, and reaches the
      threshold; every record that reaches it is admitted. */
  lemma {:induction false} AdmittedMembers(threshold: Level, msgs: seq<LogMsg>)
    ensures forall m :: m in Admitted(threshold, msgs) <==> m in msgs && m.lvl >= threshold
    decreases |msgs|
  {
    if msgs != [] {
      AdmittedMembers(threshold, msgs[1..]);
      assert msgs == [msgs[0]] + msgs[1..];
    }
  }

  /** With threshold `warn`, of six records at the levels `trace` to
      `critical` exactly the last three are admitted. */
  lemma WarnAdmitsLastThree(msgs: seq<LogMsg>)
    requires LevelsOf(msgs) == [Trace, Debug, Info, Warn, Error, Critical]
    ensures LevelsOf(Admitted(Warn, msgs)) == [Warn, Error, Critical]
  {
    AdmittedLevels(Warn, msgs);
    WarnPassesThreeOfSix();
  }
}
