/// `pattern_formatter`: a pattern string, the directives compiled from it,
/// and a one-second cache of the calendar fields. The calendar conversion
/// (`localtime_r` in the local time zone) is a function given to the
/// constructor; the output buffer is a string passed in and returned.
module PatternFormatters {
  import opened LogMsgs
  import opened FlagFormatters
  import opened PatternCompiler
  import opened Decimal

  /** The pattern a default-constructed formatter uses. */
  const DefaultPattern: string := "[%Y-%m-%d %H:%M:%S] [%l] %v"

  /** `duration_cast<seconds>` of a tick count: the whole seconds, truncated
      toward zero (so toward the epoch for times before it). */
  function WholeSeconds(ticks: int): (s: int)
    ensures ticks >= 0 ==> 0 <= s && s * TicksPerSecond <= ticks < (s + 1) * TicksPerSecond
    ensures ticks < 0 ==> s <= 0 && (s - 1) * TicksPerSecond < ticks <= s * TicksPerSecond
  {
    if ticks >= 0 then ticks / TicksPerSecond else -((-ticks) / TicksPerSecond)
  }

  /** The calendar fields the cache may hold for second `s`: its
      conversion, or the zeroed initial fields when `s` is 0 and no
      conversion has been made yet. */
  predicate FieldsFor(localTime: int -> Tm, s: int, tm: Tm) {
    tm == localTime(s) || (s == 0 && tm == ZeroTm)
  }

  /** The tick counts `to_time_t` maps to second `s`: a second after the
      epoch covers its own billion ticks, one before it the billion ticks
      up to it, and second 0 both sides of the epoch. */
  predicate InSecond(ticks: int, s: int) {
    || (s >= 0 && s * TicksPerSecond <= ticks < (s + 1) * TicksPerSecond)
    || (s <= 0 && (s - 1) * TicksPerSecond < ticks <= s * TicksPerSecond)
  }

  /** The loop of `format` over the flag formatters: each appends its
      rendering of the record to `dest`, in order. */
  method AppendRenderings(ds: seq<Directive>, msg: LogMsg, tm: Tm, dest: string) returns (out: string)
    ensures out == dest + RenderAll(ds, msg, tm)
  {
    out := dest;
    for i := 0 to |ds|
      invariant out == dest + RenderAll(ds[..i], msg, tm)
    {
      RenderAllAppend(ds[..i], [ds[i]], msg, tm);
      assert ds[..i + 1] == ds[..i] + [ds[i]];
      out := out + Render(ds[i], msg, tm);
    }
    assert ds[..|ds|] == ds;
  }

  class PatternFormatter {
    var pattern: string
    var formatters: seq<Directive>
    var lastSecs: int
    var cachedTm: Tm
    /** The calendar conversion of a whole-second count. */
    const localTime: int -> Tm
    /** How many calendar conversions `Format` has made. */
    ghost var conversions: nat
    /** Whether a conversion has filled the cache since construction. */
    ghost var populated: bool

    /** The directives are those of the pattern, and the cache holds either
        the conversion of `lastSecs` or, before the first conversion, the
        zero initial state. */
    ghost predicate Valid()
      reads this
    {
      && formatters == Compile(pattern)
      && (populated ==> cachedTm == localTime(lastSecs))
      && (!populated ==> lastSecs == 0 && cachedTm == ZeroTm)
    }

    /** `pattern_formatter(pattern)`: store the pattern and compile it, with
        the cache at second 0 and zeroed calendar fields. */
    constructor (pattern: string, localTime: int -> Tm)
      ensures Valid()
      ensures this.pattern == pattern && this.localTime == localTime
      ensures formatters == Compile(pattern)
      ensures lastSecs == 0 && cachedTm == ZeroTm && !populated && conversions == 0
    {
      this.pattern := pattern;
      this.localTime := localTime;
      formatters := [];
      lastSecs := 0;
      cachedTm := ZeroTm;
      conversions := 0;
      populated := false;
      new;
      CompilePattern();
    }

    /** `compile_pattern`: scan the pattern once, appending a directive per
        recognised tag and a literal per maximal run of text between `%`s. */
    method CompilePattern()
      modifies this`formatters
      ensures formatters == old(formatters) + Compile(pattern)
    {
      var p := pattern;
      ghost var target := formatters + Compile(p);
      var i := 0;
      var userChars: string := [];
      while i < |p|
        invariant 0 <= i <= |p|
        invariant formatters + CompileFrom(p[i..], userChars) == target
      {
        if p[i] == '%' {
          PercentStep(p, i, userChars);
          ghost var flushed := formatters + Flush(userChars);
          if userChars != [] {
            formatters := formatters + [Literal(userChars)];
            userChars := [];
          }
          assert formatters == flushed && userChars == [];
          i := i + 1;
          if i < |p| {
            var flag := p[i];
            i := i + 1;
            assert userChars + "%" == EscapeText('%') && userChars + ['%', flag] == ['%', flag];
            // The switch on the flag character: `TagDirective` is its table.
            match TagDirective(flag)
            case Some(d) => formatters := formatters + [d];
            case None =>
              if flag == '%' {
                userChars := userChars + "%";
              } else {
                userChars := userChars + ['%', flag];
              }
          }
        } else {
          assert p[i..][1..] == p[i + 1..];
          userChars := userChars + [p[i]];
          i := i + 1;
        }
      }
      assert formatters + Flush(userChars) == target;
      if userChars != [] {
        formatters := formatters + [Literal(userChars)];
      }
    }

    /** `get_time`: the calendar fields of the record's whole second. */
    function GetTime(msg: LogMsg): Tm
      reads this
    {
      localTime(WholeSeconds(msg.time))
    }

    /** `format`: refresh the cache when the record's second differs from
        the cached one, then append every directive's rendering, in order,
        and one newline to `dest`. */
    method Format(msg: LogMsg, dest: string) returns (out: string)
      requires Valid()
      modifies this`lastSecs, this`cachedTm, this`conversions, this`populated
      ensures Valid()
      ensures lastSecs == WholeSeconds(msg.time)
      ensures conversions == old(conversions) + if old(lastSecs) != lastSecs then 1 else 0
      ensures old(lastSecs) != lastSecs ==> populated && cachedTm == localTime(lastSecs)
      ensures old(lastSecs) == lastSecs ==> populated == old(populated) && cachedTm == old(cachedTm)
      ensures FieldsFor(localTime, lastSecs, cachedTm)
      ensures out == dest + RenderAll(formatters, msg, cachedTm) + "\n"
      ensures out == dest + Expand(pattern, msg, cachedTm) + "\n"
    {
      var secs := WholeSeconds(msg.time);
      if secs != lastSecs {
        cachedTm := GetTime(msg);
        lastSecs := secs;
        conversions := conversions + 1;
        populated := true;
      }
      out := AppendRenderings(formatters, msg, cachedTm, dest);
      out := out + "\n";
      CompileRenders(pattern, msg, cachedTm);
    }

    /** `clone`: a new formatter built from the same pattern, so with the
        same directives and a fresh cache. */
    method Clone() returns (c: PatternFormatter)
      requires Valid()
      ensures fresh(c) && c.Valid()
      ensures c.pattern == pattern && c.formatters == formatters && c.localTime == localTime
      ensures c.lastSecs == 0 && c.cachedTm == ZeroTm && !c.populated && c.conversions == 0
    {
      c := new PatternFormatter(pattern, localTime);
    }

    /** `set_pattern`: replace the pattern, clear the directives and compile
        the new pattern; the cache is kept. */
    method SetPattern(p: string)
      requires Valid()
      modifies this`pattern, this`formatters
      ensures Valid()
      ensures pattern == p && formatters == Compile(p)
    {
      pattern := p;
      formatters := [];
      CompilePattern();
    }
  }

  /** `get_time` converts the whole second `to_time_t` gives: every record
      whose time falls in second `s` gets the calendar fields of `s`. */
  lemma GetTimeOfSecond(f: PatternFormatter, msg: LogMsg, s: int)
    requires InSecond(msg.time, s)
    ensures f.GetTime(msg) == f.localTime(s)
  {
  }

  // ---------------------------------------------------------------------
  // The time cache over a run of records
  // ---------------------------------------------------------------------

  /** The number of calendar conversions a run of `format` calls makes on
      records with the whole-second counts `secs`, starting from a cache
      that holds second `last`: one for every record whose second differs
      from the one before it. */
  function Conversions(last: int, secs: seq<int>): nat
    decreases |secs|
  {
    if secs == [] then 0
    else (if secs[0] != last then 1 else 0) + Conversions(secs[0], secs[1..])
  }

  /** One `format` call advances the count of a run by one record. */
  lemma ConversionsAdvance(conv: int, last: int, secs: seq<int>, i: nat, conv': int)
    requires i < |secs|
    requires conv' == conv + if last != secs[i] then 1 else 0
    ensures conv + Conversions(last, secs[i..]) == conv' + Conversions(secs[i], secs[i + 1..])
  {
    assert secs[i..][1..] == secs[i + 1..];
  }

  /** The whole-second counts of a run of records. */
  function SecondsOf(msgs: seq<LogMsg>): (secs: seq<int>)
    ensures |secs| == |msgs|
    ensures forall k :: 0 <= k < |msgs| ==> secs[k] == WholeSeconds(msgs[k].time)
  {
    seq(|msgs|, k requires 0 <= k < |msgs| => WholeSeconds(msgs[k].time))
  }

  /** Records that all fall in one second cost at most one conversion, and
      none when the cache already holds that second. */
  lemma {:induction false} SameSecondRun(last: int, secs: seq<int>, s: int)
    requires forall k :: 0 <= k < |secs| ==> secs[k] == s
    ensures Conversions(last, secs) <= 1
    ensures Conversions(last, secs) == (if secs != [] && s != last then 1 else 0)
    decreases |secs|
  {
    if secs != [] {
      SameSecondRun(s, secs[1..], s);
    }
  }

  /** A conversion is made for each change of second and only then: the
      count never exceeds the number of records, and equals it when every
      record moves to a new second. */
  lemma {:induction false} ConversionsBounds(last: int, secs: seq<int>)
    ensures Conversions(last, secs) <= |secs|
    ensures (forall k :: 0 < k < |secs| ==> secs[k] != secs[k - 1]) && (secs != [] ==> secs[0] != last)
      ==> Conversions(last, secs) == |secs|
    decreases |secs|
  {
    if secs != [] {
      ConversionsBounds(secs[0], secs[1..]);
      if forall k :: 0 < k < |secs| ==> secs[k] != secs[k - 1] {
        forall k | 0 < k < |secs[1..]| ensures secs[1..][k] != secs[1..][k - 1] {
          assert secs[k + 1] != secs[k];
        }
      }
    }
  }

  /** `out` is what `format` wrote for `msg` into an empty buffer when its
      cache held `tm`: the pattern's rendering and a newline, from the
      calendar fields of the record's own second (or the zeroed fields for
      second 0 before any conversion). */
  ghost predicate FormattedFrom(localTime: int -> Tm, pattern: string, msg: LogMsg, tm: Tm, out: string) {
    && out == Expand(pattern, msg, tm) + "\n"
    && FieldsFor(localTime, WholeSeconds(msg.time), tm)
  }

  /** Every output of a run was formatted from its own record. */
  ghost predicate AllFormattedFrom(localTime: int -> Tm, pattern: string, msgs: seq<LogMsg>, tms: seq<Tm>, outs: seq<string>) {
    && |tms| == |msgs| && |outs| == |msgs|
    && forall k :: 0 <= k < |msgs| ==> FormattedFrom(localTime, pattern, msgs[k], tms[k], outs[k])
  }

  lemma FormattedStep(localTime: int -> Tm, pattern: string, msg: LogMsg, tm: Tm, out: string, secs: int)
    requires out == [] + Expand(pattern, msg, tm) + "\n"
    requires secs == WholeSeconds(msg.time) && FieldsFor(localTime, secs, tm)
    ensures FormattedFrom(localTime, pattern, msg, tm, out)
  {
    assert [] + Expand(pattern, msg, tm) == Expand(pattern, msg, tm);
  }

  lemma AllFormattedFromSnoc(localTime: int -> Tm, pattern: string, msgs: seq<LogMsg>, tms: seq<Tm>, outs: seq<string>,
                             msg: LogMsg, tm: Tm, out: string)
    requires AllFormattedFrom(localTime, pattern, msgs, tms, outs)
    requires FormattedFrom(localTime, pattern, msg, tm, out)
    ensures AllFormattedFrom(localTime, pattern, msgs + [msg], tms + [tm], outs + [out])
  {
  }

  /** A sequence of `format` calls on one formatter, each into a new
      buffer, as a caller's loop makes them: each output is the record's
      rendering of the pattern from its own second's calendar fields, and
      the calendar conversions made are those counted by `Conversions`. */
  method FormatEach(f: PatternFormatter, msgs: seq<LogMsg>) returns (outs: seq<string>, ghost tms: seq<Tm>)
    requires f.Valid()
    modifies f`lastSecs, f`cachedTm, f`conversions, f`populated
    ensures f.Valid()
    ensures |outs| == |msgs| && |tms| == |msgs|
    ensures msgs != [] ==> f.lastSecs == WholeSeconds(msgs[|msgs| - 1].time)
    ensures f.conversions == old(f.conversions) + Conversions(old(f.lastSecs), SecondsOf(msgs))
    ensures AllFormattedFrom(f.localTime, f.pattern, msgs, tms, outs)
  {
    outs, tms := [], [];
    ghost var secs := SecondsOf(msgs);
    ghost var pattern, localTime, last0, conv0 := f.pattern, f.localTime, f.lastSecs, f.conversions;
    for i := 0 to |msgs|
      invariant f.Valid()
      invariant |outs| == i && |tms| == i
      invariant f.lastSecs == if i == 0 then last0 else secs[i - 1]
      invariant f.conversions + Conversions(f.lastSecs, secs[i..]) == conv0 + Conversions(last0, secs)
      invariant AllFormattedFrom(localTime, pattern, msgs[..i], tms, outs)
    {
      ghost var conv, last := f.conversions, f.lastSecs;
      var out := f.Format(msgs[i], []);
      ghost var tm := f.cachedTm;
      ConversionsAdvance(conv, last, secs, i, f.conversions);
      FormattedStep(f.localTime, f.pattern, msgs[i], tm, out, f.lastSecs);
      AllFormattedFromSnoc(localTime, pattern, msgs[..i], tms, outs, msgs[i], tm, out);
      assert msgs[..i + 1] == msgs[..i] + [msgs[i]];
      outs, tms := outs + [out], tms + [tm];
    }
    assert msgs[..|msgs|] == msgs;
  }

  // ---------------------------------------------------------------------
  // Properties of the default pattern and the initial cache
  // ---------------------------------------------------------------------

  /** A pattern of eight non-empty text runs, each followed by one of the
      tags of the default pattern, compiles to those runs and directives in
      alternation. */
  lemma DefaultShapeCompiles(a: string, b: string, c: string, d: string, e: string, f: string, g: string, h: string)
    requires a != [] && b != [] && c != [] && d != [] && e != [] && f != [] && g != [] && h != []
    requires NoPercent(a) && NoPercent(b) && NoPercent(c) && NoPercent(d)
    requires NoPercent(e) && NoPercent(f) && NoPercent(g) && NoPercent(h)
    ensures Compile(a + "%Y" + (b + "%m" + (c + "%d" + (d + "%H" + (e + "%M" + (f + "%S" + (g + "%l" + (h + "%v"))))))))
      == [Literal(a), Year, Literal(b), Month, Literal(c), Day, Literal(d), Hour,
          Literal(e), Minute, Literal(f), Second, Literal(g), LevelShort, Literal(h), Payload]
  {
    var r8 := h + "%v";
    assert Compile([]) == [];
    TextThenTag(h, 'v', [], []);
    assert r8 == h + ['%', 'v'] + [];
    var d8 := [Literal(h), Payload];
    var r7 := g + "%l" + r8;
    TextThenTag(g, 'l', r8, d8);
    var d7 := [Literal(g), LevelShort] + d8;
    var r6 := f + "%S" + r7;
    TextThenTag(f, 'S', r7, d7);
    var d6 := [Literal(f), Second] + d7;
    var r5 := e + "%M" + r6;
    TextThenTag(e, 'M', r6, d6);
    var d5 := [Literal(e), Minute] + d6;
    var r4 := d + "%H" + r5;
    TextThenTag(d, 'H', r5, d5);
    var d4 := [Literal(d), Hour] + d5;
    var r3 := c + "%d" + r4;
    TextThenTag(c, 'd', r4, d4);
    var d3 := [Literal(c), Day] + d4;
    var r2 := b + "%m" + r3;
    TextThenTag(b, 'm', r3, d3);
    var d2 := [Literal(b), Month] + d3;
    TextThenTag(a, 'Y', r2, d2);
  }

  /** The default pattern is eight text runs, each followed by a tag. */
  lemma DefaultPatternParts()
    ensures DefaultPattern == "[" + "%Y" + ("-" + "%m" + ("-" + "%d" + (" " + "%H" + (":" + "%M" + (":" + "%S" + ("] [" + "%l" + ("] " + "%v")))))))
  {
  }

  /** The default pattern compiles to its sixteen directives. */
  lemma DefaultPatternCompiles()
    ensures Compile(DefaultPattern) == [
      Literal("["), Year, Literal("-"), Month, Literal("-"), Day, Literal(" "),
      Hour, Literal(":"), Minute, Literal(":"), Second, Literal("] ["), LevelShort,
      Literal("] "), Payload]
  {
    DefaultPatternParts();
    DefaultShapeCompiles("[", "-", "-", " ", ":", ":", "] [", "] ");
  }

  /** Until the first conversion the cache holds zeroed fields, which read
      as year 1900, month 01 and day 00. */
  lemma ZeroTmDate(msg: LogMsg)
    ensures Expand("%Y" + ("-" + ("%m" + ("-" + "%d"))), msg, ZeroTm) == "1900-01-00"
  {
    ExpandTag('d', [], msg, ZeroTm);
    assert "%d" == ['%', 'd'] + [];
    ExpandChar('-', "%d", msg, ZeroTm);
    ExpandTag('m', "-" + "%d", msg, ZeroTm);
    ExpandChar('-', "%m" + ("-" + "%d"), msg, ZeroTm);
    ExpandTag('Y', "-" + ("%m" + ("-" + "%d")), msg, ZeroTm);
    ZeroTmFields(msg);
  }

  lemma ZeroTmFields(msg: LogMsg)
    ensures Render(Year, msg, ZeroTm) == "1900"
    ensures Render(Month, msg, ZeroTm) == "01"
    ensures Render(Day, msg, ZeroTm) == "00"
  {
    ZeroPaddedYears();
    ZeroPaddedSmall();
  }

  /** A new formatter for the pattern "%Y-%m-%d", given a record from the
      epoch's own second (second 0), makes no conversion and renders the
      date from the zeroed fields. */
  method FormatAtEpochSecond(localTime: int -> Tm, msg: LogMsg) returns (out: string)
    requires WholeSeconds(msg.time) == 0
    ensures out == "1900-01-00\n"
  {
    var f := new PatternFormatter("%Y" + ("-" + ("%m" + ("-" + "%d"))), localTime);
    out := f.Format(msg, []);
    ZeroTmDate(msg);
  }
}
