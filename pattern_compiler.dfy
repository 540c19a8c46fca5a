/// What `pattern_formatter::compile_pattern` produces from a pattern string,
/// stated as a function, and what the pattern language means, stated
/// character by character; the lemmas relate the two.
module PatternCompiler {
  import opened Optional
  import opened LogMsgs
  import opened FlagFormatters

  /** The directive a recognised tag character selects. */
  function TagDirective(c: char): Option<Directive> {
    match c
    case 'Y' => Some(Year)
    case 'm' => Some(Month)
    case 'd' => Some(Day)
    case 'H' => Some(Hour)
    case 'M' => Some(Minute)
    case 'S' => Some(Second)
    case 'l' => Some(LevelShort)
    case 'L' => Some(LevelFull)
    case 'n' => Some(Name)
    case 'v' => Some(Payload)
    case 't' => Some(ThreadId)
    case _ => None
  }

  /** The literal text an unrecognised tag leaves: one `%` for `%%`, the two
      characters verbatim otherwise. */
  function EscapeText(c: char): string {
    if c == '%' then "%" else ['%', c]
  }

  /** Emitting the pending literal text: nothing when there is none. */
  function Flush(acc: string): seq<Directive> {
    if acc == [] then [] else [Literal(acc)]
  }

  /** The directives `compile_pattern` emits for the rest `p` of the
      pattern when `acc` is the literal text gathered so far. */
  function CompileFrom(p: string, acc: string): seq<Directive>
    decreases |p|
  {
    if p == [] then Flush(acc)
    else if p[0] != '%' then CompileFrom(p[1..], acc + [p[0]])
    else if |p| == 1 then Flush(acc)
    else match TagDirective(p[1])
      case Some(d) => Flush(acc) + [d] + CompileFrom(p[2..], [])
      case None => Flush(acc) + CompileFrom(p[2..], EscapeText(p[1]))
  }

  /** The directives compiled from a whole pattern. */
  function Compile(p: string): seq<Directive> {
    CompileFrom(p, [])
  }

  /** The meaning of a pattern, read directly from its directive table:
      ordinary characters stand for themselves, a recognised `%` tag for its
      field, `%%` for `%`, any other `%c` for itself, and a lone `%` at the
      end for nothing. */
  function Expand(p: string, msg: LogMsg, tm: Tm): string
    decreases |p|
  {
    if p == [] then []
    else if p[0] != '%' then [p[0]] + Expand(p[1..], msg, tm)
    else if |p| == 1 then []
    else match TagDirective(p[1])
      case Some(d) => Render(d, msg, tm) + Expand(p[2..], msg, tm)
      case None => EscapeText(p[1]) + Expand(p[2..], msg, tm)
  }

  predicate NoPercent(t: string) {
    forall i :: 0 <= i < |t| ==> t[i] != '%'
  }

  /** No directive is an empty literal. */
  predicate NoEmptyLiteral(ds: seq<Directive>) {
    forall i :: 0 <= i < |ds| ==> ds[i] != Literal([])
  }

  // ---------------------------------------------------------------------
  // Properties
  // ---------------------------------------------------------------------

  lemma RenderFlush(acc: string, msg: LogMsg, tm: Tm)
    ensures RenderAll(Flush(acc), msg, tm) == acc
  {
  }

  /** `CompileFrom` and `Expand` at a recognised tag. */
  lemma TagUnfold(p: string, acc: string, d: Directive, msg: LogMsg, tm: Tm)
    requires |p| >= 2 && p[0] == '%' && TagDirective(p[1]) == Some(d)
    ensures CompileFrom(p, acc) == Flush(acc) + [d] + CompileFrom(p[2..], [])
    ensures Expand(p, msg, tm) == RenderAll([d], msg, tm) + Expand(p[2..], msg, tm)
  {
    assert [d][1..] == [];
  }

  /** One step of `CompileFromRenders` for a recognised tag. */
  lemma RendersTagStep(p: string, acc: string, d: Directive, msg: LogMsg, tm: Tm)
    requires |p| >= 2 && p[0] == '%' && TagDirective(p[1]) == Some(d)
    requires RenderAll(CompileFrom(p[2..], []), msg, tm) == Expand(p[2..], msg, tm)
    ensures RenderAll(CompileFrom(p, acc), msg, tm) == acc + Expand(p, msg, tm)
  {
    TagUnfold(p, acc, d, msg, tm);
    var tail := CompileFrom(p[2..], []);
    RenderFlush(acc, msg, tm);
    RenderAllAppend(Flush(acc), [d], msg, tm);
    RenderAllAppend(Flush(acc) + [d], tail, msg, tm);
    var x := RenderAll([d], msg, tm);
    assert acc + x + Expand(p[2..], msg, tm) == acc + (x + Expand(p[2..], msg, tm));
  }

  /** One step of `CompileFromRenders` for `%%` or an unknown tag. */
  lemma RendersEscapeStep(p: string, acc: string, msg: LogMsg, tm: Tm)
    requires |p| >= 2 && p[0] == '%' && TagDirective(p[1]) == None
    requires RenderAll(CompileFrom(p[2..], EscapeText(p[1])), msg, tm) == EscapeText(p[1]) + Expand(p[2..], msg, tm)
    ensures RenderAll(CompileFrom(p, acc), msg, tm) == acc + Expand(p, msg, tm)
  {
    var tail := CompileFrom(p[2..], EscapeText(p[1]));
    assert CompileFrom(p, acc) == Flush(acc) + tail;
    assert Expand(p, msg, tm) == EscapeText(p[1]) + Expand(p[2..], msg, tm);
    RenderFlush(acc, msg, tm);
    RenderAllAppend(Flush(acc), tail, msg, tm);
  }

  /** The pending literal text is rendered first, then the rest of the
      pattern with its meaning. */
  lemma {:induction false} CompileFromRenders(p: string, acc: string, msg: LogMsg, tm: Tm)
    ensures RenderAll(CompileFrom(p, acc), msg, tm) == acc + Expand(p, msg, tm)
    decreases |p|
  {
    if p == [] {
      RenderFlush(acc, msg, tm);
    } else if p[0] != '%' {
      CompileFromRenders(p[1..], acc + [p[0]], msg, tm);
      assert Expand(p, msg, tm) == [p[0]] + Expand(p[1..], msg, tm);
      assert acc + [p[0]] + Expand(p[1..], msg, tm) == acc + ([p[0]] + Expand(p[1..], msg, tm));
    } else if |p| == 1 {
      RenderFlush(acc, msg, tm);
    } else if TagDirective(p[1]).Some? {
      CompileFromRenders(p[2..], [], msg, tm);
      RendersTagStep(p, acc, TagDirective(p[1]).value, msg, tm);
    } else {
      CompileFromRenders(p[2..], EscapeText(p[1]), msg, tm);
      RendersEscapeStep(p, acc, msg, tm);
    }
  }

  /** Rendering the compiled directives of any pattern, in order, gives
      exactly the pattern's meaning: compilation keeps source order and
      loses or adds no text. */
  lemma CompileRenders(p: string, msg: LogMsg, tm: Tm)
    ensures RenderAll(Compile(p), msg, tm) == Expand(p, msg, tm)
  {
    CompileFromRenders(p, [], msg, tm);
  }

  /** A pending literal is flushed only when non-empty, so no empty literal
      is ever emitted. */
  lemma {:induction false} CompileFromNoEmptyLiteral(p: string, acc: string)
    ensures NoEmptyLiteral(CompileFrom(p, acc))
    decreases |p|
  {
    if p == [] {
    } else if p[0] != '%' {
      CompileFromNoEmptyLiteral(p[1..], acc + [p[0]]);
    } else if |p| == 1 {
    } else {
      match TagDirective(p[1])
      case Some(d) =>
        CompileFromNoEmptyLiteral(p[2..], []);
        assert d != Literal([]);
      case None =>
        CompileFromNoEmptyLiteral(p[2..], EscapeText(p[1]));
    }
  }

  lemma CompileNoEmptyLiteral(p: string)
    ensures NoEmptyLiteral(Compile(p))
  {
    CompileFromNoEmptyLiteral(p, []);
  }

  /** Ordinary characters accumulate into the current literal run. */
  lemma {:induction false} LiteralRun(t: string, p: string, acc: string)
    requires NoPercent(t)
    ensures CompileFrom(t + p, acc) == CompileFrom(p, acc + t)
    decreases |t|
  {
    if t != [] {
      assert (t + p)[0] == t[0];
      assert (t + p)[1..] == t[1..] + p;
      assert acc + [t[0]] + t[1..] == acc + t;
      LiteralRun(t[1..], p, acc + [t[0]]);
    } else {
      assert t + p == p;
      assert acc + t == acc;
    }
  }

  /** At a `%` the pending literal is flushed before anything else. */
  lemma FlushAtPercent(p: string, acc: string)
    requires p != [] && p[0] == '%'
    ensures CompileFrom(p, acc) == Flush(acc) + Compile(p)
  {
  }

  /** A run of text without `%` that is followed by the end or by a `%`
      becomes exactly one literal, emitted before what follows. */
  lemma CompileSplit(t: string, p: string)
    requires NoPercent(t)
    requires p == [] || p[0] == '%'
    ensures Compile(t + p) == Flush(t) + Compile(p)
  {
    LiteralRun(t, p, []);
    assert [] + t == t;
    if p != [] {
      FlushAtPercent(p, t);
    }
  }

  /** A recognised tag becomes its one directive; `%%` adds a single `%`
      and any other tag `c` the two characters `%c` to a fresh literal run. */
  lemma CompileTag(c: char, rest: string)
    ensures TagDirective(c).Some? ==> Compile(['%', c] + rest) == [TagDirective(c).value] + Compile(rest)
    ensures TagDirective(c).None? ==> Compile(['%', c] + rest) == CompileFrom(rest, EscapeText(c))
    ensures c == '%' ==> Compile(['%', c] + rest) == CompileFrom(rest, "%")
    ensures TagDirective(c).None? && c != '%' ==> Compile(['%', c] + rest) == CompileFrom(rest, ['%', c])
  {
    var p := ['%', c] + rest;
    assert p[0] == '%' && p[1] == c && p[2..] == rest;
  }

  /** A `%` at index `i` of `p` in the middle of a scan with pending text
      `acc`: the text is emitted, then what the tag after the `%` yields. */
  lemma PercentStep(p: string, i: nat, acc: string)
    requires i < |p| && p[i] == '%'
    ensures i + 1 == |p| ==> CompileFrom(p[i..], acc) == Flush(acc)
    ensures i + 1 < |p| && TagDirective(p[i + 1]).Some? ==>
      CompileFrom(p[i..], acc) == Flush(acc) + [TagDirective(p[i + 1]).value] + CompileFrom(p[i + 2..], [])
    ensures i + 1 < |p| && TagDirective(p[i + 1]).None? ==>
      CompileFrom(p[i..], acc) == Flush(acc) + CompileFrom(p[i + 2..], EscapeText(p[i + 1]))
  {
    assert p[i..][1..] == p[i + 1..];
    if i + 1 < |p| {
      assert p[i..][2..] == p[i + 2..];
    }
  }

  /** A `%` at the very end yields neither a directive nor text. */
  lemma TrailingPercentDropped(t: string, msg: LogMsg, tm: Tm)
    requires NoPercent(t)
    ensures Compile(t + "%") == Compile(t)
    ensures Expand(t + "%", msg, tm) == t
  {
    CompileSplit(t, "%");
    CompileSplit(t, []);
    assert t + [] == t;
    CompileRenders(t + "%", msg, tm);
    RenderAllAppend(Flush(t), [], msg, tm);
  }

  /** One step of `Expand` on an ordinary character. */
  lemma ExpandChar(x: char, rest: string, msg: LogMsg, tm: Tm)
    requires x != '%'
    ensures Expand([x] + rest, msg, tm) == [x] + Expand(rest, msg, tm)
  {
    assert ([x] + rest)[1..] == rest;
  }

  /** One step of `Expand` on a recognised tag. */
  lemma ExpandTag(c: char, rest: string, msg: LogMsg, tm: Tm)
    requires TagDirective(c).Some?
    ensures Expand(['%', c] + rest, msg, tm) == Render(TagDirective(c).value, msg, tm) + Expand(rest, msg, tm)
  {
    assert (['%', c] + rest)[2..] == rest;
  }

  /** Text without `%`, then a recognised tag, then `rest`: a literal and
      the tag's directive come before whatever `rest` compiles to. */
  lemma TextThenTag(t: string, c: char, rest: string, ds: seq<Directive>)
    requires t != [] && NoPercent(t) && TagDirective(c).Some?
    requires Compile(rest) == ds
    ensures Compile(t + ['%', c] + rest) == [Literal(t), TagDirective(c).value] + ds
  {
    assert t + ['%', c] + rest == t + (['%', c] + rest);
    CompileSplit(t, ['%', c] + rest);
    CompileTag(c, rest);
  }

  /** Text, then `%%` or an unknown tag, then more text and a recognised
      tag: the escape is flushed like any `%`, so the text before it and the
      text from it onwards are two literals. */
  lemma TextEscapeTextTag(t: string, c: char, u: string, e: char)
    requires t != [] && NoPercent(t) && NoPercent(u)
    requires TagDirective(c).None? && TagDirective(e).Some?
    ensures Compile(t + (['%', c] + (u + ['%', e])))
      == [Literal(t), Literal(EscapeText(c) + u), TagDirective(e).value]
  {
    var tail := u + ['%', e];
    CompileSplit(t, ['%', c] + tail);
    CompileTag(c, tail);
    LiteralRun(u, ['%', e], EscapeText(c));
    FlushAtPercent(['%', e], EscapeText(c) + u);
    CompileTag(e, []);
    assert ['%', e] + [] == ['%', e];
    assert Compile([]) == [];
  }

  /** ... and its meaning is the two texts with the escape's text between
      them, then the tag's field. */
  lemma ExpandTextEscapeTextTag(t: string, c: char, u: string, e: char, msg: LogMsg, tm: Tm)
    requires t != [] && NoPercent(t) && NoPercent(u)
    requires TagDirective(c).None? && TagDirective(e).Some?
    ensures Expand(t + (['%', c] + (u + ['%', e])), msg, tm)
      == t + EscapeText(c) + u + Render(TagDirective(e).value, msg, tm)
  {
    var p := t + (['%', c] + (u + ['%', e]));
    var x, d := EscapeText(c) + u, TagDirective(e).value;
    TextEscapeTextTag(t, c, u, e);
    CompileRenders(p, msg, tm);
    RenderTwoLiteralsThen(t, x, [d], msg, tm);
    RenderSingle(d, msg, tm);
  }

  lemma RenderSingle(d: Directive, msg: LogMsg, tm: Tm)
    ensures RenderAll([d], msg, tm) == Render(d, msg, tm)
  {
    assert [d][1..] == [];
  }

  lemma RenderTwoLiteralsThen(a: string, b: string, ds: seq<Directive>, msg: LogMsg, tm: Tm)
    ensures RenderAll([Literal(a), Literal(b)] + ds, msg, tm) == a + b + RenderAll(ds, msg, tm)
  {
    var all := [Literal(a), Literal(b)] + ds;
    assert all[0] == Literal(a) && all[1..] == [Literal(b)] + ds;
    assert all[1..][0] == Literal(b) && all[1..][1..] == ds;
  }

  /** The escape example "Progress: 50%% - %v": "%%" stands for one `%`.
      Since a pending literal is flushed at every `%`, the text before the
      escape and the text after it are two literals. */
  lemma EscapeExample(msg: LogMsg, tm: Tm)
    ensures Compile("Progress: 50" + ("%%" + (" - " + "%v")))
      == [Literal("Progress: 50"), Literal("% - "), Payload]
    ensures Expand("Progress: 50" + ("%%" + (" - " + "%v")), msg, tm) == "Progress: 50% - " + msg.payload
  {
    TextEscapeTextTag("Progress: 50", '%', " - ", 'v');
    ExpandTextEscapeTextTag("Progress: 50", '%', " - ", 'v', msg, tm);
    assert EscapeText('%') + " - " == "% - ";
  }

  /** Ordinary text stands for itself. */
  lemma {:induction false} ExpandText(t: string, rest: string, msg: LogMsg, tm: Tm)
    requires NoPercent(t)
    ensures Expand(t + rest, msg, tm) == t + Expand(rest, msg, tm)
    decreases |t|
  {
    if t == [] {
      assert t + rest == rest;
    } else {
      assert (t + rest)[1..] == t[1..] + rest;
      ExpandText(t[1..], rest, msg, tm);
      assert t == [t[0]] + t[1..];
    }
  }

  /** Text, then a recognised tag: the text, then the tag's field. */
  lemma TextTagExpand(t: string, c: char, rest: string, msg: LogMsg, tm: Tm)
    requires NoPercent(t) && TagDirective(c).Some?
    ensures Expand(t + ['%', c] + rest, msg, tm) == t + (Render(TagDirective(c).value, msg, tm) + Expand(rest, msg, tm))
  {
    assert t + ['%', c] + rest == t + (['%', c] + rest);
    ExpandText(t, ['%', c] + rest, msg, tm);
    ExpandTag(c, rest, msg, tm);
  }

  /** Three text runs, each followed by one of the date tags `%Y`, `%m` and
      `%d`, ahead of `rest`: a literal and the tag's directive per run. */
  lemma DateThenRestCompiles(a: string, b: string, c: string, rest: string, ds: seq<Directive>)
    requires a != [] && b != [] && c != [] && NoPercent(a) && NoPercent(b) && NoPercent(c)
    requires Compile(rest) == ds
    ensures Compile(a + "%Y" + (b + "%m" + (c + "%d" + rest)))
      == [Literal(a), Year, Literal(b), Month, Literal(c), Day] + ds
  {
    var r3 := c + "%d" + rest;
    TextThenTag(c, 'd', rest, ds);
    var d3 := [Literal(c), Day] + ds;
    var r2 := b + "%m" + r3;
    TextThenTag(b, 'm', r3, d3);
    var d2 := [Literal(b), Month] + d3;
    TextThenTag(a, 'Y', r2, d2);
    assert [Literal(a), Year] + d2 == [Literal(a), Year, Literal(b), Month, Literal(c), Day] + ds;
  }

  /** ... and their meaning: the texts with the year, month and day between
      them, then the meaning of `rest`. */
  lemma DateThenRestExpands(a: string, b: string, c: string, rest: string, msg: LogMsg, tm: Tm)
    requires NoPercent(a) && NoPercent(b) && NoPercent(c)
    ensures Expand(a + "%Y" + (b + "%m" + (c + "%d" + rest)), msg, tm)
      == a + (Render(Year, msg, tm) + (b + (Render(Month, msg, tm) + (c + (Render(Day, msg, tm) + Expand(rest, msg, tm))))))
  {
    var r3 := c + "%d" + rest;
    TextTagExpand(c, 'd', rest, msg, tm);
    var r2 := b + "%m" + r3;
    TextTagExpand(b, 'm', r3, msg, tm);
    TextTagExpand(a, 'Y', r2, msg, tm);
  }

  /** The unknown-placeholder pattern is its three date runs and an escaped
      tail. */
  lemma UnknownTagPatternParts()
    ensures "[%Y-%m-%d] [%Z] %v" == "[" + "%Y" + ("-" + "%m" + ("-" + "%d" + ("] [" + ("%Z" + ("] " + "%v")))))
  {
  }

  /** The unknown-placeholder example "[%Y-%m-%d] [%Z] %v", written as its
      date runs and its tail: "%Z" is kept verbatim. Like any `%`, it
      flushes the text before it, so "] [" and "%Z] " are two literals. */
  lemma UnknownTagExample()
    ensures Compile("[" + "%Y" + ("-" + "%m" + ("-" + "%d" + ("] [" + ("%Z" + ("] " + "%v")))))) == [
      Literal("["), Year, Literal("-"), Month, Literal("-"), Day,
      Literal("] ["), Literal("%Z] "), Payload]
  {
    var tail := "] [" + ("%Z" + ("] " + "%v"));
    TextEscapeTextTag("] [", 'Z', "] ", 'v');
    assert EscapeText('Z') + "] " == "%Z] ";
    DateThenRestCompiles("[", "-", "-", tail, [Literal("] ["), Literal("%Z] "), Payload]);
  }

  /** ... and it renders as the date, then "] [%Z] " and the payload. */
  lemma UnknownTagRendering(msg: LogMsg, tm: Tm)
    ensures Expand("[" + "%Y" + ("-" + "%m" + ("-" + "%d" + ("] [" + ("%Z" + ("] " + "%v"))))), msg, tm)
      == "[" + (Render(Year, msg, tm) + ("-" + (Render(Month, msg, tm) + ("-" + (Render(Day, msg, tm)
         + ("] [%Z] " + msg.payload))))))
  {
    var tail := "] [" + ("%Z" + ("] " + "%v"));
    ExpandTextEscapeTextTag("] [", 'Z', "] ", 'v', msg, tm);
    assert "] [" + EscapeText('Z') + "] " == "] [%Z] ";
    DateThenRestExpands("[", "-", "-", tail, msg, tm);
  }
}
