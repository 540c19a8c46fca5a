/// Severity levels: the `level` enum, its two name tables, the
/// case-insensitive reverse lookup and the threshold comparison.
module Levels {

  /** The `level` enum class. Its underlying type is a 32-bit `int`, and a
      cast can put any such value into it, so the lookups below must handle
      values outside the seven named ones. */
  newtype Level = x: int | -0x8000_0000 <= x < 0x8000_0000

  const Trace: Level := 0
  const Debug: Level := 1
  const Info: Level := 2
  const Warn: Level := 3
  const Error: Level := 4
  const Critical: Level := 5
  const Off: Level := 6

  /** One of the seven named levels. */
  predicate IsNamed(l: Level) {
    Trace <= l <= Off
  }

  const LevelNames: seq<string> := ["trace", "debug", "info", "warn", "error", "critical", "off"]
  const ShortNames: seq<string> := ["T", "D", "I", "W", "E", "C", "O"]

  /** `level_to_string`: a bounds-checked lookup in the full-name table. */
  function LevelToString(l: Level): string {
    if 0 <= l < |LevelNames| as Level then LevelNames[l as int] else "unknown"
  }

  /** `level_to_short_string`: a bounds-checked lookup in the short-name table. */
  function LevelToShortString(l: Level): string {
    if 0 <= l < |ShortNames| as Level then ShortNames[l as int] else "U"
  }

  /** `std::tolower` in the C locale. */
  function ToLowerChar(c: char): char {
    if 'A' <= c <= 'Z' then (c as int + 32) as char else c
  }

  /** `std::toupper` in the C locale. */
  function ToUpperChar(c: char): char {
    if 'a' <= c <= 'z' then (c as int - 32) as char else c
  }

  /** The lowercased copy `std::transform` makes: no upper-case letter is
      left, each character still matches its original up to case, and
      every character that was not an upper-case letter is kept. */
  function Lower(s: string): (r: string)
    ensures |r| == |s|
    ensures forall i :: 0 <= i < |r| ==> !('A' <= r[i] <= 'Z')
    ensures forall i :: 0 <= i < |s| ==> ToUpperChar(r[i]) == ToUpperChar(s[i])
    ensures forall i :: 0 <= i < |s| && !('A' <= s[i] <= 'Z') ==> r[i] == s[i]
  {
    seq(|s|, i requires 0 <= i < |s| => ToLowerChar(s[i]))
  }

  /** The first index at or after `i` whose full name equals `lower`, as a
      level; `info` when there is none. */
  function FindLevel(lower: string, i: nat): Level
    requires i <= |LevelNames|
    decreases |LevelNames| - i
  {
    if i == |LevelNames| then Info
    else if lower == LevelNames[i] then i as Level
    else FindLevel(lower, i + 1)
  }

  /** What `string_to_level` returns. */
  function ParseLevel(s: string): Level {
    FindLevel(Lower(s), 0)
  }

  /** `string_to_level`: lowercase a copy of the input in place, then scan the
      name table by index; fall back to `info`. */
  method StringToLevel(str: string) returns (r: Level)
    ensures r == ParseLevel(str)
  {
    var lowerStr := str;
    var k := 0;
    while k < |lowerStr|
      invariant 0 <= k <= |lowerStr| == |str|
      invariant forall j :: 0 <= j < k ==> lowerStr[j] == ToLowerChar(str[j])
      invariant forall j :: k <= j < |str| ==> lowerStr[j] == str[j]
    {
      lowerStr := lowerStr[k := ToLowerChar(lowerStr[k])];
      k := k + 1;
    }
    assert lowerStr == Lower(str);
    var i := 0;
    while i < |LevelNames|
      invariant 0 <= i <= |LevelNames|
      invariant FindLevel(lowerStr, i) == ParseLevel(str)
    {
      if lowerStr == LevelNames[i] {
        return i as Level;
      }
      i := i + 1;
    }
    r := Info;
  }

  /** `should_log`: a message passes a threshold when it is at least as severe. */
  predicate ShouldLog(threshold: Level, msgLevel: Level) {
    msgLevel >= threshold
  }

  /** The levels of `ls` that pass `threshold`, in order. */
  function Passing(threshold: Level, ls: seq<Level>): seq<Level> {
    if ls == [] then []
    else (if ShouldLog(threshold, ls[0]) then [ls[0]] else []) + Passing(threshold, ls[1..])
  }

  // ---------------------------------------------------------------------
  // Properties
  // ---------------------------------------------------------------------

  /** The seven levels are 0..6, contiguous and increasing in severity. */
  lemma SeverityOrder()
    ensures Trace == 0 && Debug == Trace + 1 && Info == Debug + 1 && Warn == Info + 1
    ensures Error == Warn + 1 && Critical == Error + 1 && Off == Critical + 1
    ensures forall l: Level :: IsNamed(l) <==> l in {Trace, Debug, Info, Warn, Error, Critical, Off}
  {
  }

  /** The full name of each named level is its entry in the table, and every
      other value reads "unknown", which is no level's name. */
  lemma LevelToStringTable(l: Level)
    ensures IsNamed(l) ==> LevelToString(l) == LevelNames[l as int]
    ensures !IsNamed(l) <==> LevelToString(l) == "unknown"
  {
  }

  /** No two levels share a full name. */
  lemma LevelNamesDistinct(l: Level, m: Level)
    requires IsNamed(l) && IsNamed(m)
    ensures LevelToString(l) == LevelToString(m) <==> l == m
  {
  }

  /** Each short name is the upper-cased first letter of the full name, for
      every value of the enum ("U" of "unknown" included). */
  lemma ShortNameIsInitial(l: Level)
    ensures LevelToString(l) != []
    ensures LevelToShortString(l) == [ToUpperChar(LevelToString(l)[0])]
  {
  }

  /** The full names are already lower case. */
  lemma NamesAreLowerCase(l: Level)
    ensures Lower(LevelToString(l)) == LevelToString(l)
  {
    var n := LevelToString(l);
    assert forall i :: 0 <= i < |n| ==> 'a' <= n[i] <= 'z';
  }

  lemma {:induction false} FindLevelInRange(lower: string, i: nat)
    requires i <= |LevelNames|
    ensures IsNamed(FindLevel(lower, i))
    decreases |LevelNames| - i
  {
    if i < |LevelNames| && lower != LevelNames[i] {
      FindLevelInRange(lower, i + 1);
    }
  }

  /** `string_to_level` always yields one of the seven named levels. */
  lemma ParseLevelInRange(s: string)
    ensures IsNamed(ParseLevel(s))
  {
    FindLevelInRange(Lower(s), 0);
  }

  lemma {:induction false} FindLevelFirstMatch(lower: string, i: nat, k: nat)
    requires i <= k < |LevelNames|
    requires lower == LevelNames[k]
    requires forall j :: i <= j < k ==> lower != LevelNames[j]
    ensures FindLevel(lower, i) == k as Level
    decreases k - i
  {
    if i < k {
      FindLevelFirstMatch(lower, i + 1, k);
    }
  }

  lemma {:induction false} FindLevelNoMatch(lower: string, i: nat)
    requires i <= |LevelNames|
    requires forall j :: i <= j < |LevelNames| ==> lower != LevelNames[j]
    ensures FindLevel(lower, i) == Info
    decreases |LevelNames| - i
  {
    if i < |LevelNames| {
      FindLevelNoMatch(lower, i + 1);
    }
  }

  /** Text that lowercases to no full name, such as "" or " warn ", yields `info`. */
  lemma ParseLevelDefault(s: string)
    requires forall j :: 0 <= j < |LevelNames| ==> Lower(s) != LevelNames[j]
    ensures ParseLevel(s) == Info
  {
    FindLevelNoMatch(Lower(s), 0);
  }

  /** For a named level `l`: `string_to_level(s) == l` exactly when `s`
      lowercases to the name of `l`, or when `l` is `info` and `s` lowercases
      to no name at all. */
  lemma ParseLevelMatches(s: string, l: Level)
    requires IsNamed(l)
    ensures ParseLevel(s) == l <==>
      Lower(s) == LevelToString(l) ||
      (l == Info && forall j :: 0 <= j < |LevelNames| ==> Lower(s) != LevelNames[j])
  {
    var lower := Lower(s);
    if k :| 0 <= k < |LevelNames| && lower == LevelNames[k] {
      assert forall j :: 0 <= j < |LevelNames| && j != k ==> LevelNames[j] != LevelNames[k];
      FindLevelFirstMatch(lower, 0, k);
      assert LevelToString(k as Level) == lower;
      LevelNamesDistinct(l, k as Level);
    } else {
      FindLevelNoMatch(lower, 0);
      assert LevelToString(l) == LevelNames[l as int];
    }
  }

  /** Round trip: the full name of a named level, in any mix of upper and
      lower case, reads back as that level. */
  lemma ParseLevelRoundTrip(l: Level, s: string)
    requires IsNamed(l)
    requires Lower(s) == LevelToString(l)
    ensures ParseLevel(s) == l
    ensures ParseLevel(LevelToString(l)) == l
  {
    ParseLevelMatches(s, l);
    NamesAreLowerCase(l);
    ParseLevelMatches(LevelToString(l), l);
  }

  /** Two strings that differ at most in the case of their letters. */
  predicate SameUpToCase(s: string, t: string) {
    |s| == |t| && forall i :: 0 <= i < |s| ==> ToUpperChar(s[i]) == ToUpperChar(t[i])
  }

  /** Lowercasing is idempotent. */
  lemma LowerIdempotent(s: string)
    ensures Lower(Lower(s)) == Lower(s)
  {
    var r := Lower(s);
    assert forall i :: 0 <= i < |r| ==> Lower(r)[i] == r[i];
  }

  /** Two strings lowercase to the same text exactly when they differ at
      most in the case of their letters. */
  lemma LowerIgnoresCase(s: string, t: string)
    ensures Lower(s) == Lower(t) <==> SameUpToCase(s, t)
  {
    if Lower(s) == Lower(t) {
      forall i | 0 <= i < |s| ensures ToUpperChar(s[i]) == ToUpperChar(t[i]) {
        assert ToUpperChar(Lower(s)[i]) == ToUpperChar(s[i]);
        assert ToUpperChar(Lower(t)[i]) == ToUpperChar(t[i]);
      }
    }
    if SameUpToCase(s, t) {
      forall i | 0 <= i < |s| ensures Lower(s)[i] == Lower(t)[i] {
        assert ToLowerChar(s[i]) == ToLowerChar(t[i]);
      }
    }
  }

  /** `string_to_level` does not depend on the case of the letters. */
  lemma ParseLevelIgnoresCase(s: string, t: string)
    requires SameUpToCase(s, t)
    ensures ParseLevel(s) == ParseLevel(t)
  {
    LowerIgnoresCase(s, t);
  }

  /** Names with surrounding spaces are not recognised. */
  lemma ParseLevelExamples()
    ensures ParseLevel("") == Info
    ensures ParseLevel(" warn ") == Info
    ensures ParseLevel("WARN") == Warn
    ensures ParseLevel("Critical") == Critical
  {
    ParseLevelDefault("");
    ParseLevelDefault(" warn ");
    ParseLevelRoundTrip(Warn, "WARN");
    ParseLevelRoundTrip(Critical, "Critical");
  }

  /** `should_log` is reflexive and monotone in the message level. */
  lemma ShouldLogMonotone(t: Level, m: Level, m': Level)
    ensures ShouldLog(t, t)
    ensures ShouldLog(t, m) && m <= m' ==> ShouldLog(t, m')
    ensures ShouldLog(t, m) <==> m >= t
  {
  }

  /** With threshold `trace` every named level passes; with threshold `off`
      only `off` does. */
  lemma ShouldLogExtremes(m: Level)
    requires IsNamed(m)
    ensures ShouldLog(Trace, m)
    ensures ShouldLog(Off, m) <==> m == Off
  {
  }

  /** Filtering the six real levels through threshold `warn` keeps exactly
      warn, error and critical. */
  lemma WarnPassesThreeOfSix()
    ensures Passing(Warn, [Trace, Debug, Info, Warn, Error, Critical]) == [Warn, Error, Critical]
  {
    var ls := [Trace, Debug, Info, Warn, Error, Critical];
    assert Passing(Warn, ls[5..]) == [Critical];
    assert Passing(Warn, ls[4..]) == [Error, Critical] by { assert ls[4..][1..] == ls[5..]; }
    assert Passing(Warn, ls[3..]) == [Warn, Error, Critical] by { assert ls[3..][1..] == ls[4..]; }
    assert Passing(Warn, ls[2..]) == [Warn, Error, Critical] by { assert ls[2..][1..] == ls[3..]; }
    assert Passing(Warn, ls[1..]) == [Warn, Error, Critical] by { assert ls[1..][1..] == ls[2..]; }
    assert ls[0..] == ls;
  }
}
