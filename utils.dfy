/// The string-trim helpers of the details namespace: `ltrim`, `rtrim` and
/// `trim`, each of which erases whitespace from its argument in place and
/// returns that same string.
module Utils {

  /** `std::isspace` in the C locale: space, and tab, line feed, vertical
      tab, form feed and carriage return (codes 9 to 13). */
  predicate IsSpace(c: char) {
    c == ' ' || '\t' <= c <= '\r'
  }

  predicate AllSpace(s: string) {
    forall i :: 0 <= i < |s| ==> IsSpace(s[i])
  }

  /** What `ltrim` leaves: the input without its leading whitespace. */
  function LeftTrimmed(s: string): string {
    if s != [] && IsSpace(s[0]) then LeftTrimmed(s[1..]) else s
  }

  /** What `rtrim` leaves: the input without its trailing whitespace. */
  function RightTrimmed(s: string): string {
    if s != [] && IsSpace(s[|s| - 1]) then RightTrimmed(s[..|s| - 1]) else s
  }

  /** What `trim` leaves: `ltrim(rtrim(s))`. */
  function Trimmed(s: string): string {
    LeftTrimmed(RightTrimmed(s))
  }

  /** A `std::string` object, passed and returned by reference. */
  class StdString {
    var chars: string

    constructor (s: string)
      ensures chars == s
    {
      chars := s;
    }
  }

  /** `ltrim`: find the first non-whitespace character, erase everything
      before it, and return the same string object. */
  method LTrim(s: StdString) returns (r: StdString)
    modifies s
    ensures r == s
    ensures s.chars == LeftTrimmed(old(s.chars))
  {
    var k := 0;
    while k < |s.chars| && IsSpace(s.chars[k])
      invariant 0 <= k <= |s.chars|
      invariant LeftTrimmed(s.chars[k..]) == LeftTrimmed(s.chars)
    {
      assert s.chars[k..][1..] == s.chars[k + 1..];
      k := k + 1;
    }
    s.chars := s.chars[k..];
    r := s;
  }

  /** `rtrim`: find the last non-whitespace character from the back, erase
      everything after it, and return the same string object. */
  method RTrim(s: StdString) returns (r: StdString)
    modifies s
    ensures r == s
    ensures s.chars == RightTrimmed(old(s.chars))
  {
    var j := |s.chars|;
    assert s.chars[..j] == s.chars;
    while j > 0 && IsSpace(s.chars[j - 1])
      invariant 0 <= j <= |s.chars|
      invariant RightTrimmed(s.chars[..j]) == RightTrimmed(s.chars)
    {
      assert s.chars[..j][..j - 1] == s.chars[..j - 1];
      j := j - 1;
    }
    assert s.chars[..|s.chars|] == s.chars;
    s.chars := s.chars[..j];
    r := s;
  }

  /** `trim`: `ltrim(rtrim(s))`, on the same string object. */
  method Trim(s: StdString) returns (r: StdString)
    modifies s
    ensures r == s
    ensures s.chars == Trimmed(old(s.chars))
  {
    var t := RTrim(s);
    r := LTrim(t);
  }

  // ---------------------------------------------------------------------
  // Properties
  // ---------------------------------------------------------------------

  /** `ltrim` leaves a suffix of its input; what it removed is all
      whitespace, and what is left is empty or starts with a non-whitespace
      character. */
  lemma {:induction false} LeftTrimmedIsSuffix(s: string)
    ensures |LeftTrimmed(s)| <= |s|
    ensures LeftTrimmed(s) == s[|s| - |LeftTrimmed(s)|..]
    ensures AllSpace(s[..|s| - |LeftTrimmed(s)|])
    ensures LeftTrimmed(s) == [] || !IsSpace(LeftTrimmed(s)[0])
  {
    if s != [] && IsSpace(s[0]) {
      LeftTrimmedIsSuffix(s[1..]);
      var k := |s| - |LeftTrimmed(s)|;
      assert s[1..][k - 1..] == s[k..];
      assert forall i :: 1 <= i < k ==> s[..k][i] == s[1..][..k - 1][i - 1];
    }
  }

  /** `rtrim` leaves a prefix of its input; what it removed is all
      whitespace, and what is left is empty or ends with a non-whitespace
      character. */
  lemma {:induction false} RightTrimmedIsPrefix(s: string)
    ensures |RightTrimmed(s)| <= |s|
    ensures RightTrimmed(s) == s[..|RightTrimmed(s)|]
    ensures AllSpace(s[|RightTrimmed(s)|..])
    ensures RightTrimmed(s) == [] || !IsSpace(RightTrimmed(s)[|RightTrimmed(s)| - 1])
  {
    if s != [] && IsSpace(s[|s| - 1]) {
      var s' := s[..|s| - 1];
      RightTrimmedIsPrefix(s');
      var k := |RightTrimmed(s)|;
      assert s'[..k] == s[..k];
      forall i | k <= i < |s| ensures IsSpace(s[i]) {
        if i < |s| - 1 { assert s'[k..][i - k] == s[i]; }
      }
    }
  }

  /** Trimming a string with no leading whitespace from the left leaves it,
      and likewise on the right. */
  lemma LeftTrimmedFixed(s: string)
    requires s == [] || !IsSpace(s[0])
    ensures LeftTrimmed(s) == s
  {
  }

  lemma RightTrimmedFixed(s: string)
    requires s == [] || !IsSpace(s[|s| - 1])
    ensures RightTrimmed(s) == s
  {
  }

  /** `trim` leaves the contiguous slice from the first to the last
      non-whitespace character: everything outside it is whitespace, and
      the slice is empty or starts and ends with non-whitespace. */
  lemma TrimmedIsSlice(s: string)
    ensures exists i, j ::
      0 <= i <= j <= |s| && Trimmed(s) == s[i..j] && AllSpace(s[..i]) && AllSpace(s[j..])
    ensures Trimmed(s) == [] || (!IsSpace(Trimmed(s)[0]) && !IsSpace(Trimmed(s)[|Trimmed(s)| - 1]))
  {
    var r := RightTrimmed(s);
    RightTrimmedIsPrefix(s);
    var j := |r|;
    assert r == s[..j];
    LeftTrimmedIsSuffix(r);
    var t := LeftTrimmed(r);
    var i := j - |t|;
    assert t == r[i..];
    assert r[..i] == s[..i];
    assert r[i..] == s[i..j];
    assert Trimmed(s) == t;
    if t != [] {
      assert t[|t| - 1] == r[j - 1];
    }
    assert 0 <= i <= j <= |s| && Trimmed(s) == s[i..j] && AllSpace(s[..i]) && AllSpace(s[j..]);
  }

  /** Each of the three trims is idempotent. */
  lemma TrimIdempotent(s: string)
    ensures LeftTrimmed(LeftTrimmed(s)) == LeftTrimmed(s)
    ensures RightTrimmed(RightTrimmed(s)) == RightTrimmed(s)
    ensures Trimmed(Trimmed(s)) == Trimmed(s)
  {
    LeftTrimmedIsSuffix(s);
    LeftTrimmedFixed(LeftTrimmed(s));
    RightTrimmedIsPrefix(s);
    RightTrimmedFixed(RightTrimmed(s));
    TrimmedIsSlice(s);
    var t := Trimmed(s);
    RightTrimmedFixed(t);
    LeftTrimmedFixed(t);
  }

  /** A string trims to "" exactly when it is empty or all whitespace. */
  lemma TrimmedEmpty(s: string)
    ensures Trimmed(s) == [] <==> AllSpace(s)
  {
    TrimmedIsSlice(s);
    if Trimmed(s) == [] {
      var i, j :| 0 <= i <= j <= |s| && Trimmed(s) == s[i..j] && AllSpace(s[..i]) && AllSpace(s[j..]);
      assert i == j;
      forall k | 0 <= k < |s| ensures IsSpace(s[k]) {
        if k < i { assert s[..i][k] == s[k]; } else { assert s[j..][k - j] == s[k]; }
      }
    } else {
      var i, j :| 0 <= i <= j <= |s| && Trimmed(s) == s[i..j] && AllSpace(s[..i]) && AllSpace(s[j..]);
      assert s[i] == Trimmed(s)[0];
    }
  }
}
