/** The string primitives the credential form relies on: the whitespace class
    shared by JavaScript's `\s` and `String.prototype.trim`, trimming,
    blankness (`!s.trim()`) and `String.prototype.includes`. */
module Text {

  /** The characters JavaScript counts as white space or line terminators.
      Both the `\s` regular-expression class and `trim` use this one set. */
  predicate IsWhitespace(c: char) {
    var n := c as int;
    || n == 0x09 || n == 0x0A || n == 0x0B || n == 0x0C || n == 0x0D || n == 0x20
    || n == 0xA0 || n == 0x1680 || (0x2000 <= n <= 0x200A)
    || n == 0x2028 || n == 0x2029 || n == 0x202F || n == 0x205F || n == 0x3000 || n == 0xFEFF
  }

  predicate AllWhitespace(s: string) {
    forall i | 0 <= i < |s| :: IsWhitespace(s[i])
  }

  predicate NoWhitespace(s: string) {
    forall i | 0 <= i < |s| :: !IsWhitespace(s[i])
  }

  /** Drops the leading white space. */
  function TrimStart(s: string): (r: string)
    ensures |r| <= |s|
  {
    if |s| > 0 && IsWhitespace(s[0]) then TrimStart(s[1..]) else s
  }

  /** What `TrimStart` drops is all white space, and what it keeps is a
      suffix that does not start with white space. */
  lemma {:induction false} TrimStartDropsLeadingWhitespace(s: string)
    ensures var r := TrimStart(s);
      && r == s[|s| - |r|..]
      && AllWhitespace(s[..|s| - |r|])
      && (r != [] ==> !IsWhitespace(r[0]))
    decreases |s|
  {
    if |s| > 0 && IsWhitespace(s[0]) {
      var r := TrimStart(s[1..]);
      TrimStartDropsLeadingWhitespace(s[1..]);
      assert s[..|s| - |r|] == [s[0]] + s[1..][..|s[1..]| - |r|];
    }
  }

  /** Drops the trailing white space. */
  function TrimEnd(s: string): (r: string)
    ensures |r| <= |s|
  {
    if |s| > 0 && IsWhitespace(s[|s| - 1]) then TrimEnd(s[..|s| - 1]) else s
  }

  /** What `TrimEnd` drops is all white space, and what it keeps is a
      prefix that does not end with white space. */
  lemma {:induction false} TrimEndDropsTrailingWhitespace(s: string)
    ensures var r := TrimEnd(s);
      && r == s[..|r|]
      && AllWhitespace(s[|r|..])
      && (r != [] ==> !IsWhitespace(r[|r| - 1]))
    decreases |s|
  {
    if |s| > 0 && IsWhitespace(s[|s| - 1]) {
      var r := TrimEnd(s[..|s| - 1]);
      TrimEndDropsTrailingWhitespace(s[..|s| - 1]);
      assert s[|r|..] == s[..|s| - 1][|r|..] + [s[|s| - 1]];
    }
  }

  /** `String.prototype.trim`: the leading and then the trailing white space
      is dropped. */
  function Trim(s: string): (r: string)
    ensures |r| <= |s|
  {
    TrimEnd(TrimStart(s))
  }

  /** The trimmed string is a slice of the original that neither starts nor
      ends with white space, and only white space is cut off on either side. */
  lemma TrimIsSlice(s: string)
    ensures var r := Trim(s);
      && (r != [] ==> !IsWhitespace(r[0]) && !IsWhitespace(r[|r| - 1]))
      && exists k | 0 <= k <= |s| - |r| ::
           r == s[k..k + |r|] && AllWhitespace(s[..k]) && AllWhitespace(s[k + |r|..])
  {
    var t := TrimStart(s);
    var r := TrimEnd(t);
    TrimStartDropsLeadingWhitespace(s);
    TrimEndDropsTrailingWhitespace(t);
    var k := |s| - |t|;
    SliceOfSlice(s, t, r, k);
  }

  /** A slice of a suffix is a slice of the whole. */
  lemma SliceOfSlice(s: string, t: string, r: string, k: int)
    requires 0 <= k <= |s| && t == s[k..] && AllWhitespace(s[..k])
    requires |r| <= |t| && r == t[..|r|] && AllWhitespace(t[|r|..])
    ensures r == s[k..k + |r|] && AllWhitespace(s[k + |r|..])
  {
  }

  /** The source's `!s.trim()`: the trimmed string is empty. */
  predicate IsBlank(s: string) {
    Trim(s) == []
  }

  /** A string is blank exactly when every character of it is white space. */
  lemma BlankIffAllWhitespace(s: string)
    ensures IsBlank(s) <==> AllWhitespace(s)
  {
    var t := TrimStart(s);
    TrimStartDropsLeadingWhitespace(s);
    TrimEndDropsTrailingWhitespace(t);
    assert s == s[..|s| - |t|] + t;
    if t != [] {
      assert TrimEnd(t)[0] == t[0];
    }
  }

  /** `part` occurs in `s` starting at index `i`. */
  predicate OccursAt(s: string, part: string, i: int) {
    0 <= i && i + |part| <= |s| && s[i..i + |part|] == part
  }

  /** `String.prototype.includes`, searching from the left. */
  function Contains(s: string, part: string): bool
    decreases |s|
  {
    if |part| <= |s| && s[..|part|] == part then true
    else if |s| == 0 then false
    else Contains(s[1..], part)
  }

  /** The search finds `part` exactly when it occurs somewhere in `s`. */
  lemma {:induction false} ContainsIffOccurs(s: string, part: string)
    ensures Contains(s, part) <==> exists i :: OccursAt(s, part, i)
    decreases |s|
  {
    if |part| <= |s| && s[..|part|] == part {
      assert OccursAt(s, part, 0);
    } else if |s| == 0 {
    } else {
      ContainsIffOccurs(s[1..], part);
      if exists i :: OccursAt(s[1..], part, i) {
        var i :| OccursAt(s[1..], part, i);
        assert s[1..][i..i + |part|] == s[i + 1..i + 1 + |part|];
        assert OccursAt(s, part, i + 1);
      }
      if exists i :: OccursAt(s, part, i) {
        var i :| OccursAt(s, part, i);
        assert i != 0;
        assert s[1..][i - 1..i - 1 + |part|] == s[i..i + |part|];
        assert OccursAt(s[1..], part, i - 1);
      }
    }
  }
}
