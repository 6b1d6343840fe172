/**
  The few `java.lang.String` operations the cascade parser relies on, stated
  over `seq<char>`: `trim()`, `replaceAll(" ++$", "")`, `indexOf(char)`,
  `lastIndexOf(char)` and `String.join`. Java reports "absent" with -1, so
  the index functions return `int`.
 */
module JavaString {

  /** `String.trim()` treats every character at or below U+0020 as removable. */
  predicate IsTrimmable(c: char) {
    c <= ' '
  }

  predicate AllTrimmable(s: string) {
    forall k :: 0 <= k < |s| ==> IsTrimmable(s[k])
  }

  /** Number of removable characters at the front of `s`. */
  function LeadingTrimmable(s: string): (n: nat)
    ensures n <= |s|
    ensures AllTrimmable(s[..n])
    ensures n < |s| ==> !IsTrimmable(s[n])
  {
    if |s| > 0 && IsTrimmable(s[0]) then 1 + LeadingTrimmable(s[1..]) else 0
  }

  /** Number of removable characters at the back of `s`. */
  function TrailingTrimmable(s: string): (n: nat)
    ensures n <= |s|
    ensures AllTrimmable(s[|s| - n..])
    ensures n < |s| ==> !IsTrimmable(s[|s| - n - 1])
  {
    if |s| > 0 && IsTrimmable(s[|s| - 1]) then 1 + TrailingTrimmable(s[..|s| - 1]) else 0
  }

  /** `r` sits at offset `i` of `s`, and everything around it is removable. */
  predicate TrimmedAt(s: string, r: string, i: int) {
    && 0 <= i
    && i + |r| <= |s|
    && s[i..i + |r|] == r
    && AllTrimmable(s[..i])
    && AllTrimmable(s[i + |r|..])
  }

  /** `String.trim()`. */
  function Trim(s: string): (r: string)
    ensures |r| <= |s|
    ensures r == [] <==> AllTrimmable(s)
    ensures r != [] ==> !IsTrimmable(r[0]) && !IsTrimmable(r[|r| - 1])
  {
    var i := LeadingTrimmable(s);
    var t := s[i..];
    var r := t[..|t| - TrailingTrimmable(t)];
    assert r == [] ==> AllTrimmable(s) by {
      if r == [] {
        assert i == |s|;
        forall k | 0 <= k < |s| ensures IsTrimmable(s[k]) {
          assert s[k] == s[..i][k];
        }
      }
    }
    r
  }

  /** The trim is what is left once the removable characters around it are gone. */
  lemma TrimIsInfix(s: string)
    ensures TrimmedAt(s, Trim(s), LeadingTrimmable(s))
  {
    var i := LeadingTrimmable(s);
    var t := s[i..];
    var m := TrailingTrimmable(t);
    assert Trim(s) == t[..|t| - m] by {
      assert Trim(s) == s[i..][..|s[i..]| - TrailingTrimmable(s[i..])];
    }
    InfixAt(s, Trim(s), i, m);
  }

  /** Cutting `i` removable characters off the front and `m` off the back leaves an infix. */
  lemma InfixAt(s: string, r: string, i: nat, m: nat)
    requires i <= |s| && m <= |s| - i && r == s[i..][..|s| - i - m]
    requires AllTrimmable(s[..i]) && AllTrimmable(s[i..][|s| - i - m..])
    ensures TrimmedAt(s, r, i)
  {
    var t := s[i..];
    assert s[i..i + |r|] == r;
    assert s[i + |r|..] == t[|t| - m..];
  }

  /**
    The trim is the only infix surrounded by removable characters that has
    none at its own ends.
   */
  lemma TrimIsUnique(s: string, r: string, i: int)
    requires TrimmedAt(s, r, i)
    requires r == [] || (!IsTrimmable(r[0]) && !IsTrimmable(r[|r| - 1]))
    ensures Trim(s) == r
  {
    TrimIsInfix(s);
  }

  /**
    The characters before which Java's non-multiline `$` may still match:
    `\n`, `\r`, U+0085, U+2028 and U+2029.
   */
  predicate IsLineTerminator(c: char) {
    c == '\n' || c == '\r' || c == '\U{0085}' || c == '\U{2028}' || c == '\U{2029}'
  }

  predicate HasNoLineTerminator(s: string) {
    forall k :: 0 <= k < |s| ==> !IsLineTerminator(s[k])
  }

  /**
    Length of the final line terminator of `s` that a non-multiline `$` looks
    past: 2 for a closing "\r\n", 1 for any other closing terminator, else 0.
   */
  function FinalTerminatorLength(s: string): (t: nat)
    ensures t <= 2 && t <= |s|
    ensures t == 0 <==> |s| == 0 || !IsLineTerminator(s[|s| - 1])
    ensures forall k :: |s| - t <= k < |s| ==> IsLineTerminator(s[k])
  {
    if |s| >= 2 && s[|s| - 2] == '\r' && s[|s| - 1] == '\n' then 2
    else if |s| >= 1 && IsLineTerminator(s[|s| - 1]) then 1
    else 0
  }

  /** Number of U+0020 characters at the back of `s`. */
  function TrailingSpaces(s: string): (n: nat)
    ensures n <= |s|
    ensures forall k :: |s| - n <= k < |s| ==> s[k] == ' '
    ensures n < |s| ==> s[|s| - n - 1] != ' '
  {
    if |s| > 0 && s[|s| - 1] == ' ' then 1 + TrailingSpaces(s[..|s| - 1]) else 0
  }

  /**
    `replaceAll(" ++$", "")`. The possessive run of spaces can only match where
    `$` matches right after it: at the end of the string, or just before a
    final line terminator. At most one such run exists, so the result is the
    string with the spaces before its final terminator (if any) removed.
   */
  function StripTrailingSpaces(s: string): (r: string)
    ensures |r| <= |s|
    ensures FinalTerminatorLength(s) <= |r|
    // what precedes the removed run is kept, and so is the terminator
    ensures r[..|r| - FinalTerminatorLength(s)] == s[..|r| - FinalTerminatorLength(s)]
    ensures r[|r| - FinalTerminatorLength(s)..] == s[|s| - FinalTerminatorLength(s)..]
    // only spaces are removed, and all of the run is removed
    ensures forall k :: |r| - FinalTerminatorLength(s) <= k < |s| - FinalTerminatorLength(s) ==> s[k] == ' '
    ensures |r| > FinalTerminatorLength(s) ==> r[|r| - FinalTerminatorLength(s) - 1] != ' '
  {
    var t := FinalTerminatorLength(s);
    if t == 0 then
      DropTrailingSpaces(s)
    else
      var body := s[..|s| - t];
      var kept := DropTrailingSpaces(body);
      assert kept == s[..|kept|];
      kept + s[|s| - t..]
  }

  /** `s` without the U+0020 characters at its back. */
  function DropTrailingSpaces(s: string): string {
    s[..|s| - TrailingSpaces(s)]
  }

  /** A string that opens with neither a space nor a terminator keeps its first character. */
  lemma StripKeepsHead(s: string)
    requires |s| > 0 && s[0] != ' ' && !IsLineTerminator(s[0])
    ensures |StripTrailingSpaces(s)| > 0 && StripTrailingSpaces(s)[0] == s[0]
  {
    var f := FinalTerminatorLength(s);
    var r := StripTrailingSpaces(s);
    assert |s| > f;
    assert |r| > f;
    assert r[..|r| - f][0] == s[..|r| - f][0];
  }

  /** On a line without terminators (what a line reader yields) only trailing spaces go. */
  lemma StripTrailingSpacesOfPlainLine(s: string)
    requires HasNoLineTerminator(s)
    ensures StripTrailingSpaces(s) == s[..|s| - TrailingSpaces(s)]
  {
    NoFinalTerminator(s);
    StripWithoutFinalTerminator(s);
  }

  lemma NoFinalTerminator(s: string)
    requires HasNoLineTerminator(s)
    ensures FinalTerminatorLength(s) == 0
  {
    if |s| > 0 {
      assert !IsLineTerminator(s[|s| - 1]);
    }
  }

  lemma StripWithoutFinalTerminator(s: string)
    requires FinalTerminatorLength(s) == 0
    ensures StripTrailingSpaces(s) == s[..|s| - TrailingSpaces(s)]
  {
    assert StripTrailingSpaces(s) == DropTrailingSpaces(s);
  }

  /** `indexOf(c)`: the first position of `c`, or -1. */
  function IndexOf(s: string, c: char): (r: int)
    ensures -1 <= r < |s|
    ensures r == -1 <==> c !in s
    ensures r >= 0 ==> s[r] == c && c !in s[..r]
  {
    if |s| == 0 then -1
    else if s[0] == c then 0
    else
      var k := IndexOf(s[1..], c);
      assert s[1..] == s[1..][..];
      if k == -1 then -1
      else
        assert s[..k + 1] == [s[0]] + s[1..][..k];
        k + 1
  }

  /** `lastIndexOf(c)`: the last position of `c`, or -1. */
  function LastIndexOf(s: string, c: char): (r: int)
    ensures -1 <= r < |s|
    ensures r == -1 <==> c !in s
    ensures r >= 0 ==> s[r] == c && c !in s[r + 1..]
  {
    if |s| == 0 then -1
    else if s[|s| - 1] == c then |s| - 1
    else
      var p := s[..|s| - 1];
      var k := LastIndexOf(p, c);
      assert s == p + [s[|s| - 1]];
      LastIndexOfSnoc(p, s[|s| - 1], c, k);
      k
  }

  /** Appending anything but `c` keeps the last position of `c`. */
  lemma LastIndexOfSnoc(p: string, x: char, c: char, k: int)
    requires x != c && -1 <= k < |p|
    requires k == -1 <==> c !in p
    requires k >= 0 ==> p[k] == c && c !in p[k + 1..]
    ensures k == -1 <==> c !in p + [x]
    ensures k >= 0 ==> (p + [x])[k] == c && c !in (p + [x])[k + 1..]
  {
    if k >= 0 {
      assert (p + [x])[k + 1..] == p[k + 1..] + [x];
    }
  }

  /** `String.join(sep, parts)`. */
  function Join(sep: string, parts: seq<string>): (r: string)
    ensures sep != [] ==> (r == [] <==> |parts| == 0 || (|parts| == 1 && parts[0] == []))
  {
    if |parts| == 0 then []
    else if |parts| == 1 then parts[0]
    else parts[0] + sep + Join(sep, parts[1..])
  }

  /** Joining one more part appends the separator and that part. */
  lemma {:induction false} JoinSnoc(sep: string, parts: seq<string>, last: string)
    requires |parts| > 0
    ensures Join(sep, parts + [last]) == Join(sep, parts) + sep + last
    decreases |parts|
  {
    if |parts| == 1 {
      assert parts + [last] == [parts[0], last];
    } else {
      assert (parts + [last])[1..] == parts[1..] + [last];
      JoinSnoc(sep, parts[1..], last);
    }
  }
}
