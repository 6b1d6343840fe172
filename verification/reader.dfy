/**
  `ILCFReader`, the older line processor. A line loses its trailing spaces;
  the text before its first `=` (the name part, leading tabs included) fixes
  the depth and the name; an entry is stored when the name part yields a
  non-empty key and something follows the `=`. Only the last `#` of the value
  is looked at.
 */
module Reader {
  import opened JavaString
  import opened Cascade

  const AssignDelim: char := '='
  const CommentDelim: char := '#'
  const ArrListChar: char := '-'
  const HashMapChar: char := '*'

  /**
    What `getName` leaves behind: the key to store under (empty for a list
    marker) and the stack, or the exception it throws and the stack at
    that moment.
   */
  datatype Naming =
    | Named(key: string, stack: seq<string>)
    | Thrown(fault: Fault, stack: seq<string>)

  /** The line without its trailing spaces, as `processLine` first rewrites it. */
  function Stripped(line: string): string {
    StripTrailingSpaces(line)
  }

  /** The first `=` of the stripped line, or its length when there is none. */
  function AssignDelimIndex(t: string): (a: nat)
    ensures a <= |t|
    ensures a == |t| <==> AssignDelim !in t
    ensures a < |t| ==> t[a] == AssignDelim && AssignDelim !in t[..a]
  {
    var i := IndexOf(t, AssignDelim);
    if i == -1 then |t| else i
  }

  /** The text before the first `=`, without its trailing spaces: what `getName` is given. */
  function NamePart(line: string): string {
    var t := Stripped(line);
    StripTrailingSpaces(t[..AssignDelimIndex(t)])
  }

  /** The text after the first `=`, without its trailing spaces: what `getValue` is given. */
  function ValuePart(line: string): string {
    var t := Stripped(line);
    var a := AssignDelimIndex(t);
    if a < |t| then StripTrailingSpaces(t[a + 1..]) else []
  }

  /** `processLine`. */
  function ProcessLine(st: State, line: string): Outcome {
    var t := Stripped(line);
    var a := AssignDelimIndex(t);
    var empty := a >= |t| - 1;
    match GetName(st.prefixes, NamePart(line))
    case Thrown(f, stack) => Halt(f, st.(prefixes := stack))
    case Named(key, stack) =>
      if |key| != 0 && !empty then
        Continue(State(stack, st.variables[key := GetValue(ValuePart(line))]))
      else
        Continue(State(stack, st.variables))
  }

  /** `read`, over the lines of the file already in memory. */
  function Read(st: State, lines: seq<string>): Outcome {
    Run(ProcessLine, st, lines)
  }

  /**
    `getName`: check the depth, cut the stack back to it, then look at the
    first character. A list marker yields no key; any other name is pushed
    after the prefix is computed from the cut stack.
   */
  function GetName(stack: seq<string>, part: string): (r: Naming)
    ensures r.Thrown? && r.fault == TooManyIndentations <==> GetTabCount(part) > |stack|
    ensures r.Thrown? && r.fault == TooManyIndentations ==> r.stack == stack
    ensures r.Thrown? && r.fault == StringIndexOutOfBounds <==> part == []
    ensures r.Thrown? && r.fault == StringIndexOutOfBounds ==> r.stack == []
    // otherwise the stack is cut to the depth, and the name is pushed unless it is a list marker
    ensures r.Named? ==>
              var cut := stack[..GetTabCount(part)];
              && part != []
              && (CheckForList(part) ==> r.key == [] && r.stack == cut)
              && (!CheckForList(part) ==> r.key == Key(cut, Trim(part)) && r.stack == cut + [Trim(part)])
  {
    var tabs := GetTabCount(part);
    if !CheckIndentations(stack, tabs) then Thrown(TooManyIndentations, stack)
    else
      var reduced := ReducePrefixes(stack, tabs);
      var name := Trim(part);
      if |part| == 0 then Thrown(StringIndexOutOfBounds, reduced)
      else if CheckForList(part) then Named("", reduced)
      else Named(Key(reduced, name), reduced + [name])
  }

  /** `checkForList`: the first character is a list marker. */
  predicate CheckForList(part: string)
    requires |part| > 0
  {
    part[0] == HashMapChar || part[0] == ArrListChar
  }

  /** `checkIndentations`: holds when no exception is thrown. */
  predicate CheckIndentations(stack: seq<string>, tabs: nat) {
    tabs <= |stack|
  }

  /** `reducePrefixes`: remove the last name until `tabs` remain. */
  function ReducePrefixes(stack: seq<string>, tabs: nat): (r: seq<string>)
    requires tabs <= |stack|
    ensures r == stack[..tabs]
    decreases |stack|
  {
    if tabs == |stack| then stack else ReducePrefixes(stack[..|stack| - 1], tabs)
  }

  /** `getTabCount`: one plus the count of the rest while the line starts with a tab. */
  function GetTabCount(line: string): (n: nat)
    ensures IsTabRun(line, n)
  {
    if |line| < 1 then 0
    else if line[0] == '\t' then 1 + GetTabCount(line[1..])
    else 0
  }

  /** `i` is the position of the last `#` of `s`. */
  predicate IsLastHash(s: string, i: int) {
    && 0 <= i < |s|
    && s[i] == CommentDelim
    && forall j :: i < j < |s| ==> s[j] != CommentDelim
  }

  /**
    `getCommentDelimLocation`: the last `#`, unless a backslash precedes it,
    in which case there is no comment at all.
   */
  function GetCommentDelimLocation(s: string): (c: int)
    ensures -1 <= c < |s|
    ensures c >= 0 ==> IsLastHash(s, c) && (c == 0 || s[c - 1] != '\\')
    ensures c == -1 <==> forall i {:trigger IsLastHash(s, i)} :: IsLastHash(s, i) ==> i >= 1 && s[i - 1] == '\\'
  {
    var c := LastIndexOf(s, CommentDelim);
    var r := if c < 1 then c else if s[c - 1] == '\\' then -1 else c;
    CommentLocation(s, c, r);
    r
  }

  /** The comment position `r` derived from the position `c` of the last `#`. */
  lemma CommentLocation(s: string, c: int, r: int)
    requires c == LastIndexOf(s, CommentDelim)
    requires r == if c >= 1 && s[c - 1] == '\\' then -1 else c
    ensures -1 <= r < |s|
    ensures r >= 0 ==> IsLastHash(s, r) && (r == 0 || s[r - 1] != '\\')
    ensures r == -1 <==> forall i {:trigger IsLastHash(s, i)} :: IsLastHash(s, i) ==> i >= 1 && s[i - 1] == '\\'
  {
    LastHashIsLastIndexOf(s);
    if r >= 0 {
      assert IsLastHash(s, r);
    }
  }

  /** There is only one last `#`. */
  lemma LastHashUnique(s: string, i: int, c: int)
    requires IsLastHash(s, i) && IsLastHash(s, c)
    ensures i == c
  {
  }

  /** `lastIndexOf('#')` finds the last `#`, and no other position is one. */
  lemma LastHashIsLastIndexOf(s: string)
    ensures var c := LastIndexOf(s, CommentDelim);
      && (c >= 0 ==> IsLastHash(s, c))
      && forall i {:trigger IsLastHash(s, i)} :: IsLastHash(s, i) ==> i == c
  {
    var c := LastIndexOf(s, CommentDelim);
    if c >= 0 {
      forall j | c < j < |s| ensures s[j] != CommentDelim {
        assert s[j] == s[c + 1..][j - c - 1];
      }
      assert IsLastHash(s, c);
    }
    forall i | IsLastHash(s, i) ensures i == c {
      if c >= 0 {
        LastHashUnique(s, i, c);
      }
    }
  }

  /**
    `getValue`: the value is cut at the last `#` when no backslash precedes
    it, and is empty when that `#` opens the text; earlier `#`s are kept.
   */
  function GetValue(s: string): (r: string)
    ensures CommentDelim !in s ==> r == Trim(s)
    ensures IsLastHash(s, 0) ==> r == []
    ensures forall i :: IsLastHash(s, i) && i >= 1 && s[i - 1] == '\\' ==> r == Trim(s)
    ensures forall i :: IsLastHash(s, i) && i >= 1 && s[i - 1] != '\\' ==> r == Trim(s[..i])
  {
    var c := GetCommentDelimLocation(s);
    if c == -1 then
      // `substring(0, length())` is the whole string
      Trim(s)
    else
      forall i | IsLastHash(s, i) ensures i == c {
        LastHashUnique(s, i, c);
      }
      if c == 0 then [] else Trim(s[..c])
  }

  /** `get`: the stored value, or nothing (Java's null) for an absent key. */
  function Get(st: State, key: string): (r: Option<string>)
    ensures r.Some? <==> key in st.variables
    ensures r.Some? ==> r.value == st.variables[key]
  {
    if key in st.variables then Some(st.variables[key]) else None
  }

  /** The stripped line has an `=` somewhere before its last character. */
  predicate HasValue(line: string) {
    var t := Stripped(line);
    |t| > 0 && AssignDelim in t[..|t| - 1]
  }

  /** `processLine`'s `empty` flag is false exactly when the line has a value. */
  lemma NotEmptyIffHasValue(line: string)
    ensures var t := Stripped(line); !(AssignDelimIndex(t) >= |t| - 1) <==> HasValue(line)
  {
    var t := Stripped(line);
    var a := AssignDelimIndex(t);
    if a < |t| - 1 {
      assert t[..|t| - 1][a] == AssignDelim;
    }
  }

  /**
    The depth `getName` sees is the number of leading tabs of the raw line:
    the name part keeps them, and stripping trailing spaces never reaches them.
   */
  lemma NamePartTabs(line: string, n: nat)
    requires IsTabRun(line, n)
    ensures GetTabCount(NamePart(line)) == n
  {
    var t := Stripped(line);
    TabRunSurvivesStrip(line, n);
    var a := AssignDelimIndex(t);
    var p := t[..a];
    assert n <= a;
    assert IsTabRun(p, n) by {
      forall k | 0 <= k < n ensures p[k] == '\t' {
        assert p[k] == t[k];
      }
      if n < |p| {
        assert p[n] == t[n];
      }
    }
    TabRunSurvivesStrip(p, n);
    TabRunUnique(NamePart(line), n, GetTabCount(NamePart(line)));
  }

  /**
    A line deeper than the stack throws the indentation fault, and only such a
    line does; nothing has changed when it is thrown.
   */
  lemma IndentationFault(st: State, line: string, n: nat)
    requires IsTabRun(line, n)
    ensures (ProcessLine(st, line).Halt? && ProcessLine(st, line).fault == TooManyIndentations)
              <==> n > |st.prefixes|
    ensures n > |st.prefixes| ==> ProcessLine(st, line) == Halt(TooManyIndentations, st)
  {
    NamePartTabs(line, n);
  }

  /**
    An empty name part first clears the stack (its depth is 0) and then
    throws on its first character; the store is untouched.
   */
  lemma EmptyNamePartHalts(st: State, line: string)
    requires NamePart(line) == []
    ensures ProcessLine(st, line) == Halt(StringIndexOutOfBounds, State([], st.variables))
  {
    assert GetTabCount(NamePart(line)) == 0;
  }

  /** Blank lines, all-space lines and lines opening with `=` have an empty name part. */
  lemma EmptyNameParts(line: string)
    requires (forall k :: 0 <= k < |line| ==> line[k] == ' ') || (|line| > 0 && line[0] == AssignDelim)
    ensures NamePart(line) == []
  {
    var t := Stripped(line);
    if |line| > 0 && line[0] == AssignDelim {
      assert !IsLineTerminator(line[0]) && line[0] != ' ';
      assert |t| > 0 && t[0] == AssignDelim by {
        assert t[..|t| - FinalTerminatorLength(line)][0] == line[..|t| - FinalTerminatorLength(line)][0];
      }
      assert AssignDelimIndex(t) == 0;
    } else {
      assert t == [];
    }
  }

  /**
    A name part starting with the list marker, which only happens at depth 0,
    clears the stack, pushes nothing and stores nothing.
   */
  lemma ListMarkerAtTop(st: State, line: string)
    requires |line| > 0 && (line[0] == ArrListChar || line[0] == HashMapChar)
    ensures ProcessLine(st, line) == Continue(State([], st.variables))
  {
    NamePartHead(line);
    var part := NamePart(line);
    assert GetTabCount(part) == 0;
    assert CheckForList(part);
  }

  /** The name part opens with the line's first character when that is neither `=`, a space nor a terminator. */
  lemma NamePartHead(line: string)
    requires |line| > 0 && line[0] != AssignDelim && line[0] != ' ' && !IsLineTerminator(line[0])
    ensures |NamePart(line)| > 0 && NamePart(line)[0] == line[0]
  {
    StripKeepsHead(line);
    var t := Stripped(line);
    var a := AssignDelimIndex(t);
    assert a > 0;
    StripKeepsHead(t[..a]);
  }

  /**
    A line of depth `n` within the stack whose name part is not a list marker:
    the stack is cut to `n` names and the trimmed name part pushed; the value
    is stored under the flattened key exactly when the line has one and the
    key is not empty, replacing any earlier value.
   */
  lemma NameStep(st: State, line: string, n: nat)
    requires IsTabRun(line, n) && n <= |st.prefixes|
    requires NamePart(line) != [] && !CheckForList(NamePart(line))
    ensures
      var stack := st.prefixes[..n];
      var name := Trim(NamePart(line));
      var key := Key(stack, name);
      ProcessLine(st, line) ==
        Continue(State(stack + [name],
          if HasValue(line) && key != [] then st.variables[key := GetValue(ValuePart(line))] else st.variables))
  {
    NamePartTabs(line, n);
    NotEmptyIffHasValue(line);
  }

  /**
    After a line that stores under `key`, `get(key)` yields the new value and
    every other key yields what it did before.
   */
  lemma GetAfterStore(st: State, line: string, n: nat)
    requires IsTabRun(line, n) && n <= |st.prefixes|
    requires NamePart(line) != [] && !CheckForList(NamePart(line))
    requires HasValue(line) && Key(st.prefixes[..n], Trim(NamePart(line))) != []
    ensures
      var key := Key(st.prefixes[..n], Trim(NamePart(line)));
      var next := ProcessLine(st, line).state;
      && Get(next, key) == Some(GetValue(ValuePart(line)))
      && forall other :: other != key ==> Get(next, other) == Get(st, other)
  {
    NameStep(st, line, n);
  }

  /** No line removes a key from the store. */
  lemma ProcessLineKeepsKeys()
    ensures KeepsKeys(ProcessLine)
  {
  }

  /** The store only grows over a pass, up to the first exception included. */
  lemma ReadKeepsKeys(st: State, lines: seq<string>)
    ensures st.variables.Keys <= Read(st, lines).state.variables.Keys
  {
    ProcessLineKeepsKeys();
    RunKeepsKeys(ProcessLine, st, lines);
  }
}
