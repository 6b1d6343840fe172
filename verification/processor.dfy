/**
  `ILCFProcessor`, the newer line processor. A line is classified on its
  fully trimmed form: blank and list lines change nothing, every other line is
  a cascade element (a label when it has no `=`, an assignment otherwise).
  Its depth is the number of leading tabs; the stack is cut back to that depth,
  the line's name is pushed, and an assignment stores its value under the
  flattened key.
 */
module Processor {
  import opened JavaString
  import opened Cascade

  const AssignDelim: char := '='
  const CommentDelim: char := '#'
  const ArrListChar: char := '-'
  const HashMapChar: char := '*'

  /** `processLine`. */
  function ProcessLine(st: State, line: string): Outcome {
    var partial := StripTrailingSpaces(line);
    var full := Trim(line);
    if |full| == 0 then Continue(st)
    else if IsListElement(full) then Continue(ProcessListElement(st, full))
    else ProcessCascadeElement(st, partial, full)
  }

  /** Feeds the lines of a file to `ProcessLine`, stopping at the first exception. */
  function ProcessLines(st: State, lines: seq<string>): Outcome {
    Run(ProcessLine, st, lines)
  }

  /** `isListElement`: the content starts with a list marker. */
  predicate IsListElement(full: string)
    requires |full| > 0
  {
    full[0] == ArrListChar || full[0] == HashMapChar
  }

  /** `isEmptyListElement`: nothing follows the marker. */
  predicate IsEmptyListElement(full: string) {
    |full| < 2
  }

  /**
    `processListElement`. An empty element (`IsEmptyListElement`) returns at
    once, and materialising any other element is unfinished in the source, so
    either way nothing is stored and the stack is unchanged.
   */
  function ProcessListElement(st: State, full: string): State {
    st
  }

  /** `processCascadeElement`. */
  function ProcessCascadeElement(st: State, partial: string, full: string): Outcome {
    var assignDelimIndex := GetAssignDelimIndex(full);
    var isLabel := assignDelimIndex == |full|;
    var name := CascadeName(full);
    match GetPrefix(st.prefixes, partial, name)
    case Err(f) => Halt(f, st)
    case Ok((stack, prefix)) =>
      var pushed := st.(prefixes := stack);
      if isLabel then Continue(pushed)
      else
        match GetValue(full, assignDelimIndex)
        case Err(f) => Halt(f, pushed)
        case Ok(value) => Continue(pushed.(variables := st.variables[prefix + name := value]))
  }

  /** The name a cascade line pushes: the whole content of a label, the trimmed text before `=` otherwise. */
  function CascadeName(full: string): string {
    var assignDelimIndex := GetAssignDelimIndex(full);
    if assignDelimIndex == |full| then full else GetName(full, assignDelimIndex)
  }

  /**
    `getPrefix(String, String)`: cuts the stack back to the line's depth (or
    throws), computes the prefix from what is left, then pushes `name`.
   */
  function GetPrefix(stack: seq<string>, partial: string, name: string): Result<(seq<string>, string)> {
    var indentCount := GetIndentCount(partial);
    match UpdateCascade(stack, indentCount)
    case Err(f) => Err(f)
    case Ok(cascaded) => Ok((cascaded + [name], KeyPrefix(cascaded)))
  }

  /**
    The stack left for a line at depth `indent`: its first `indent` names, or
    nothing at all when the line is one level deeper than the stack.
   */
  function CascadedStack(stack: seq<string>, indent: nat): seq<string> {
    if indent <= |stack| then stack[..indent] else []
  }

  /** `updateCascade`: the depth check comes first, so a fault leaves the stack alone. */
  function UpdateCascade(stack: seq<string>, indentCount: nat): (r: Result<seq<string>>)
    ensures r.Err? <==> indentCount > |stack| + 1
    ensures r.Err? ==> r.fault == TooManyIndentations
    ensures r.Ok? ==> r.value == CascadedStack(stack, indentCount)
  {
    if indentCount > |stack| + 1 then Err(TooManyIndentations)
    else Ok(PopUntil(stack, indentCount))
  }

  /**
    The loop of `updateCascade`: remove the last name while the stack is
    non-empty and its size differs from `indentCount`. A count above the size
    never meets the size test, so the stack runs empty.
   */
  function PopUntil(stack: seq<string>, indentCount: nat): (r: seq<string>)
    ensures indentCount <= |stack| ==> r == stack[..indentCount]
    ensures indentCount > |stack| ==> r == []
    decreases |stack|
  {
    if |stack| == 0 || indentCount == |stack| then stack
    else PopUntil(stack[..|stack| - 1], indentCount)
  }

  /** `getIndentCount`. */
  function GetIndentCount(line: string): (n: nat)
    ensures IsTabRun(line, n)
  {
    CountTabs(line, 0)
  }

  /** The loop of `getIndentCount`: while the line starts with a tab, drop it and count it. */
  function CountTabs(line: string, count: nat): (n: nat)
    ensures n >= count && IsTabRun(line, n - count)
    decreases |line|
  {
    if |line| > 0 && line[0] == '\t' then CountTabs(line[1..], count + 1) else count
  }

  /** `getName`. */
  function GetName(full: string, assignDelimIndex: nat): string
    requires assignDelimIndex <= |full|
  {
    Trim(full[..assignDelimIndex])
  }

  /** `getAssignDelimIndex`: the first `=`, or the length of the line for a label. */
  function GetAssignDelimIndex(full: string): (r: nat)
    ensures r <= |full|
    ensures r == |full| <==> AssignDelim !in full
    ensures r < |full| ==> full[r] == AssignDelim && AssignDelim !in full[..r]
  {
    var i := IndexOf(full, AssignDelim);
    if i == -1 then |full| else i
  }

  /** Position `i` of `s` holds a `#` that no backslash escapes. */
  predicate IsCommentStart(s: string, i: int) {
    0 <= i < |s| && s[i] == CommentDelim && (i == 0 || s[i - 1] != '\\')
  }

  /** `e` is where a value stops: the first unescaped `#`, or the end of the line. */
  predicate IsValueEnd(s: string, e: int) {
    && 0 <= e <= |s|
    && (forall i :: 0 <= i < e ==> !IsCommentStart(s, i))
    && (e < |s| ==> IsCommentStart(s, e))
  }

  /**
    `replace("\\#", "\\\\")`: every backslash-hash pair, scanned left to right,
    becomes two backslashes, so exactly the unescaped `#`s survive, each at its
    old position.
   */
  function EscapeCommentDelims(s: string): (r: string)
    ensures |r| == |s|
    ensures forall i :: 0 <= i < |s| ==> (r[i] == CommentDelim <==> IsCommentStart(s, i))
    decreases |s|
  {
    if |s| < 2 then s
    else if s[0] == '\\' && s[1] == CommentDelim then
      var rest := EscapeCommentDelims(s[2..]);
      assert forall i :: 2 <= i < |s| ==> (IsCommentStart(s, i) <==> IsCommentStart(s[2..], i - 2));
      ['\\', '\\'] + rest
    else
      var rest := EscapeCommentDelims(s[1..]);
      assert forall i :: 1 <= i < |s| ==> (IsCommentStart(s, i) <==> IsCommentStart(s[1..], i - 1));
      [s[0]] + rest
  }

  /** `getCommentDelimLocation`: the first unescaped `#`, or -1. */
  function GetCommentDelimLocation(full: string): (c: int)
    ensures -1 <= c < |full|
    ensures c == -1 <==> forall i :: 0 <= i < |full| ==> !IsCommentStart(full, i)
    ensures c >= 0 ==> IsCommentStart(full, c) && forall i :: 0 <= i < c ==> !IsCommentStart(full, i)
  {
    var escaped := EscapeCommentDelims(full);
    var c := IndexOf(escaped, CommentDelim);
    assert c >= 0 ==> forall i :: 0 <= i < c ==> escaped[i] == escaped[..c][i];
    c
  }

  /**
    `getValue`: the text after `=` up to the first unescaped `#`, trimmed. A
    `\#` stays in the value as written. When the `#` comes before the text
    starts, `substring` throws.
   */
  function GetValue(full: string, assignDelimIndex: nat): (r: Result<string>)
    requires assignDelimIndex < |full|
    ensures r.Ok? <==> forall i :: 0 <= i <= assignDelimIndex ==> !IsCommentStart(full, i)
    ensures r.Err? ==> r.fault == StringIndexOutOfBounds
    ensures r.Ok? ==> forall e {:trigger IsValueEnd(full, e)} :: IsValueEnd(full, e) ==>
              assignDelimIndex < e && r.value == Trim(full[assignDelimIndex + 1..e])
  {
    var commentIndex := GetCommentDelimLocation(full);
    if commentIndex < 0 then
      assert forall e :: IsValueEnd(full, e) ==> e == |full| by {
        forall e | IsValueEnd(full, e) ensures e == |full| {
          ValueEndIsCommentLocation(full, e);
        }
      }
      assert full[assignDelimIndex + 1..] == full[assignDelimIndex + 1..|full|];
      Ok(Trim(full[assignDelimIndex + 1..]))
    else if assignDelimIndex + 1 > commentIndex then Err(StringIndexOutOfBounds)
    else
      assert forall e :: IsValueEnd(full, e) ==> e == commentIndex by {
        forall e | IsValueEnd(full, e) ensures e == commentIndex {
          ValueEndIsCommentLocation(full, e);
        }
      }
      Ok(Trim(full[assignDelimIndex + 1..commentIndex]))
  }

  /** A value ends exactly where `getCommentDelimLocation` points, or at the end of the line. */
  lemma ValueEndIsCommentLocation(full: string, e: int)
    requires IsValueEnd(full, e)
    ensures var c := GetCommentDelimLocation(full); e == if c < 0 then |full| else c
  {
  }

  /** Neither blank nor a list line: the line is a label or an assignment. */
  predicate IsCascadeLine(line: string) {
    var full := Trim(line);
    |full| > 0 && !IsListElement(full)
  }

  /** A blank line, or a line starting with `-` or `*`, changes neither the stack nor the store. */
  lemma InertLine(st: State, line: string)
    requires !IsCascadeLine(line)
    ensures ProcessLine(st, line) == Continue(st)
  {
  }

  /** So list bodies are never materialised: such lines can be struck from any input. */
  lemma InertLinesCanBeDropped(st: State, a: seq<string>, line: string, b: seq<string>)
    requires !IsCascadeLine(line)
    ensures ProcessLines(st, a + [line] + b) == ProcessLines(st, a + b)
  {
    forall s: State
      ensures ProcessLine(s, line) == Continue(s)
    {
      InertLine(s, line);
    }
    RunSkipsInertLine(ProcessLine, st, a, line, b);
  }

  /** The depth is the number of leading tabs of the raw line; trailing spaces do not matter. */
  lemma DepthIsLeadingTabs(line: string, n: nat)
    requires IsTabRun(line, n)
    ensures GetIndentCount(StripTrailingSpaces(line)) == n
  {
    TabRunSurvivesStrip(line, n);
    TabRunUnique(StripTrailingSpaces(line), n, GetIndentCount(StripTrailingSpaces(line)));
  }

  /**
    A cascade line throws the indentation fault exactly when it is more than
    one level deeper than the stack, and then nothing has changed.
   */
  lemma IndentationFault(st: State, line: string, n: nat)
    requires IsCascadeLine(line) && IsTabRun(line, n)
    ensures (ProcessLine(st, line).Halt? && ProcessLine(st, line).fault == TooManyIndentations)
              <==> n > |st.prefixes| + 1
    ensures n > |st.prefixes| + 1 ==> ProcessLine(st, line) == Halt(TooManyIndentations, st)
  {
    var full := Trim(line);
    var partial := StripTrailingSpaces(line);
    DepthIsLeadingTabs(line, n);
    assert ProcessLine(st, line) == ProcessCascadeElement(st, partial, full);
    var idx := GetAssignDelimIndex(full);
    var name := if idx == |full| then full else GetName(full, idx);
    var prefix := GetPrefix(st.prefixes, partial, name);
    assert prefix.Err? <==> n > |st.prefixes| + 1;
    if prefix.Ok? && idx < |full| {
      assert GetValue(full, idx).Err? ==> GetValue(full, idx).fault == StringIndexOutOfBounds;
    }
  }

  /**
    A label (no `=`) is pushed whole, `#` text included, on the stack cut
    back to its depth; the store is untouched.
   */
  lemma LabelStep(st: State, line: string, n: nat)
    requires IsCascadeLine(line) && AssignDelim !in Trim(line)
    requires IsTabRun(line, n) && n <= |st.prefixes| + 1
    ensures ProcessLine(st, line) == Continue(State(CascadedStack(st.prefixes, n) + [Trim(line)], st.variables))
  {
    DepthIsLeadingTabs(line, n);
  }

  /**
    An assignment with its first `=` at `eq` and its value ending at `end`:
    the name is pushed on the stack cut back to its depth, and the value is
    stored under the flattened key, replacing any earlier value. When an
    unescaped `#` comes before the `=`, `substring` throws after the push.
   */
  lemma AssignmentStep(st: State, line: string, n: nat, eq: nat, end: nat)
    requires IsCascadeLine(line)
    requires IsTabRun(line, n) && n <= |st.prefixes| + 1
    requires eq < |Trim(line)| && Trim(line)[eq] == AssignDelim && AssignDelim !in Trim(line)[..eq]
    requires IsValueEnd(Trim(line), end)
    ensures
      var full := Trim(line);
      var stack := CascadedStack(st.prefixes, n);
      var name := Trim(full[..eq]);
      ProcessLine(st, line) ==
        if end < eq then Halt(StringIndexOutOfBounds, State(stack + [name], st.variables))
        else Continue(State(stack + [name], st.variables[Key(stack, name) := Trim(full[eq + 1..end])]))
  {
    TabRunSurvivesStrip(line, n);
    CascadeAssignment(st, StripTrailingSpaces(line), Trim(line), n, eq, end);
  }

  /** `AssignmentStep`, stated on the two trimmed views of the line. */
  lemma CascadeAssignment(st: State, partial: string, full: string, n: nat, eq: nat, end: nat)
    requires IsTabRun(partial, n) && n <= |st.prefixes| + 1
    requires eq < |full| && full[eq] == AssignDelim && AssignDelim !in full[..eq]
    requires IsValueEnd(full, end)
    ensures
      var stack := CascadedStack(st.prefixes, n);
      var name := Trim(full[..eq]);
      ProcessCascadeElement(st, partial, full) ==
        if end < eq then Halt(StringIndexOutOfBounds, State(stack + [name], st.variables))
        else Continue(State(stack + [name], st.variables[Key(stack, name) := Trim(full[eq + 1..end])]))
  {
    var stack := CascadedStack(st.prefixes, n);
    var name := Trim(full[..eq]);
    TabRunUnique(partial, n, GetIndentCount(partial));
    assert GetAssignDelimIndex(full) == eq;
    assert GetPrefix(st.prefixes, partial, name) == Ok((stack + [name], KeyPrefix(stack)));
    if end < eq {
      assert IsCommentStart(full, end);
      assert GetValue(full, eq) == Err(StringIndexOutOfBounds);
    } else {
      assert end != eq;
      assert GetValue(full, eq) == Ok(Trim(full[eq + 1..end]));
    }
  }

  /** No line removes a key from the store. */
  lemma ProcessLineKeepsKeys()
    ensures KeepsKeys(ProcessLine)
  {
    forall st: State, line: string
      ensures st.variables.Keys <= ProcessLine(st, line).state.variables.Keys
    {
      var full := Trim(line);
      if |full| > 0 && !IsListElement(full) {
        CascadeKeepsKeys(st, StripTrailingSpaces(line), full);
      }
    }
  }

  lemma CascadeKeepsKeys(st: State, partial: string, full: string)
    ensures st.variables.Keys <= ProcessCascadeElement(st, partial, full).state.variables.Keys
  {
    var idx := GetAssignDelimIndex(full);
    var name := CascadeName(full);
    match GetPrefix(st.prefixes, partial, name)
    case Err(_) =>
    case Ok((stack, prefix)) =>
      if idx < |full| {
        match GetValue(full, idx)
        case Err(_) =>
        case Ok(value) => assert st.variables.Keys <= st.variables[prefix + name := value].Keys;
      }
  }

  /** The store only grows over a pass, up to the first exception included. */
  lemma ProcessLinesKeepsKeys(st: State, lines: seq<string>)
    ensures st.variables.Keys <= ProcessLines(st, lines).state.variables.Keys
  {
    ProcessLineKeepsKeys();
    RunKeepsKeys(ProcessLine, st, lines);
  }

  /**
    Whatever happens to the value, a cascade line that passes the depth check
    leaves the stack cut back to its depth with its name on top. One level
    beyond the stack is accepted and empties it first, so a jump of two levels
    past the last pushed name is not an error.
   */
  lemma StackAfterLine(st: State, line: string, n: nat)
    requires IsCascadeLine(line) && IsTabRun(line, n) && n <= |st.prefixes| + 1
    ensures ProcessLine(st, line).state.prefixes == CascadedStack(st.prefixes, n) + [CascadeName(Trim(line))]
    ensures n == |st.prefixes| + 1 ==> ProcessLine(st, line).state.prefixes == [CascadeName(Trim(line))]
  {
    TabRunSurvivesStrip(line, n);
    CascadeStack(st, StripTrailingSpaces(line), Trim(line), n);
  }

  /** `StackAfterLine`, stated on the two trimmed views of the line. */
  lemma CascadeStack(st: State, partial: string, full: string, n: nat)
    requires IsTabRun(partial, n) && n <= |st.prefixes| + 1
    ensures ProcessCascadeElement(st, partial, full).state.prefixes == CascadedStack(st.prefixes, n) + [CascadeName(full)]
  {
    var name := CascadeName(full);
    TabRunUnique(partial, n, GetIndentCount(partial));
    assert GetPrefix(st.prefixes, partial, name) == Ok((CascadedStack(st.prefixes, n) + [name], KeyPrefix(CascadedStack(st.prefixes, n))));
  }
}
