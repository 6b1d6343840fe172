/**
  What both parser variants share: the state a parser instance owns (the
  prefix stack and the flat key/value store), the exceptions a line can raise,
  how a flattened key is composed from the stack, and the fold that feeds the
  lines of a file to a per-line step, stopping at the first exception.
 */
module Cascade {
  import opened JavaString

  /** Separator between the segments of a flattened key. */
  const PrefixDelim: string := "_"

  datatype Option<T> = None | Some(value: T)

  /** The two fields a parser instance owns. */
  datatype State = State(prefixes: seq<string>, variables: map<string, string>)

  /** The exceptions a line can raise. */
  datatype Fault =
    | TooManyIndentations     // IndentationException("Too Many Indentations")
    | StringIndexOutOfBounds  // substring or charAt outside the string

  datatype Result<T> = Ok(value: T) | Err(fault: Fault)

  /**
    The effect of one line: the next state, or the exception together with the
    state the instance is left in when it is thrown.
   */
  datatype Outcome = Continue(state: State) | Halt(fault: Fault, state: State)

  /** `n` is the number of tab characters `s` starts with. */
  predicate IsTabRun(s: string, n: nat) {
    && n <= |s|
    && (forall k :: 0 <= k < n ==> s[k] == '\t')
    && (n < |s| ==> s[n] != '\t')
  }

  lemma TabRunUnique(s: string, n: nat, m: nat)
    requires IsTabRun(s, n) && IsTabRun(s, m)
    ensures n == m
  {
  }

  /**
    Removing trailing spaces never changes the tab count: what is removed is
    a run of spaces at the end, or just before a final line terminator.
   */
  lemma TabRunSurvivesStrip(s: string, n: nat)
    requires IsTabRun(s, n)
    ensures IsTabRun(StripTrailingSpaces(s), n)
  {
    var r := StripTrailingSpaces(s);
    var t := FinalTerminatorLength(s);
    var m := |r| - t;
    assert m < |s| ==> s[m] != '\t' by {
      if m < |s| {
        assert s[m] == ' ' || IsLineTerminator(s[m]);
      }
    }
    assert m < |r| ==> r[m] != '\t' by {
      if m < |r| {
        assert r[m] == r[m..][0];
        assert IsLineTerminator(s[|s| - t]);
      }
    }
    TabRunOfSamePrefix(s, r, n, m);
  }

  /** Two strings that agree up to a non-tab (or their end) at `m` start with the same tabs. */
  lemma TabRunOfSamePrefix(s: string, r: string, n: nat, m: nat)
    requires IsTabRun(s, n)
    requires m <= |s| && m <= |r| && r[..m] == s[..m]
    requires m < |s| ==> s[m] != '\t'
    requires m < |r| ==> r[m] != '\t'
    ensures IsTabRun(r, n)
  {
    assert n <= m;
    forall k | 0 <= k < n
      ensures r[k] == '\t'
    {
      assert r[k] == r[..m][k];
    }
    if n < m {
      assert r[n] == r[..m][n];
    }
  }

  /** The text put before a name: the joined stack, plus a separator when that join is non-empty. */
  function KeyPrefix(stack: seq<string>): string {
    var joined := Join(PrefixDelim, stack);
    joined + (if |joined| > 0 then PrefixDelim else "")
  }

  /** The flattened key of `name` under `stack`. */
  function Key(stack: seq<string>, name: string): string {
    KeyPrefix(stack) + name
  }

  /**
    The flattened key is the `_`-join of the ancestor names followed by the
    line's own name, on every stack but one: a stack holding a single empty
    name joins to the empty string, so no separator is added before the name.
   */
  lemma KeyIsJoinedPath(stack: seq<string>, name: string)
    ensures Key(stack, name) == Join(PrefixDelim, stack + [name]) <==> stack != [[]]
  {
    if |stack| == 0 {
      assert stack + [name] == [name];
    } else if stack == [[]] {
      assert stack + [name] == [[], name];
      assert |Join(PrefixDelim, stack + [name])| == |name| + 1;
    } else {
      assert Join(PrefixDelim, stack) != [];
      JoinSnoc(PrefixDelim, stack, name);
    }
  }

  /**
    An empty name alone on the stack joins to the empty string, so no separator
    is added and it leaves no trace in the key; two of them do.
   */
  lemma KeyUnderEmptyNames(name: string)
    ensures Key([[]], name) == name
    ensures Join(PrefixDelim, [[], name]) == PrefixDelim + name
    ensures Key([[], []], name) == PrefixDelim + PrefixDelim + name
  {
  }

  /** Feeds `lines` to `step` in order, stopping at the first exception. */
  function Run(step: (State, string) -> Outcome, st: State, lines: seq<string>): Outcome
    decreases |lines|
  {
    if |lines| == 0 then Continue(st)
    else
      match step(st, lines[0])
      case Continue(next) => Run(step, next, lines[1..])
      case Halt(f, at) => Halt(f, at)
  }

  /** Running two blocks of lines is running the first, then the second from where it left off. */
  lemma {:induction false} RunAppend(step: (State, string) -> Outcome, st: State, a: seq<string>, b: seq<string>)
    ensures Run(step, st, a + b) ==
              match Run(step, st, a)
              case Continue(mid) => Run(step, mid, b)
              case Halt(f, at) => Halt(f, at)
    decreases |a|
  {
    if |a| == 0 {
      assert a + b == b;
    } else {
      assert (a + b)[0] == a[0];
      assert (a + b)[1..] == a[1..] + b;
      match step(st, a[0])
      case Continue(next) => RunAppend(step, next, a[1..], b);
      case Halt(f, at) =>
    }
  }

  /** A line that no state reacts to can be dropped from any input. */
  lemma RunSkipsInertLine(step: (State, string) -> Outcome, st: State, a: seq<string>, line: string, b: seq<string>)
    requires forall s :: step(s, line) == Continue(s)
    ensures Run(step, st, a + [line] + b) == Run(step, st, a + b)
  {
    RunAppend(step, st, a, [line] + b);
    RunAppend(step, st, a, b);
    assert a + [line] + b == a + ([line] + b);
    match Run(step, st, a)
    case Continue(mid) =>
      assert step(mid, line) == Continue(mid);
      assert ([line] + b)[1..] == b;
    case Halt(_, _) =>
  }

  /** A step that never removes a key from the store. */
  ghost predicate KeepsKeys(step: (State, string) -> Outcome) {
    forall st: State, line: string :: st.variables.Keys <= step(st, line).state.variables.Keys
  }

  /** The store only grows over a run, whether or not it ends in an exception. */
  lemma {:induction false} RunKeepsKeys(step: (State, string) -> Outcome, st: State, lines: seq<string>)
    requires KeepsKeys(step)
    ensures st.variables.Keys <= Run(step, st, lines).state.variables.Keys
    decreases |lines|
  {
    if |lines| > 0 {
      assert st.variables.Keys <= step(st, lines[0]).state.variables.Keys;
      match step(st, lines[0])
      case Continue(next) => RunKeepsKeys(step, next, lines[1..]);
      case Halt(_, _) =>
    }
  }
}
