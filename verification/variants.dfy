/**
  Where the two line processors agree and where they part ways, each taken as
  written.
 */
module Variants {
  import opened JavaString
  import opened Cascade
  import Processor
  import Reader

  /** The recursive tab count of the reader and the loop of the processor count the same tabs. */
  lemma TabCountsAgree(s: string)
    ensures Reader.GetTabCount(s) == Processor.GetIndentCount(s)
  {
    TabRunUnique(s, Reader.GetTabCount(s), Processor.GetIndentCount(s));
  }

  /**
    A line one level beyond the stack (two past the last pushed name): the
    processor accepts it and starts a fresh stack with its name, the reader
    throws the indentation fault and changes nothing.
   */
  lemma OneBeyondTheStack(st: State, line: string, n: nat)
    requires Processor.IsCascadeLine(line) && IsTabRun(line, n) && n == |st.prefixes| + 1
    ensures Processor.ProcessLine(st, line).state.prefixes == [Processor.CascadeName(Trim(line))]
    ensures Reader.ProcessLine(st, line) == Halt(TooManyIndentations, st)
  {
    Processor.StackAfterLine(st, line, n);
    Reader.IndentationFault(st, line, n);
  }

  /** An empty or all-space line: the processor skips it, the reader clears the stack and throws. */
  lemma BlankLine(st: State, line: string)
    requires forall k :: 0 <= k < |line| ==> line[k] == ' '
    ensures Processor.ProcessLine(st, line) == Continue(st)
    ensures Reader.ProcessLine(st, line) == Halt(StringIndexOutOfBounds, State([], st.variables))
  {
    assert Trim(line) == [];
    Processor.InertLine(st, line);
    Reader.EmptyNameParts(line);
    Reader.EmptyNamePartHalts(st, line);
  }

  /**
    A line of tabs only: the processor skips it as blank, the reader takes it
    as an empty name at the depth of its tabs, cutting the stack there and
    pushing "" (or throwing the indentation fault when that depth is beyond
    the stack). The store is left alone either way.
   */
  lemma TabOnlyLine(st: State, line: string)
    requires |line| > 0 && forall k :: 0 <= k < |line| ==> line[k] == '\t'
    ensures Processor.ProcessLine(st, line) == Continue(st)
    ensures |line| > |st.prefixes| ==> Reader.ProcessLine(st, line) == Halt(TooManyIndentations, st)
    ensures |line| <= |st.prefixes| ==>
      Reader.ProcessLine(st, line) == Continue(State(st.prefixes[..|line|] + [""], st.variables))
  {
    assert Trim(line) == [] by {
      assert AllTrimmable(line);
    }
    Processor.InertLine(st, line);
    if |line| > |st.prefixes| {
      assert IsTabRun(line, |line|);
      Reader.IndentationFault(st, line, |line|);
    } else {
      TabOnlyLineWithinStack(st, line);
    }
  }

  lemma TabOnlyLineWithinStack(st: State, line: string)
    requires |line| > 0 && forall k :: 0 <= k < |line| ==> line[k] == '\t'
    requires Trim(line) == [] && |line| <= |st.prefixes|
    ensures Reader.ProcessLine(st, line) == Continue(State(st.prefixes[..|line|] + [""], st.variables))
  {
    assert IsTabRun(line, |line|);
    TabsAreTheirOwnNamePart(line);
    assert !Reader.CheckForList(Reader.NamePart(line));
    Reader.NameStep(st, line, |line|);
  }

  /** A line of tabs has no trailing spaces and no `=`, so it is its own name part. */
  lemma TabsAreTheirOwnNamePart(line: string)
    requires |line| > 0 && forall k :: 0 <= k < |line| ==> line[k] == '\t'
    ensures Reader.NamePart(line) == line && !Reader.HasValue(line)
  {
    assert HasNoLineTerminator(line);
    StripTrailingSpacesOfPlainLine(line);
    assert TrailingSpaces(line) == 0 by {
      assert line[|line| - 1] != ' ';
    }
    assert Reader.Stripped(line) == line;
    assert Reader.AssignDelim !in line by {
      forall k | 0 <= k < |line| ensures line[k] != Reader.AssignDelim {
        assert line[k] == '\t';
      }
    }
    assert line[..Reader.AssignDelimIndex(line)] == line;
  }
}
