# ILCF cascade parser, modelled in Dafny

The Indented Line Configuration Format is read one line at a time. The reader
keeps a stack of prefix names: a line's depth is its number of leading tabs,
the stack is cut back to that depth, and a `name = value` line is stored in one
flat map. Its key is the stack joined with `_`, followed by `_` (when that
join is non-empty) and the name.
Every cascade line (a label or an assignment) then pushes its name, so deeper
lines nest under it.

The repository holds two separate implementations of this state machine, and
they disagree on several details. Each is modelled as written, in its own
module:

- `Processor` is `ILCFProcessor`, the newer one.
  - A line whose trimmed text is blank, or starts with `-` or `*`, is a no-op.
  - It raises the indentation fault only when the depth exceeds the stack size
    plus one.
  - A value ends at the first `#` without a backslash in front of it.
- `Reader` is `ILCFReader`, the older one.
  - It raises the indentation fault when the depth exceeds the stack size.
  - A name part that is empty once its trailing spaces are removed clears the
    stack and then throws.
  - List markers are recognised only at depth 0.
  - A value is cut only at the last `#`.

Shared pieces:

- `JavaString` holds the Java string operations the code relies on:
  - `trim()` removes every character at or below U+0020;
  - `replaceAll(" ++$", "")`, whose `$` also matches before a final line terminator;
  - `indexOf` and `lastIndexOf`, which return -1 when the character is absent;
  - `String.join`.
- `Cascade` holds the rest:
  - the state each instance owns, the prefix stack and the store;
  - the exceptions a line can raise;
  - how a key is composed;
  - the fold that feeds lines to a step and stops at the first exception.
- `Variants` states where the two implementations agree and where they differ.

A step returns `Continue(state)` or `Halt(fault, state)`. The state in `Halt`
is the instance as the exception leaves it. For example, `ILCFProcessor`
pushes the name before the value's `substring` throws.

Four points of the code's behaviour are easy to miss:

- **Depth one beyond the stack.** `ILCFProcessor` accepts any depth up to the
  stack size plus one. At that depth its pop loop never meets the size test,
  so it empties the stack, pushes the line's name and continues
  (`Processor.StackAfterLine`). So `x = 1` followed by a line with two tabs is
  not an error there. `ILCFReader` raises the indentation fault for the same
  line (`Variants.OneBeyondTheStack`).
- **String exceptions.** Besides `IndentationException`, `ILCFProcessor`
  can throw from `substring` and `ILCFReader` from `charAt` on some lines. These are modelled as the
  `StringIndexOutOfBounds` fault (`Processor.AssignmentStep`,
  `Reader.EmptyNamePartHalts`).
- **Escaped `#`.** An escaped `\#` does not end a value, and it stays in the
  stored value as written, backslash included (`Processor.GetValue`).
- **A line of tabs only.** `ILCFProcessor` trims the line to nothing and skips
  it. `ILCFReader` removes only spaces, so the tabs give a depth and an empty
  name. Within the stack, it cuts the stack at that depth and pushes "".
  Beyond the stack, it raises the indentation fault (`Variants.TabOnlyLine`).
  Only a line that is empty or all spaces makes the reader clear the stack and
  throw (`Variants.BlankLine`).

## Model

| member | source | states |
|---|---|---|
| JavaString.Trim | src/me/jaysonfong/ilcf/reader/ILCFProcessor.java:150 | `trim()` never lengthens a string. The result is empty exactly when every character is at or below U+0020. Otherwise neither end of the result is removable. |
| JavaString.TrimIsInfix | src/me/jaysonfong/ilcf/reader/ILCFProcessor.java:150 | The trimmed text sits inside the original, and only removable characters surround it. |
| JavaString.TrimIsUnique | src/me/jaysonfong/ilcf/reader/ILCFProcessor.java:150 | Any infix surrounded by removable characters that has none at its own ends is the trim, so trim is fully determined by those properties. |
| JavaString.StripTrailingSpaces | src/me/jaysonfong/ilcf/reader/ILCFProcessor.java:149 | `replaceAll(" ++$", "")` keeps everything before the removed run and keeps the final line terminator. It removes only U+0020 characters, and removes the whole run before the terminator or end. |
| JavaString.StripTrailingSpacesOfPlainLine | src/me/jaysonfong/ilcf/reader/ILCFReader.java:170-172 | On a line without terminators, which is what a line reader yields, only the trailing spaces are removed. |
| JavaString.IndexOf | src/me/jaysonfong/ilcf/reader/ILCFProcessor.java:135 | `indexOf` returns -1 exactly when the character is absent. Otherwise it returns a position holding it with no earlier occurrence. |
| JavaString.LastIndexOf | src/me/jaysonfong/ilcf/reader/ILCFReader.java:240 | `lastIndexOf` returns -1 exactly when the character is absent. Otherwise it returns a position holding it with no later occurrence. |
| JavaString.Join | src/me/jaysonfong/ilcf/reader/ILCFProcessor.java:119 | With a non-empty separator, the join is empty exactly when there are no parts or a single empty part. |
| JavaString.JoinSnoc | src/me/jaysonfong/ilcf/reader/ILCFReader.java:227 | Joining one more part appends the separator and then that part. |
| Cascade.TabRunSurvivesStrip | src/me/jaysonfong/ilcf/reader/ILCFProcessor.java:147-152 | Removing trailing spaces never changes the number of leading tabs. |
| Cascade.KeyIsJoinedPath | src/me/jaysonfong/ilcf/reader/ILCFProcessor.java:102-120 | The key is the `_`-join of the stack followed by the name exactly when the stack is not a single empty name. Empty names are reachable, for example from a line `= 1`. A lone empty name joins to "", so `getPrefix` adds no separator. |
| Cascade.KeyUnderEmptyNames | src/me/jaysonfong/ilcf/reader/ILCFReader.java:226-230 | A single empty stacked name joins to "" and leaves no trace in the key. Two of them leave a `__`. |
| Cascade.KeyPrefix | src/me/jaysonfong/ilcf/reader/ILCFProcessor.java:106-120 | The text put before a name: the joined stack, plus `_` when that join is non-empty. Its behaviour is stated by `Cascade.KeyIsJoinedPath` and `Cascade.KeyUnderEmptyNames`. |
| Cascade.Key | src/me/jaysonfong/ilcf/reader/ILCFReader.java:226-230 | The flattened key, the prefix followed by the name. Its behaviour is stated by `Cascade.KeyIsJoinedPath` and `Cascade.KeyUnderEmptyNames`. |
| Cascade.Run | src/me/jaysonfong/ilcf/reader/ILCFReader.java:72-77 | The fold of a step over the lines that stops at the first exception. Its behaviour is stated by `Cascade.RunAppend`, `Cascade.RunSkipsInertLine` and `Cascade.RunKeepsKeys`. |
| Cascade.RunAppend | src/me/jaysonfong/ilcf/reader/ILCFReader.java:72-77 | Reading two blocks of lines is reading the first, then the second from where the first left off. An exception in the first block ends the pass. |
| Cascade.RunSkipsInertLine | src/me/jaysonfong/ilcf/reader/ILCFReader.java:72-77 | A line that no state reacts to can be removed from any input without changing the outcome. |
| Cascade.RunKeepsKeys | src/me/jaysonfong/ilcf/reader/ILCFReader.java:72-77 | If no single line removes a key, a whole pass removes none, even when it ends in an exception. |
| Processor.ProcessLine | src/me/jaysonfong/ilcf/reader/ILCFProcessor.java:58-64 | `processLine`. Its behaviour is stated by `Processor.InertLine`, `Processor.IndentationFault`, `Processor.LabelStep`, `Processor.AssignmentStep` and `Processor.StackAfterLine`. |
| Processor.ProcessLines | src/me/jaysonfong/ilcf/reader/ILCFProcessor.java:58-64 | `processLine` applied to each line in turn, stopping at the first exception. Its behaviour is stated by `Processor.InertLinesCanBeDropped` and `Processor.ProcessLinesKeepsKeys`. |
| Processor.IsListElement | src/me/jaysonfong/ilcf/reader/ILCFProcessor.java:154-159 | `isListElement` holds when the trimmed line starts with `-` or `*`. Its effect is stated by `Processor.InertLine`. |
| Processor.IsEmptyListElement | src/me/jaysonfong/ilcf/reader/ILCFProcessor.java:75-77 | `isEmptyListElement` holds for a marker with nothing after it. Both outcomes leave the state alone (`Processor.InertLine`). |
| Processor.ProcessListElement | src/me/jaysonfong/ilcf/reader/ILCFProcessor.java:70-73 | `processListElement` stores nothing and leaves the stack unchanged. This is stated by `Processor.InertLine` and `Processor.InertLinesCanBeDropped`. |
| Processor.ProcessCascadeElement | src/me/jaysonfong/ilcf/reader/ILCFProcessor.java:83-93 | `processCascadeElement`. Its behaviour is stated by `Processor.CascadeAssignment`, `Processor.CascadeStack` and `Processor.CascadeKeepsKeys`. |
| Processor.CascadeName | src/me/jaysonfong/ilcf/reader/ILCFProcessor.java:85-87 | The name a cascade line pushes: the whole trimmed line for a label, otherwise the trimmed text before `=`. It is used by `Processor.StackAfterLine`. |
| Processor.GetPrefix | src/me/jaysonfong/ilcf/reader/ILCFProcessor.java:102-109 | `getPrefix`: cut the stack (or throw), compute the prefix from what is left, then push the name. Its behaviour is stated by `Processor.CascadeAssignment` and `Processor.CascadeStack`. |
| Processor.GetName | src/me/jaysonfong/ilcf/reader/ILCFProcessor.java:129-132 | `getName` is the trimmed text before `=`. It is pushed and keyed as `Processor.AssignmentStep` states. |
| Processor.UpdateCascade | src/me/jaysonfong/ilcf/reader/ILCFProcessor.java:122-127 | `updateCascade` throws the indentation fault exactly when the depth exceeds the stack size plus one, before popping anything. Otherwise the stack keeps its first `depth` names. At a depth of size plus one it is emptied. |
| Processor.PopUntil | src/me/jaysonfong/ilcf/reader/ILCFProcessor.java:125-126 | The pop loop leaves the first `depth` names, or an empty stack when the depth is above the size. |
| Processor.GetIndentCount | src/me/jaysonfong/ilcf/reader/ILCFProcessor.java:166-173 | The counting loop returns the number of leading tabs. |
| Processor.CountTabs | src/me/jaysonfong/ilcf/reader/ILCFProcessor.java:167-171 | After counting `count` tabs, the loop ends with `count` plus the number of leading tabs of what is left. |
| Processor.GetAssignDelimIndex | src/me/jaysonfong/ilcf/reader/ILCFProcessor.java:134-141 | Returns the first `=`, or the length of the line exactly when there is no `=` (a label). |
| Processor.EscapeCommentDelims | src/me/jaysonfong/ilcf/reader/ILCFProcessor.java:162 | `replace("\\#", "\\\\")` keeps the length. A `#` remains at a position exactly when the original has a `#` there with no backslash before it. |
| Processor.GetCommentDelimLocation | src/me/jaysonfong/ilcf/reader/ILCFProcessor.java:161-164 | Returns the first `#` with no backslash before it, or -1 exactly when there is none. |
| Processor.GetValue | src/me/jaysonfong/ilcf/reader/ILCFProcessor.java:95-100 | `getValue` succeeds exactly when no unescaped `#` comes up to the `=`. Otherwise `substring` throws. The value is the trimmed text between the `=` and the first unescaped `#` or the end of the line. |
| Processor.ValueEndIsCommentLocation | src/me/jaysonfong/ilcf/reader/ILCFProcessor.java:96-99 | The point where a value ends is exactly where `getCommentDelimLocation` points, or the end of the line. |
| Processor.InertLine | src/me/jaysonfong/ilcf/reader/ILCFProcessor.java:58-73 | A line that trims to nothing, or one whose trimmed text starts with `-` or `*`, leaves the stack and the store unchanged. |
| Processor.InertLinesCanBeDropped | src/me/jaysonfong/ilcf/reader/ILCFProcessor.java:58-73 | List bodies are never materialised: such lines can be removed from any input without changing the outcome. |
| Processor.DepthIsLeadingTabs | src/me/jaysonfong/ilcf/reader/ILCFProcessor.java:147-152 | The depth is the number of leading tabs of the raw line, whatever trailing spaces it has. |
| Processor.IndentationFault | src/me/jaysonfong/ilcf/reader/ILCFProcessor.java:122-124 | A cascade line throws the indentation fault exactly when its depth exceeds the stack size plus one. The instance is then unchanged. |
| Processor.LabelStep | src/me/jaysonfong/ilcf/reader/ILCFProcessor.java:83-92 | A label pushes its whole trimmed text, `#` text included, onto the cut stack. The store is unchanged. |
| Processor.AssignmentStep | src/me/jaysonfong/ilcf/reader/ILCFProcessor.java:83-109 | An assignment pushes its trimmed name onto the cut stack and stores the value under the flattened key, overwriting any earlier value. When an unescaped `#` comes before the `=`, the push happens and then `substring` throws. |
| Processor.CascadeAssignment | src/me/jaysonfong/ilcf/reader/ILCFProcessor.java:83-100 | The same as `AssignmentStep`, stated on the right-trimmed and fully trimmed views of the line. |
| Processor.StackAfterLine | src/me/jaysonfong/ilcf/reader/ILCFProcessor.java:102-127 | After any cascade line that passes the depth check, the stack is the cut stack with the line's name on top. One level beyond the stack leaves only that name. |
| Processor.CascadeStack | src/me/jaysonfong/ilcf/reader/ILCFProcessor.java:83-88 | The same as `StackAfterLine`, stated on the two views of the line. |
| Processor.ProcessLineKeepsKeys | src/me/jaysonfong/ilcf/reader/ILCFProcessor.java:58-64 | No line removes a key from the store. |
| Processor.CascadeKeepsKeys | src/me/jaysonfong/ilcf/reader/ILCFProcessor.java:83-93 | A cascade element only adds or overwrites an entry. |
| Processor.ProcessLinesKeepsKeys | src/me/jaysonfong/ilcf/reader/ILCFProcessor.java:58-64 | Over a pass, the store only grows, up to and including the first exception. |
| Reader.ProcessLine | src/me/jaysonfong/ilcf/reader/ILCFReader.java:159-168 | `processLine`. Its behaviour is stated by `Reader.IndentationFault`, `Reader.EmptyNamePartHalts`, `Reader.ListMarkerAtTop`, `Reader.NameStep` and `Reader.GetAfterStore`. |
| Reader.Read | src/me/jaysonfong/ilcf/reader/ILCFReader.java:72-77 | `read` over lines already in memory, stopping at the first exception. Its behaviour is stated by `Reader.ReadKeepsKeys` and the `Cascade.Run` lemmas. |
| Reader.Stripped | src/me/jaysonfong/ilcf/reader/ILCFReader.java:170-172 | The reader's `trim`, which is `replaceAll(" ++$", "")` as `JavaString.StripTrailingSpaces` states. |
| Reader.NamePart | src/me/jaysonfong/ilcf/reader/ILCFReader.java:160-164 | What `getName` is given: the stripped line before its first `=`, itself stripped. Its properties are stated by `Reader.NamePartTabs`, `Reader.NamePartHead` and `Reader.EmptyNameParts`. |
| Reader.ValuePart | src/me/jaysonfong/ilcf/reader/ILCFReader.java:165-166 | What `getValue` is given: the stripped line after its first `=`, itself stripped. Its use is stated by `Reader.NameStep`. |
| Reader.CheckForList | src/me/jaysonfong/ilcf/reader/ILCFReader.java:189-198 | `checkForList` looks at the first character of the untrimmed name part, so a marker counts only at depth 0 (`Reader.ListMarkerAtTop`, `Reader.GetName`). |
| Reader.CheckIndentations | src/me/jaysonfong/ilcf/reader/ILCFReader.java:200-204 | `checkIndentations` passes when the depth is at most the stack size. Its effect is stated by `Reader.GetName` and `Reader.IndentationFault`. |
| Reader.AssignDelimIndex | src/me/jaysonfong/ilcf/reader/ILCFReader.java:161-162 | Returns the first `=` of the stripped line, or its length exactly when there is none. |
| Reader.GetName | src/me/jaysonfong/ilcf/reader/ILCFReader.java:174-198 | `getName` throws the indentation fault exactly when the depth exceeds the stack size, and the stack is then untouched. Otherwise it cuts the stack to the depth. An empty name part then throws on `charAt(0)` with the stack cleared. A list marker yields the empty key and pushes nothing. Any other name yields the flattened key and is pushed trimmed. |
| Reader.ReducePrefixes | src/me/jaysonfong/ilcf/reader/ILCFReader.java:206-210 | The pop loop leaves exactly the first `tabs` names. |
| Reader.GetTabCount | src/me/jaysonfong/ilcf/reader/ILCFReader.java:212-217 | The recursive count returns the number of leading tabs. |
| Reader.GetCommentDelimLocation | src/me/jaysonfong/ilcf/reader/ILCFReader.java:239-245 | Only the last `#` is considered. The result is that position when no backslash precedes it, and -1 exactly when there is no `#` or the last one is escaped. |
| Reader.LastHashUnique | src/me/jaysonfong/ilcf/reader/ILCFReader.java:240 | Two positions that are both the last `#` are the same. |
| Reader.LastHashIsLastIndexOf | src/me/jaysonfong/ilcf/reader/ILCFReader.java:240 | `lastIndexOf('#')` returns the last `#` when there is one, and no other position is the last `#`. |
| Reader.GetValue | src/me/jaysonfong/ilcf/reader/ILCFReader.java:232-237 | The value is "" when the last `#` opens the text, and the trimmed whole when that `#` is escaped or absent. Otherwise it is the trimmed text before the last `#`, with earlier `#`s kept. |
| Reader.Get | src/me/jaysonfong/ilcf/reader/ILCFReader.java:92-94 | `get` returns the stored value, or nothing (Java's null) exactly when the key is absent. |
| Reader.NotEmptyIffHasValue | src/me/jaysonfong/ilcf/reader/ILCFReader.java:161-163 | The `empty` flag is false exactly when the stripped line has an `=` before its last character. |
| Reader.NamePartTabs | src/me/jaysonfong/ilcf/reader/ILCFReader.java:160-175 | The depth `getName` sees is the number of leading tabs of the raw line. |
| Reader.IndentationFault | src/me/jaysonfong/ilcf/reader/ILCFReader.java:200-204 | A line throws the indentation fault exactly when its depth exceeds the stack size. The instance is then unchanged. |
| Reader.EmptyNamePartHalts | src/me/jaysonfong/ilcf/reader/ILCFReader.java:174-190 | An empty name part clears the stack, then throws on `charAt(0)`. The store is unchanged. |
| Reader.EmptyNameParts | src/me/jaysonfong/ilcf/reader/ILCFReader.java:160-164 | Empty lines, all-space lines and lines that open with `=` have an empty name part. |
| Reader.NamePartHead | src/me/jaysonfong/ilcf/reader/ILCFReader.java:160-164 | The name part starts with the line's first character whenever that character is not `=`, a space or a line terminator. |
| Reader.ListMarkerAtTop | src/me/jaysonfong/ilcf/reader/ILCFReader.java:174-198 | A line that starts with `-` or `*` clears the stack, pushes nothing and stores nothing. |
| Reader.NameStep | src/me/jaysonfong/ilcf/reader/ILCFReader.java:159-183 | A line within the stack depth that is not a list marker pushes its trimmed name onto the cut stack. It stores the value under the flattened key exactly when the line has a value and the key is non-empty. |
| Reader.GetAfterStore | src/me/jaysonfong/ilcf/reader/ILCFReader.java:165-167 | After a storing line, `get` of its key returns the new value (the last write wins), and every other key returns what it did before. |
| Reader.ProcessLineKeepsKeys | src/me/jaysonfong/ilcf/reader/ILCFReader.java:159-168 | No line removes a key from the store. |
| Reader.ReadKeepsKeys | src/me/jaysonfong/ilcf/reader/ILCFReader.java:72-77 | Over a pass, the store only grows, up to and including the first exception. |
| Variants.TabCountsAgree | src/me/jaysonfong/ilcf/reader/ILCFReader.java:212-217 | The reader's recursive tab count equals the processor's counting loop on every string. The Java recursion overflows the call stack on very long tab runs (see Left out). |
| Variants.OneBeyondTheStack | src/me/jaysonfong/ilcf/reader/ILCFProcessor.java:122-126 | At one level beyond the stack, the processor restarts the stack with the line's name, while the reader throws the indentation fault and changes nothing. |
| Variants.BlankLine | src/me/jaysonfong/ilcf/reader/ILCFProcessor.java:58-60 | On an empty or all-space line, the processor does nothing, while the reader clears the stack and throws. |
| Variants.TabOnlyLine | src/me/jaysonfong/ilcf/reader/ILCFReader.java:170-183 | On a line of tabs only, the processor does nothing. The reader cuts the stack at the tab depth and pushes "" within the stack, and throws the indentation fault beyond it; the store is unchanged. |

## Left out

- **File reading.** `read`'s `Scanner` loop and both constructors are left out. `Reader.Read` and `Processor.ProcessLines` fold over lines already in memory.
- **Exception kinds.** `IndentationException` and the runtime string exceptions both end the pass; the model does not distinguish how they propagate.
- **Typed accessors and `getVariables`.** `getString`, `getInteger`, `getDouble`, `getLong`, `getFloat`, `getBoolean` and `getCharacter` rely on Java library parsing and floating point, and throw a null-pointer exception on a missing key. `getVariables` only exposes the map.
- **Store value type.** The store is `map<string, string>`. The Java map holds `Object` values, but only strings are ever put into it.
- **List bodies.** Materialising list bodies is unfinished in the source (`// TBC`), so the model stores nothing for them. Three members are dead code and are not modelled:
  - `getContentsFromListElement`;
  - the one-argument `getPrefix`;
  - `inList`.
- **Write-only flags.** `lineIsArrList`, `lineIsHashMap`, `inArrayList` and `inHashMap` are never read, so they are not modelled.
- **Stale `isLabel`.** `isLabel` survives an exception, because `reset()` is then skipped. It only matters to a caller that keeps feeding lines after an exception, and the model ends the pass at the first one.
- **Concrete examples.** Worked examples over literal lines are not stated. The general step lemmas cover them: `Processor.AssignmentStep`, `Processor.StackAfterLine`, `Reader.NameStep` and the `Variants` lemmas.
- Reader.ReducePrefixes: requires `tabs <= |stack|`, which `checkIndentations` guarantees at its only call site. The `ArrayList.remove(-1)` exception that would follow otherwise is not modelled.
- Reader.GetTabCount: the Java method recurses once per leading tab and copies a substring at each level. A line with thousands of leading tabs ends `read()` with `StackOverflowError`. The model has no call-stack bound, so it returns the count. `Variants.TabCountsAgree` holds only where the Java recursion completes.
