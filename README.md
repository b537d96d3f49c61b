# Duplicate-declaration remover and merge-conflict resolver

Two small text-rewriting tools that tidy a JavaScript game source:

- `clean_duplicates` walks the lines of a file. A function header
  (`function NAME(` at column 0) is dropped, together with its body, exactly
  when a function header already kept has its name; the end of the body is
  found by counting `{` and `}` line by line. A `const`/`let`/`var NAME` line is
  dropped on its own exactly when a binding line already kept has its name.
  Declarations inside a skipped body are dropped with that body, so a later
  declaration of the same name is then kept. Every other line is kept as it is. Function names and binding names are
  kept in two separate registries.
- `resolve_conflicts` rewrites the whole text with four fixed regular-expression
  substitutions. Pass 1 replaces each `<<<<<<< HEAD` / `=======` / `>>>>>>> label`
  region by its "ours" side. It matches at a `<<<<<<< HEAD\n` only when a
  `\n=======\n` starts at least 13 characters after it, and a `\n>>>>>>> ` starts
  at least 9 characters after that separator, followed later by a newline; both
  groups are lazy, so the match ends at the first such newline. Three shapes of
  conflict fall outside that:
  (a) an empty theirs side, where `>>>>>>> ` directly follows the `=======` line,
  is not matched if no later `\n>>>>>>> ` with a newline somewhere after it
  exists, and the `<<<<<<< HEAD` line is left in the output;
  (b) if such a later `\n>>>>>>> ` does exist, the lazy theirs group runs on to it, so
  the first `>>>>>>>` line and all text up to the later one, other conflicts
  and clean code alike, are deleted: the code loses data there;
  (c) a region with an empty ours side, where `=======` directly follows
  `<<<<<<< HEAD`, is not matched as such: either it stays unmatched, or, when a later `\n=======\n` and a `\n>>>>>>> ` after it
  exist, the lazy ours group runs on to that later separator. Left unmatched,
  a conflict whose theirs side has at least one line keeps both marker lines;
  one whose theirs side is empty too loses its `>>>>>>>` line in pass 2, and
  only the `<<<<<<< HEAD` line is left.
  Pass 2 keeps the text before a stray `\n=======\n` and, when a later newline
  is followed by the end of the text or by a character other than `=`, deletes
  the separator, the content of the line after it (whatever that line begins
  with) and any further lines that begin with `=`, up to the first such newline;
  without such a newline it deletes nothing. Pass 3 removes a `=======` line
  with the content of the line after it. Pass 4 empties every remaining line
  that begins with `=======`.

The project has three modules:

- `Text` (Text.dfy) holds string helpers: prefixes, occurrences, leftmost
  search (`FindFrom`), line ends, and `Split`/`Join` with their round trip.
- `Declarations` (Declarations.dfy) models clean_duplicates.py. The main loop is
  the method `CleanDuplicates`, with the index, the two registries (a `set` of
  function names and a `map` from binding names to their keyword) and the output
  list. The inner brace-counting loop is the method `SkipFunction`, with its
  brace counter and `started` flag. Both methods are proved against the
  functions `Clean`/`CleanFrom` and `SkipEnd`. Lemmas about those functions
  state the properties of the tool: the output is a subsequence of the input,
  a header is dropped exactly when an already kept header of the same kind has
  its name, no name is repeated,
  the tool is idempotent, and the skipper stops at the first closing line.
- `Conflicts` (Conflicts.dfy) models resolve_conflicts.py. Each pass is a total
  function over `string`. It is a scanner for its one pattern that tries a match
  at each position, copies one character when there is none, and otherwise
  resumes after the match. This is how `re.sub` finds leftmost, non-overlapping
  matches. Patterns anchored with `^` under MULTILINE carry a flag that says
  whether the position starts a line of the original text.

Regular-expression behaviour is modelled pattern by pattern. There is no
general regex engine.

- In pass 1, the lazy groups are resolved as backtracking resolves them.
  `MatchConflict` returns the least shape (ours length, then theirs length,
  then label length) for which the pattern fits. It returns `None` exactly
  when no shape fits (`MatchConflictLeast`).
- In pass 2, every alternative of the lookahead is a newline followed by the
  end of the text or by a character other than `=`, and `\n[^=]` and `\n$`
  between them cover every such newline. The lookahead therefore holds exactly
  there (`Pass2LookaheadIsBoundary`).
- In pass 3, `$` under MULTILINE holds at every newline and at the end, and it
  subsumes the other alternatives (`Pass3LookaheadIsBoundary`).
- The function-header pattern `^function\s+(\w+)\s*\(` can only match with
  maximal runs, so the captured name is the whole run of word characters.
  In `^(const|let|var)\s+(\w+)` the greedy `(\w+)` also takes the whole run
  (`FunctionNameMatches`, `BindingHeaderComplete`).

resolve_conflicts.py:9-20 chains four substitutions over the whole text, and
the model does the same; there is no notion of a conflict region beyond what
each pattern matches. Neither tool knows about JavaScript strings or comments:
braces, markers and headers are matched on raw characters, inside string
literals and comments too.

## Model

| member | source | states |
|---|---|---|
| `Declarations.CleanDuplicates` | clean_duplicates.py:7-56 | The loop returns exactly `Clean(lines)`, and also exactly what `FirstWins` writes: each header is kept when no line kept before it declares its name under the same kind. Its invariant keeps the function registry equal to the names of the function headers kept so far, and the keys of the binding registry equal to the names of the binding lines kept so far. The result is a subsequence of the input lines (each kept line unchanged, order kept). It declares no function name twice and binds no name twice. |
| `Declarations.CleanBindingLine` | clean_duplicates.py:38-54 | For a line that is not a function header, the output list and binding registry after the step, followed by what the scan keeps from the next line, equal the list before the step followed by what the scan keeps from this line. The step adds no function header to the output, and a binding registry that held the names of the kept binding lines still does afterwards. |
| `Declarations.SkipFunction` | clean_duplicates.py:22-32 | The brace-counting loop stops where `SkipEnd(lines, start, 0, false)` says. |
| `Declarations.SkipEndFirstClose` | clean_duplicates.py:22-32 | The skipper consumes at least the header line. It stops right after the first line at which a `{` has been seen and the net count of `{` minus `}` is not positive, or at the end of the file. |
| `Declarations.FirstCloseIsSkipEnd` | clean_duplicates.py:22-32 | Conversely, any index that is the first such close (or the end of the file, when no close occurs) is where the skipper stops. |
| `Declarations.SkipEnd` | clean_duplicates.py:24-32 | The index where skipping stops is never before the starting line, never past the end of the file, and strictly after the start when there is a line to consume, so the outer loop always advances. |
| `Declarations.Count` | clean_duplicates.py:25-29 | `s.count(c)` is the multiplicity of `c` in the multiset of the characters of `s`. It is at most `len(s)`, and it is zero exactly when `c` is not in `s`, so the `in` guards around the counts change nothing. |
| `Declarations.CleanFrom` | clean_duplicates.py:13-56 | Definition of the scan from line `i` with given registries; it has no contract of its own. What it does is stated by `StepSkipFunction` to `StepOther`, `CleanFromSubsequence`, `CleanFromFresh` and `FirstWinsFrom`. |
| `Declarations.Clean` | clean_duplicates.py:8-56 | The scan from the first line with empty registries; no contract of its own. Its properties are the lemmas `CleanSubsequence`, `CleanUnique`, `CleanFixedPoint`, `CleanIdempotent` and `CleanKeepsFirst`. |
| `Declarations.FunctionName` | clean_duplicates.py:17-19 | Definition of group 1 of the function-header match; no contract of its own. `FunctionNameMatches` states that it agrees with the pattern. |
| `Declarations.BindingHeader` | clean_duplicates.py:39-42 | Definition of the keyword and name of a binding match; no contract of its own. `BindingHeaderSound` and `BindingHeaderComplete` state that it agrees with the pattern. |
| `Declarations.IsSpace` | clean_duplicates.py:17 | Definition of `\s` on a Python `str`, listed by code point; no contract of its own. |
| `Declarations.IsWordChar` | clean_duplicates.py:17 | Definition of `\w`, restricted to ASCII (see Left out); no contract of its own. |
| `Declarations.SpaceNotWord` | clean_duplicates.py:17 | No white-space character is a word character, so the runs `\s+`, `(\w+)` and `\s*` of a header cannot overlap. |
| `Declarations.FunctionNameMatches` | clean_duplicates.py:17-19 | `FunctionName` finds a name exactly when `^function\s+(\w+)\s*\(` matches the line, and then the name is group 1 of every way the pattern can match. |
| `Declarations.BindingHeaderSound` | clean_duplicates.py:39-42 | `BindingHeader` finds a binding only when the binding pattern (`const`, `let` or `var` at column 0, white space, a word) matches the line. |
| `Declarations.BindingHeaderComplete` | clean_duplicates.py:39-42 | Whenever the binding pattern matches, `BindingHeader` finds the keyword of the match and, as the name, the whole run of word characters after the spaces. |
| `Declarations.HeaderKindsExclusive` | clean_duplicates.py:17-39 | No line is both a function header and a binding line, so the `elif` never hides a binding. |
| `Declarations.IndentedLine` | clean_duplicates.py:17-54 | A line that starts with white space is neither a function header nor a binding line, so it passes through as an ordinary line. |
| `Declarations.NotBindingExamples` | clean_duplicates.py:39-54 | `constx = 1;` and `const {a} = o;` are not binding lines. |
| `Declarations.ShortHeader` | clean_duplicates.py:17-19 | A line starting `function n(` declares the one-letter name `n` and is not a binding line. |
| `Declarations.BindingX` | clean_duplicates.py:39-42 | A line starting `const x` followed by a non-word character binds `x` with keyword `const`. |
| `Declarations.CleanSubsequence` | clean_duplicates.py:13-56 | Every kept line is an input line, byte for byte, in input order. |
| `Declarations.CleanUnique` | clean_duplicates.py:13-56 | The output never holds two function headers with the same name, nor two binding lines with the same name. |
| `Declarations.CleanFixedPoint` | clean_duplicates.py:13-56 | The tool leaves a file unchanged if and only if no function name is declared twice and no name is bound twice in it. |
| `Declarations.CleanIdempotent` | clean_duplicates.py:13-56 | Running the tool on its own output changes nothing. |
| `Declarations.CleanKeepsFirst` | clean_duplicates.py:13-56 | The output equals `FirstWins`, a scan that decides from the output itself. A function header is dropped, with its body, exactly when a function header already kept declares the same name. A binding line is dropped exactly when a binding line already kept binds the same name. Every other line is kept. Declarations inside a skipped body are dropped with that body. |
| `Declarations.FirstWinsFrom` | clean_duplicates.py:8-51 | When the registries hold exactly the names of the lines kept so far, continuing the scan from any line gives what `FirstWins` gives: the registries record nothing but the kept headers. |
| `Declarations.DuplicateFunctionSkipped` | clean_duplicates.py:17-36 | A function header whose name was seen is dropped together with every line up to its first close (or the end of the file). The scan resumes there with the same registries. |
| `Declarations.DuplicateFunctionExample` | clean_duplicates.py:17-36 | `function f(){` / `return 1;` / `}` followed by a second `function f(){` / `return 2;` / `}` keeps only the first three lines. |
| `Declarations.RepeatedBlock` | clean_duplicates.py:17-36 | A one-line-bodied function followed by a repeated definition of the same name keeps only the first definition. |
| `Declarations.SkipThreeLines` | clean_duplicates.py:22-32 | A header opening one brace, a line without braces and a line closing one brace are skipped together. |
| `Declarations.DuplicateBindingExample` | clean_duplicates.py:39-51 | `const x = 1;` followed by `const x = 2;` keeps only the first line. |
| `Declarations.SeparateRegistriesExample` | clean_duplicates.py:8-51 | A binding that reuses an earlier function's name is kept, because the two registries are separate. |
| `Conflicts.MatchConflict` | resolve_conflicts.py:9 | A shape it returns for the start of a text fits the pass-1 pattern there: the ours marker, then a separator, a theirs marker and a newline at the offsets the shape gives. |
| `Conflicts.MatchConflictLeast` | resolve_conflicts.py:9-12 | The shape MatchConflict returns is the least one that fits, ordered by ours length, then theirs length, then label length. This is the shape backtracking reaches first. MatchConflict returns none exactly when no shape fits. |
| `Conflicts.MatchConflictIs` | resolve_conflicts.py:9 | A shape that fits, where no separator starts inside ours, no theirs marker starts inside theirs and no newline occurs in the label, is the match. |
| `Conflicts.Pass1Region` | resolve_conflicts.py:9-12 | `<<<<<<< HEAD\n` + ours + `\n=======\n` + theirs + `\n>>>>>>> ` + label + `\n` becomes ours + `\n`, and pass 1 resumes after the region. This holds when ours contains no separator, theirs contains no theirs marker and the label has no newline. |
| `Conflicts.Pass1Prefix` | resolve_conflicts.py:12 | Text in which no `<<<<<<< HEAD\n` starts is copied by pass 1 unchanged, ahead of whatever pass 1 makes of the rest. |
| `Conflicts.Pass1Unterminated` | resolve_conflicts.py:9 | A region whose theirs-marker line has no trailing newline is not matched. |
| `Conflicts.Pass1NoOursMarker` | resolve_conflicts.py:9-12 | Pass 1 changes nothing in a text without `<<<<<<< HEAD\n`, for example one whose ours marker has another label. |
| `Conflicts.Pass1NoSeparator` | resolve_conflicts.py:9-12 | Pass 1 changes nothing in a text without `\n=======\n`. |
| `Conflicts.Pass1` | resolve_conflicts.py:9-12 | Pass 1 as a scan over the text. Its own contract states only that the output is no longer than the input. What it does is stated by `Pass1Region`, `Pass1Prefix` and the other `Pass1` lemmas. |
| `Conflicts.Pass1NoLateSeparator` | resolve_conflicts.py:9-12 | Pass 1 changes nothing in a text where no `\n=======\n` starts at index 13 or later, because every match needs one at least 13 characters after its start. |
| `Conflicts.Pass2LookaheadIsBoundary` | resolve_conflicts.py:15 | The six-way lookahead of pass 2 holds exactly at a newline followed by the end of the text or by a character other than `=`. |
| `Conflicts.FindBoundary` | resolve_conflicts.py:15 | Finds the first index at or after a start where the pass-2 lookahead holds, or reports that there is none. |
| `Conflicts.MatchSeparator` | resolve_conflicts.py:15 | A cut it returns for the start of a text fits the pass-2 pattern: a `\n=======\n` at the cut, then a lookahead position at or after its end. |
| `Conflicts.MatchSeparatorLeast` | resolve_conflicts.py:15-16 | The cut MatchSeparator returns is the least one that fits: the first `\n=======\n`, then the first lookahead position after it. MatchSeparator returns none exactly when no cut fits. |
| `Conflicts.MatchSeparatorIs` | resolve_conflicts.py:15 | A cut that fits, with no earlier separator and no earlier lookahead position, is the match. |
| `Conflicts.Pass2Region` | resolve_conflicts.py:15-16 | Pass 2 keeps the text before the first `\n=======\n`. It deletes from that newline up to, but not including, the first later newline followed by the end of the text or by a non-`=` character. Then it resumes there. |
| `Conflicts.Pass2Unmatched` | resolve_conflicts.py:15-16 | When pass 2 has no match at the start of a text, it has none further on either, so it returns the text unchanged. |
| `Conflicts.Pass2NoSeparator` | resolve_conflicts.py:15-16 | Pass 2 changes nothing in a text without `\n=======\n`. |
| `Conflicts.Pass2` | resolve_conflicts.py:15-16 | Pass 2 as a scan over the text. Its own contract states only that the output is no longer than the input. What it does is stated by `Pass2Region`, `Pass2Unmatched` and `Pass2NoSeparator`. |
| `Conflicts.Pass3LookaheadIsBoundary` | resolve_conflicts.py:19 | The seven-way lookahead of pass 3 holds exactly at a newline or at the end of the text. |
| `Conflicts.Pass3Stop` | resolve_conflicts.py:19 | The lazy `.*?` of pass 3 stops at the first newline at or after the given index, or at the end of the text. |
| `Conflicts.Pass3SeparatorLine` | resolve_conflicts.py:19 | A line-start `=======\n` is deleted together with the content of the next line. That line's newline is kept. |
| `Conflicts.Pass3SeparatorLast` | resolve_conflicts.py:19 | A `=======` line followed by a last line without newline disappears entirely. |
| `Conflicts.Pass3Line` | resolve_conflicts.py:19 | Pass 3 keeps a line other than `=======` unchanged. |
| `Conflicts.Pass3Lines` | resolve_conflicts.py:19 | In terms of lines: each `=======` line that has a line after it becomes, together with that line, one empty line. All other lines stay. |
| `Conflicts.Pass3Unchanged` | resolve_conflicts.py:19 | Pass 3 changes nothing in a text with no line beginning with `=======`. |
| `Conflicts.Pass3From` | resolve_conflicts.py:19 | Pass 3 as a scan that carries the start-of-line flag. Its own contract states only that the output is no longer than the input. What it does is stated by `Pass3SeparatorLine`, `Pass3Line` and `Pass3Lines`. |
| `Conflicts.Pass3` | resolve_conflicts.py:19 | Pass 3 over the whole text, starting at a line start; no contract of its own. `Pass3Lines` and `Pass3Unchanged` state what it does. |
| `Conflicts.Pass4Stop` | resolve_conflicts.py:20 | The greedy `.*` of pass 4 ends at the first newline after `=======`, or at the end of the text. |
| `Conflicts.Pass4Line` | resolve_conflicts.py:20 | Pass 4 empties a line beginning with `=======`, keeping its newline, and keeps any other line. |
| `Conflicts.Pass4Lines` | resolve_conflicts.py:20 | In terms of lines, pass 4 keeps the same number of lines, empties each line beginning with `=======` and leaves every other line unchanged. |
| `Conflicts.Pass4NoMarkedLine` | resolve_conflicts.py:20 | After pass 4 no line begins with `=======`. |
| `Conflicts.Pass4Unchanged` | resolve_conflicts.py:20 | Pass 4 changes nothing in a text with no line beginning with `=======`. |
| `Conflicts.Pass4From` | resolve_conflicts.py:20 | Pass 4 as a scan that carries the start-of-line flag. Its own contract states only that the output is no longer than the input. What it does is stated by `Pass4Line` and `Pass4Lines`. |
| `Conflicts.Pass4` | resolve_conflicts.py:20 | Pass 4 over the whole text, starting at a line start; no contract of its own. `Pass4Lines`, `Pass4NoMarkedLine` and `Pass4Unchanged` state what it does. |
| `Conflicts.Resolve` | resolve_conflicts.py:9-20 | The four passes applied in turn; no contract of its own. `ResolveNoMarkedLine`, `ResolveUnchanged`, `ResolveIdempotent`, `ResolveRegion`, `ResolveEmptyOurs`, `ResolveBothEmpty`, `ResolveEmptyTheirs` and `ResolveEmptyTheirsSpill` state what it does. |
| `Conflicts.ResolveNoMarkedLine` | resolve_conflicts.py:9-20 | No line of the resolver's output begins with `=======`, and the output contains no `\n=======\n`. |
| `Conflicts.ResolveUnchanged` | resolve_conflicts.py:9-20 | A text with no line beginning with `=======` is returned byte for byte, even one that still contains `<<<<<<< HEAD`. |
| `Conflicts.ResolveIdempotent` | resolve_conflicts.py:9-20 | Resolving an already resolved text changes nothing. |
| `Conflicts.ResolveRegion` | resolve_conflicts.py:9-20 | One well-formed conflict region followed by clean text resolves to its ours side followed by that text, when ours and the text after it have no `=======` line. |
| `Conflicts.ResolveExample` | resolve_conflicts.py:9-20 | `<<<<<<< HEAD\nconst a = 1;\n=======\nconst a = 2;\n>>>>>>> feature\n` resolves to `const a = 1;\n`. |
| `Conflicts.ResolveEmptyOurs` | resolve_conflicts.py:9-20 | A conflict with an empty ours side (`<<<<<<< HEAD`, then `=======`, one theirs line, then `>>>>>>> ` and a label) resolves to `<<<<<<< HEAD` followed by the `>>>>>>>` line: both marker lines remain. This holds when the theirs line does not begin with `=======` and neither it nor the label holds a newline. |
| `Conflicts.ResolveEmptyOursExample` | resolve_conflicts.py:9-20 | `<<<<<<< HEAD\n=======\nB\n>>>>>>> x\n` resolves to `<<<<<<< HEAD\n>>>>>>> x\n`. |
| `Conflicts.ResolveBothEmpty` | resolve_conflicts.py:9-20 | A conflict with both sides empty (`<<<<<<< HEAD`, `=======`, then directly `>>>>>>> ` and a label) resolves to the `<<<<<<< HEAD` line alone: pass 1 does not match it, and pass 2 deletes the `>>>>>>>` line. This holds when the label holds no newline. |
| `Conflicts.ResolveBothEmptyExample` | resolve_conflicts.py:9-20 | `<<<<<<< HEAD\n=======\n>>>>>>> x\n` resolves to `<<<<<<< HEAD\n`. |
| `Conflicts.Pass1NoTheirsAfterSeparator` | resolve_conflicts.py:9-12 | Pass 1 changes nothing in a text where no `\n>>>>>>> ` starts 9 or more characters after the start of a `\n=======\n`, because every match needs one there. |
| `Conflicts.ResolveEmptyTheirs` | resolve_conflicts.py:9-20 | A conflict with an empty theirs side (`<<<<<<< HEAD`, one ours line, `=======`, then directly `>>>>>>> ` and a label) and nothing after it resolves to `<<<<<<< HEAD` followed by the ours line: the ours marker line remains. This holds when the ours line does not begin with `=======` and neither it nor the label holds a newline. |
| `Conflicts.ResolveEmptyTheirsExample` | resolve_conflicts.py:9-20 | `<<<<<<< HEAD\nA\n=======\n>>>>>>> x\n` resolves to `<<<<<<< HEAD\nA\n`. |
| `Conflicts.ResolveEmptyTheirsSpill` | resolve_conflicts.py:9-20 | A conflict with an empty theirs side followed by any text `mid` and a later `\n>>>>>>> ` line resolves to the ours side alone: the first `>>>>>>>` line and all of `mid` are lost. This holds when ours has no `=======` line, `mid` starts no `\n>>>>>>> ` and does not itself begin with `>>>>>>> `, and the labels hold no newline. |
| `Conflicts.ResolveEmptyTheirsSpillExample` | resolve_conflicts.py:9-20 | `<<<<<<< HEAD\nA\n=======\n>>>>>>> x\nkeep\n<<<<<<< HEAD\nB\n=======\nC\n>>>>>>> y\n` resolves to `A\n`: the line `keep` and the second conflict's ours side `B` are deleted. |
| `Conflicts.StartsOnlyAfterLine` | resolve_conflicts.py:9-12 | Putting a line without newline in front of a text adds no start of a pattern that begins with a newline, unless the rest of the pattern follows that line's newline. This is what keeps the lazy theirs group of pass 1 running to the later marker. |
| `Text.FindFrom` | resolve_conflicts.py:9-15 | Gives the leftmost occurrence of a pattern at or after a start, or reports that there is none. Each lazy group of passes 1 and 2 is resolved this way. |
| `Text.SplitJoin` | resolve_conflicts.py:19-20 | Splitting the newline-joined lines gives the lines back. This is how the line-wise statements about passes 3 and 4 carry over to the text. |

## Left out

- File reading and writing are not modelled. This includes the hard-coded call
  `clean_duplicates('main.js')` and the `sys.argv` entry point of
  resolve_conflicts.py. `CleanDuplicates` takes the lines that `readlines` would
  give, each keeping its trailing newline, and returns the lines that would be
  written. `Resolve` takes and returns the whole text. Text-mode newline
  translation on reading is part of that I/O and is not modelled.
- `IsWordChar` models `\w` as ASCII letters, digits and underscore. Python's `\w`
  on `str` also matches non-ASCII letters and digits. Unicode character classes
  are outside this model, with two consequences. A function header whose name
  holds a non-ASCII letter (`function café(`) is not a header in the model, so
  a repeated definition of it is kept with its body, where the code removes
  it. A binding name is cut short at its first non-ASCII letter, so `const xé`
  and a later `const x` collide in the model and the later line is dropped,
  where the code keeps both; a binding whose name begins with a non-ASCII
  letter is not a binding in the model at all.
- `IsSpace` models `\s` as Python's white space on `str`: the ASCII white space,
  the separators 0x1C to 0x1F, and the Unicode space characters, listed by code
  point.
- ResolveNoMarkedLine: states only that no `=======` line survives. It does not
  promise that no conflict markers remain, because the code does not deliver
  that: in a conflict with an empty ours side and one theirs line the
  `<<<<<<< HEAD` and `>>>>>>>` lines both survive (`ResolveEmptyOurs`,
  `ResolveEmptyOursExample`), in a conflict with both sides empty the
  `<<<<<<< HEAD` line survives and the `>>>>>>>` line is deleted
  (`ResolveBothEmpty`, `ResolveBothEmptyExample`), in a
  conflict with an empty theirs side and no later `>>>>>>>` line the
  `<<<<<<< HEAD` line survives (`ResolveEmptyTheirs`,
  `ResolveEmptyTheirsExample`), and `ResolveUnchanged` keeps every marker of a
  text with no `=======` line. Nor does it promise that text outside conflicts
  is kept: an empty theirs side followed by a later `>>>>>>>` line loses
  everything in between (`ResolveEmptyTheirsSpill`,
  `ResolveEmptyTheirsSpillExample`). The model follows the code in all three.
- The binding registry maps each name to its keyword, as the code does. Nothing
  reads the keyword back, in the code or in the model.
- sfx.js, main.js and data.js are not part of this model. They hold Web Audio
  set-up, canvas drawing, browser storage and game callbacks, and constant data
  tables.
