/** clean_duplicates: a scan over the lines of a JavaScript file that drops a
    function header (with its body, found by counting braces) when a function
    header already kept declares the same name, and drops a `const`/`let`/`var`
    line when a binding line already kept binds the same name. Declarations
    inside a skipped body are dropped with that body. Lines are `string`s that
    keep the trailing newline, as `readlines` gives them. */
module Declarations {
  import opened Text

  // ---------------------------------------------------------------------------
  // Character classes and runs
  // ---------------------------------------------------------------------------

  /** `\s` on a Python `str`: the ASCII whitespace (tab through carriage return,
      the four separators 0x1C-0x1F and space) and the Unicode white space. */
  predicate IsSpace(c: char) {
    var n := c as int;
    || n == 32 || 9 <= n <= 13 || 28 <= n <= 31
    || n == 0x85 || n == 0xA0 || n == 0x1680 || 0x2000 <= n <= 0x200A
    || n == 0x2028 || n == 0x2029 || n == 0x202F || n == 0x205F || n == 0x3000
  }

  /** `\w`, restricted to ASCII: letters, digits and underscore. */
  predicate IsWordChar(c: char) {
    || 'a' <= c <= 'z' || 'A' <= c <= 'Z' || '0' <= c <= '9' || c == '_'
  }

  lemma SpaceNotWord(c: char)
    ensures IsSpace(c) ==> !IsWordChar(c)
  {
  }

  /** Length of the longest run of characters satisfying `p` that starts at
      `from`: what a greedy `p+` or `p*` takes there. */
  function Run(s: string, from: nat, p: char -> bool): (r: nat)
    requires from <= |s|
    ensures from + r <= |s|
    decreases |s| - from
  {
    if from < |s| && p(s[from]) then 1 + Run(s, from + 1, p) else 0
  }

  /** Every character of the run satisfies `p` and the next one does not. */
  lemma {:induction false} RunSpec(s: string, from: nat, p: char -> bool)
    requires from <= |s|
    ensures forall k :: from <= k < from + Run(s, from, p) ==> p(s[k])
    ensures from + Run(s, from, p) < |s| ==> !p(s[from + Run(s, from, p)])
    decreases |s| - from
  {
    if from < |s| && p(s[from]) {
      RunSpec(s, from + 1, p);
    }
  }

  /** A run of `n` characters satisfying `p` that cannot be extended is the run. */
  lemma {:induction false} RunIs(s: string, from: nat, p: char -> bool, n: nat)
    requires from + n <= |s|
    requires forall k :: from <= k < from + n ==> p(s[k])
    requires from + n < |s| ==> !p(s[from + n])
    ensures Run(s, from, p) == n
    decreases n
  {
    if n > 0 {
      assert p(s[from]);
      RunIs(s, from + 1, p, n - 1);
    }
  }

  /** A run is at least as long as any stretch of characters satisfying `p`. */
  lemma {:induction false} RunAtLeast(s: string, from: nat, p: char -> bool, n: nat)
    requires from + n <= |s|
    requires forall k :: from <= k < from + n ==> p(s[k])
    ensures n <= Run(s, from, p)
    decreases n
  {
    if n > 0 {
      assert p(s[from]);
      RunAtLeast(s, from + 1, p, n - 1);
    }
  }

  // ---------------------------------------------------------------------------
  // Function headers: `^function\s+(\w+)\s*\(`
  // ---------------------------------------------------------------------------

  /** The pattern matches `line` with `a` characters for `\s+`, `b` for `(\w+)`
      and `c` for `\s*`. */
  predicate FunctionMatchAt(line: string, a: nat, b: nat, c: nat) {
    && HasPrefix(line, "function")
    && a >= 1 && b >= 1 && 8 + a + b + c < |line|
    && (forall k :: 8 <= k < 8 + a ==> IsSpace(line[k]))
    && (forall k :: 8 + a <= k < 8 + a + b ==> IsWordChar(line[k]))
    && (forall k :: 8 + a + b <= k < 8 + a + b + c ==> IsSpace(line[k]))
    && line[8 + a + b + c] == '('
  }

  /** A match uses the maximal runs. */
  lemma FunctionMatchRuns(line: string, a: nat, b: nat, c: nat)
    requires FunctionMatchAt(line, a, b, c)
    ensures a == Run(line, 8, IsSpace)
    ensures b == Run(line, 8 + a, IsWordChar)
    ensures c == Run(line, 8 + a + b, IsSpace)
  {
    SpaceNotWord(line[8 + a]);
    RunIs(line, 8, IsSpace, a);
    SpaceNotWord(line[8 + a + b]);
    RunIs(line, 8 + a, IsWordChar, b);
    RunIs(line, 8 + a + b, IsSpace, c);
  }

  /** The name a function header declares (group 1 of the match), or None when
      the line is not a function header. */
  function FunctionName(line: string): Option<string> {
    if !HasPrefix(line, "function") then None
    else
      var a := Run(line, 8, IsSpace);
      var b := Run(line, 8 + a, IsWordChar);
      var c := Run(line, 8 + a + b, IsSpace);
      if a >= 1 && b >= 1 && 8 + a + b + c < |line| && line[8 + a + b + c] == '(' then
        Some(line[8 + a..8 + a + b])
      else None
  }

  /** FunctionName finds a name exactly when the pattern matches, and then the
      name is group 1 of every way the pattern can match. */
  lemma FunctionNameMatches(line: string)
    ensures FunctionName(line).Some? <==> exists a: nat, b: nat, c: nat :: FunctionMatchAt(line, a, b, c)
    ensures forall a: nat, b: nat, c: nat :: FunctionMatchAt(line, a, b, c) ==>
      FunctionName(line) == Some(line[8 + a..8 + a + b])
  {
    FunctionNameSound(line);
    FunctionNameComplete(line);
  }

  lemma FunctionNameSound(line: string)
    ensures FunctionName(line).Some? ==> exists a: nat, b: nat, c: nat :: FunctionMatchAt(line, a, b, c)
  {
    if FunctionName(line).Some? {
      var a := Run(line, 8, IsSpace);
      var b := Run(line, 8 + a, IsWordChar);
      var c := Run(line, 8 + a + b, IsSpace);
      FunctionMatchOfRuns(line, a, b, c);
    }
  }

  /** The maximal runs make a match when they are long enough and `(` follows. */
  lemma FunctionMatchOfRuns(line: string, a: nat, b: nat, c: nat)
    requires HasPrefix(line, "function")
    requires a == Run(line, 8, IsSpace) && b == Run(line, 8 + a, IsWordChar) && c == Run(line, 8 + a + b, IsSpace)
    requires a >= 1 && b >= 1 && 8 + a + b + c < |line| && line[8 + a + b + c] == '('
    ensures FunctionMatchAt(line, a, b, c)
  {
    RunSpec(line, 8, IsSpace);
    RunSpec(line, 8 + a, IsWordChar);
    RunSpec(line, 8 + a + b, IsSpace);
  }

  lemma FunctionNameComplete(line: string)
    ensures forall a: nat, b: nat, c: nat :: FunctionMatchAt(line, a, b, c) ==>
      FunctionName(line) == Some(line[8 + a..8 + a + b])
  {
    forall a: nat, b: nat, c: nat | FunctionMatchAt(line, a, b, c)
      ensures FunctionName(line) == Some(line[8 + a..8 + a + b])
    {
      FunctionMatchRuns(line, a, b, c);
    }
  }

  // ---------------------------------------------------------------------------
  // Binding headers: `^(const|let|var)\s+(\w+)`
  // ---------------------------------------------------------------------------

  /** A binding line: its keyword (group 1) and the name it binds (group 2). */
  datatype Binding = Binding(kind: string, name: string)

  predicate IsKeyword(kw: string) {
    kw == "const" || kw == "let" || kw == "var"
  }

  /** The pattern matches `line` with keyword `kw`, `a` characters for `\s+` and
      `b` for `(\w+)`. */
  predicate BindingMatchAt(line: string, kw: string, a: nat, b: nat) {
    && IsKeyword(kw) && HasPrefix(line, kw)
    && a >= 1 && b >= 1 && |kw| + a + b <= |line|
    && (forall k :: |kw| <= k < |kw| + a ==> IsSpace(line[k]))
    && (forall k :: |kw| + a <= k < |kw| + a + b ==> IsWordChar(line[k]))
  }

  /** The keyword the line starts with; the three start with different letters,
      so at most one alternative applies. */
  function Keyword(line: string): Option<string> {
    if HasPrefix(line, "const") then Some("const")
    else if HasPrefix(line, "let") then Some("let")
    else if HasPrefix(line, "var") then Some("var")
    else None
  }

  lemma KeywordOf(line: string, kw: string)
    requires IsKeyword(kw) && HasPrefix(line, kw)
    ensures Keyword(line) == Some(kw)
  {
    PrefixHeads(line);
  }

  /** A keyword prefix fixes the first letter of the line. */
  lemma PrefixHeads(line: string)
    ensures forall kw :: (IsKeyword(kw) || kw == "function") && HasPrefix(line, kw) ==> line[0] == kw[0]
  {
    forall kw | (IsKeyword(kw) || kw == "function") && HasPrefix(line, kw) ensures line[0] == kw[0] {
      assert line[..|kw|][0] == line[0];
    }
  }

  /** A match uses the keyword, the maximal run of spaces and at most the
      maximal run of word characters. */
  lemma BindingMatchRuns(line: string, kw: string, a: nat, b: nat)
    requires BindingMatchAt(line, kw, a, b)
    ensures Keyword(line) == Some(kw)
    ensures a == Run(line, |kw|, IsSpace)
    ensures 1 <= b <= Run(line, |kw| + a, IsWordChar)
  {
    KeywordOf(line, kw);
    SpaceNotWord(line[|kw| + a]);
    RunIs(line, |kw|, IsSpace, a);
    RunAtLeast(line, |kw| + a, IsWordChar, b);
  }

  /** The keyword and name of a binding line, or None when the line is none. */
  function BindingHeader(line: string): Option<Binding> {
    match Keyword(line)
    case None => None
    case Some(kw) =>
      var a := Run(line, |kw|, IsSpace);
      var b := Run(line, |kw| + a, IsWordChar);
      if a >= 1 && b >= 1 then Some(Binding(kw, line[|kw| + a..|kw| + a + b]))
      else None
  }

  /** BindingHeader finds a binding only when the pattern matches. */
  lemma BindingHeaderSound(line: string)
    ensures BindingHeader(line).Some? ==> exists kw, a: nat, b: nat :: BindingMatchAt(line, kw, a, b)
  {
    if BindingHeader(line).Some? {
      var kw := Keyword(line).value;
      var a := Run(line, |kw|, IsSpace);
      var b := Run(line, |kw| + a, IsWordChar);
      RunSpec(line, |kw|, IsSpace);
      RunSpec(line, |kw| + a, IsWordChar);
      assert BindingMatchAt(line, kw, a, b);
    }
  }

  /** When the pattern matches, BindingHeader finds the keyword of the match.
      Since `(\w+)` is greedy and nothing follows it in the pattern, the name is
      the whole run of word characters after the spaces, however long a run the
      match itself needs. */
  lemma BindingHeaderComplete(line: string)
    ensures forall kw, a: nat, b: nat :: BindingMatchAt(line, kw, a, b) ==>
      BindingHeader(line) == Some(Binding(kw, line[|kw| + a..|kw| + a + Run(line, |kw| + a, IsWordChar)]))
  {
    forall kw, a: nat, b: nat | BindingMatchAt(line, kw, a, b)
      ensures BindingHeader(line) == Some(Binding(kw, line[|kw| + a..|kw| + a + Run(line, |kw| + a, IsWordChar)]))
    {
      BindingMatchRuns(line, kw, a, b);
    }
  }

  /** No line is both a function header and a binding line. */
  lemma HeaderKindsExclusive(line: string)
    ensures FunctionName(line).Some? ==> BindingHeader(line).None?
  {
    PrefixHeads(line);
  }

  /** A header is recognised only at column 0: a line that starts with white
      space is neither a function header nor a binding line. */
  lemma IndentedLine(line: string)
    requires |line| > 0 && IsSpace(line[0])
    ensures FunctionName(line).None? && BindingHeader(line).None?
  {
    PrefixHeads(line);
  }

  // ---------------------------------------------------------------------------
  // The block skipper
  // ---------------------------------------------------------------------------

  /** Occurrences of `c` in `s`, as `s.count(c)`. */
  function Count(s: string, c: char): (r: nat)
    ensures r == multiset(s)[c]
    ensures r <= |s|
    ensures r == 0 <==> c !in s
    decreases |s|
  {
    if s == [] then 0
    else
      assert s == [s[0]] + s[1..];
      (if s[0] == c then 1 else 0) + Count(s[1..], c)
  }

  /** Where skipping a duplicate function ends: the scan goes on from line `i`
      with the brace count `count` and the flag `started`, and stops right
      after the first line at which braces have been opened and the count is
      not positive, or at the end of the file. */
  function SkipEnd(lines: seq<string>, i: nat, count: int, started: bool): (r: nat)
    requires i <= |lines|
    ensures i <= r <= |lines|
    ensures i < |lines| ==> i < r
    decreases |lines| - i
  {
    if i == |lines| then |lines|
    else
      var line := lines[i];
      var count1 := if '{' in line then count + Count(line, '{') else count;
      var started1 := if '{' in line then true else started;
      var count2 := if '}' in line then count1 - Count(line, '}') else count1;
      if started1 && count2 <= 0 then i + 1
      else SkipEnd(lines, i + 1, count2, started1)
  }

  /** Net braces a line opens. */
  function Delta(line: string): int {
    Count(line, '{') - Count(line, '}')
  }

  /** Net braces opened by `lines[i..k]`. */
  function Balance(lines: seq<string>, i: nat, k: nat): int
    requires i <= k <= |lines|
    decreases k
  {
    if k == i then 0 else Balance(lines, i, k - 1) + Delta(lines[k - 1])
  }

  /** Some line of `lines[i..k]` holds a `{`. */
  predicate Opened(lines: seq<string>, i: nat, k: nat)
    requires i <= k <= |lines|
  {
    exists j :: i <= j < k && '{' in lines[j]
  }

  /** The block that starts at line `i` is closed after `lines[i..k]`. */
  predicate Closes(lines: seq<string>, i: nat, k: nat) {
    i < k <= |lines| && Opened(lines, i, k) && Balance(lines, i, k) <= 0
  }

  /** SkipEnd from the middle of a block: the state after `lines[i..j]` is the
      brace balance and whether a brace was seen, and the skip ends at the
      first close after `j`, or at the end of the file. */
  lemma {:induction false} SkipEndFrom(lines: seq<string>, i: nat, j: nat)
    requires i <= j < |lines|
    ensures var r := SkipEnd(lines, j, Balance(lines, i, j), Opened(lines, i, j));
      && (r == |lines| || Closes(lines, i, r))
      && (forall k :: j < k < r ==> !Closes(lines, i, k))
    decreases |lines| - j
  {
    SkipStep(lines, i, j);
    if j + 1 < |lines| && !Closes(lines, i, j + 1) {
      SkipEndFrom(lines, i, j + 1);
    }
  }

  /** One line of the skipper: the count and the flag it carries after line `j`
      are the balance and the opened flag of `lines[i..j + 1]`. */
  lemma SkipStep(lines: seq<string>, i: nat, j: nat)
    requires i <= j < |lines|
    ensures SkipEnd(lines, j, Balance(lines, i, j), Opened(lines, i, j))
         == if Closes(lines, i, j + 1) then j + 1
            else SkipEnd(lines, j + 1, Balance(lines, i, j + 1), Opened(lines, i, j + 1))
  {
    var line := lines[j];
    SkipEndOne(lines, j, Balance(lines, i, j), Opened(lines, i, j));
    assert Balance(lines, i, j + 1) == Balance(lines, i, j) + Delta(line);
    OpenedStep(lines, i, j);
  }

  /** One step of the skipper: the count moves by the line's net braces. */
  lemma SkipEndOne(lines: seq<string>, j: nat, count: int, started: bool)
    requires j < |lines|
    ensures var started1 := started || '{' in lines[j];
      var count1 := count + Delta(lines[j]);
      SkipEnd(lines, j, count, started)
        == if started1 && count1 <= 0 then j + 1 else SkipEnd(lines, j + 1, count1, started1)
  {
  }

  lemma OpenedStep(lines: seq<string>, i: nat, j: nat)
    requires i <= j < |lines|
    ensures Opened(lines, i, j + 1) == (Opened(lines, i, j) || '{' in lines[j])
  {
  }

  /** The skipper consumes at least the header line and stops right after the
      first line that closes the block, or at the end of the file. */
  lemma SkipEndFirstClose(lines: seq<string>, i: nat)
    requires i < |lines|
    ensures var r := SkipEnd(lines, i, 0, false);
      && i < r <= |lines|
      && (r == |lines| || Closes(lines, i, r))
      && (forall k :: i < k < r ==> !Closes(lines, i, k))
  {
    assert !Opened(lines, i, i);
    SkipEndFrom(lines, i, i);
  }

  // ---------------------------------------------------------------------------
  // The scan
  // ---------------------------------------------------------------------------

  /** The lines the scan keeps from `lines[i..]` when the function names in
      `funcs` and the binding names in `vars` have already been seen. */
  function CleanFrom(lines: seq<string>, i: nat, funcs: set<string>, vars: map<string, string>): seq<string>
    requires i <= |lines|
    decreases |lines| - i
  {
    if i == |lines| then []
    else
      var line := lines[i];
      match FunctionName(line)
      case Some(name) =>
        if name in funcs then CleanFrom(lines, SkipEnd(lines, i, 0, false), funcs, vars)
        else [line] + CleanFrom(lines, i + 1, funcs + {name}, vars)
      case None =>
        match BindingHeader(line)
        case Some(b) =>
          if b.name in vars then CleanFrom(lines, i + 1, funcs, vars)
          else [line] + CleanFrom(lines, i + 1, funcs, vars[b.name := b.kind])
        case None => [line] + CleanFrom(lines, i + 1, funcs, vars)
  }

  // One step of the scan at line `i`, one lemma per case.

  lemma StepSkipFunction(lines: seq<string>, i: nat, funcs: set<string>, vars: map<string, string>, name: string)
    requires i < |lines| && FunctionName(lines[i]) == Some(name) && name in funcs
    ensures CleanFrom(lines, i, funcs, vars) == CleanFrom(lines, SkipEnd(lines, i, 0, false), funcs, vars)
  {
  }

  lemma StepKeepFunction(lines: seq<string>, i: nat, funcs: set<string>, vars: map<string, string>, name: string)
    requires i < |lines| && FunctionName(lines[i]) == Some(name) && name !in funcs
    ensures CleanFrom(lines, i, funcs, vars) == [lines[i]] + CleanFrom(lines, i + 1, funcs + {name}, vars)
  {
  }

  lemma StepSkipBinding(lines: seq<string>, i: nat, funcs: set<string>, vars: map<string, string>, b: Binding)
    requires i < |lines| && FunctionName(lines[i]).None? && BindingHeader(lines[i]) == Some(b) && b.name in vars
    ensures CleanFrom(lines, i, funcs, vars) == CleanFrom(lines, i + 1, funcs, vars)
  {
  }

  lemma StepKeepBinding(lines: seq<string>, i: nat, funcs: set<string>, vars: map<string, string>, b: Binding)
    requires i < |lines| && FunctionName(lines[i]).None? && BindingHeader(lines[i]) == Some(b) && b.name !in vars
    ensures CleanFrom(lines, i, funcs, vars) == [lines[i]] + CleanFrom(lines, i + 1, funcs, vars[b.name := b.kind])
  {
  }

  lemma StepOther(lines: seq<string>, i: nat, funcs: set<string>, vars: map<string, string>)
    requires i < |lines| && FunctionName(lines[i]).None? && BindingHeader(lines[i]).None?
    ensures CleanFrom(lines, i, funcs, vars) == [lines[i]] + CleanFrom(lines, i + 1, funcs, vars)
  {
  }

  /** The lines clean_duplicates writes back. */
  function Clean(lines: seq<string>): seq<string> {
    CleanFrom(lines, 0, {}, map[])
  }

  /** `a` is `b` with some elements left out. */
  predicate IsSubsequence<T(==)>(a: seq<T>, b: seq<T>)
    decreases |b|
  {
    if a == [] then true
    else if b == [] then false
    else (a[0] == b[0] && IsSubsequence(a[1..], b[1..])) || IsSubsequence(a, b[1..])
  }

  /** The name a binding line binds. */
  function BindingName(line: string): Option<string> {
    match BindingHeader(line)
    case None => None
    case Some(b) => Some(b.name)
  }

  /** No two lines of `ls` carry the same name under `key`. */
  predicate UniqueKeys(ls: seq<string>, key: string -> Option<string>) {
    forall j, k :: 0 <= j < k < |ls| && key(ls[j]).Some? ==> key(ls[k]) != key(ls[j])
  }

  /** No two function headers declare the same name and no two binding lines
      bind the same name (a function and a binding may share one). */
  predicate UniqueHeaders(ls: seq<string>) {
    UniqueKeys(ls, FunctionName) && UniqueKeys(ls, BindingName)
  }

  /** The inner loop of clean_duplicates: skips a duplicate function from its
      header line `start`, counting braces line by line. */
  method SkipFunction(lines: seq<string>, start: nat) returns (i: nat)
    requires start < |lines|
    ensures i == SkipEnd(lines, start, 0, false)
  {
    i := start;
    var braceCount := 0;
    var started := false;
    while i < |lines|
      invariant start <= i <= |lines|
      invariant SkipEnd(lines, i, braceCount, started) == SkipEnd(lines, start, 0, false)
      decreases |lines| - i
    {
      if '{' in lines[i] {
        braceCount := braceCount + Count(lines[i], '{');
        started := true;
      }
      if '}' in lines[i] {
        braceCount := braceCount - Count(lines[i], '}');
      }
      i := i + 1;
      if started && braceCount <= 0 {
        assert i == SkipEnd(lines, start, 0, false);
        break;
      }
    }
  }

  /** The part of clean_duplicates' loop body for a line that is not a function
      header: a repeated binding is dropped, a new one is recorded and kept, any
      other line is kept. `cleaned'` followed by what the scan keeps from line
      `i + 1` on is `cleaned` followed by what it keeps from line `i` on. */
  method CleanBindingLine(lines: seq<string>, i: nat, seenFunctions: set<string>, seenVars: map<string, string>,
                          cleaned: seq<string>) returns (cleaned': seq<string>, seenVars': map<string, string>)
    requires i < |lines| && FunctionName(lines[i]).None?
    ensures cleaned' + CleanFrom(lines, i + 1, seenFunctions, seenVars') == cleaned + CleanFrom(lines, i, seenFunctions, seenVars)
    ensures Names(cleaned', FunctionName) == Names(cleaned, FunctionName)
    ensures seenVars.Keys == Names(cleaned, BindingName) ==> seenVars'.Keys == Names(cleaned', BindingName)
  {
    NamesAppend(cleaned, lines[i], FunctionName);
    NamesAppend(cleaned, lines[i], BindingName);
    var line := lines[i];
    seenVars' := seenVars;
    cleaned' := cleaned;
    var varMatch := BindingHeader(line);
    if varMatch.Some? {
      var varType, varName := varMatch.value.kind, varMatch.value.name;
      if varName in seenVars {
        StepSkipBinding(lines, i, seenFunctions, seenVars, varMatch.value);
      } else {
        StepKeepBinding(lines, i, seenFunctions, seenVars, varMatch.value);
        seenVars' := seenVars[varName := varType];
        cleaned' := cleaned + [line];
        Assoc(cleaned, [line], CleanFrom(lines, i + 1, seenFunctions, seenVars'));
        assert seenVars'.Keys == seenVars.Keys + {varName};
      }
    } else {
      StepOther(lines, i, seenFunctions, seenVars);
      cleaned' := cleaned + [line];
      Assoc(cleaned, [line], CleanFrom(lines, i + 1, seenFunctions, seenVars));
    }
  }

  /** clean_duplicates' loop, without the file read and write. */
  method CleanDuplicates(lines: seq<string>) returns (cleaned: seq<string>)
    ensures cleaned == Clean(lines)
    ensures IsSubsequence(cleaned, lines)
    ensures UniqueHeaders(cleaned)
    ensures cleaned == FirstWins(lines, 0, [])
  {
    var seenFunctions: set<string> := {};
    var seenVars: map<string, string> := map[];
    cleaned := [];
    var i := 0;
    while i < |lines|
      invariant i <= |lines|
      invariant cleaned + CleanFrom(lines, i, seenFunctions, seenVars) == Clean(lines)
      invariant seenFunctions == Names(cleaned, FunctionName)
      invariant seenVars.Keys == Names(cleaned, BindingName)
      decreases |lines| - i
    {
      var line := lines[i];
      var funcMatch := FunctionName(line);
      if funcMatch.Some? {
        var funcName := funcMatch.value;
        if funcName in seenFunctions {
          StepSkipFunction(lines, i, seenFunctions, seenVars, funcName);
          i := SkipFunction(lines, i);
          continue;
        } else {
          StepKeepFunction(lines, i, seenFunctions, seenVars, funcName);
          Assoc(cleaned, [line], CleanFrom(lines, i + 1, seenFunctions + {funcName}, seenVars));
          HeaderKindsExclusive(line);
          KeepRegistries(cleaned, line, seenFunctions, seenVars.Keys);
          seenFunctions := seenFunctions + {funcName};
          cleaned := cleaned + [line];
        }
      } else {
        cleaned, seenVars := CleanBindingLine(lines, i, seenFunctions, seenVars, cleaned);
      }
      i := i + 1;
    }
    assert cleaned == Clean(lines);
    CleanSubsequence(lines);
    CleanUnique(lines);
    CleanKeepsFirst(lines);
  }

  // ---------------------------------------------------------------------------
  // Properties of the scan
  // ---------------------------------------------------------------------------

  lemma {:induction false} SubsequenceDrop<T>(a: seq<T>, b: seq<T>, k: nat)
    requires k <= |b| && IsSubsequence(a, b[k..])
    ensures IsSubsequence(a, b)
    decreases k
  {
    if k > 0 {
      assert b[k - 1..][1..] == b[k..];
      assert IsSubsequence(a, b[k - 1..]);
      SubsequenceDrop(a, b, k - 1);
    }
  }

  /** One step of the scan keeps line `i` or nothing, and goes on from a later
      line with updated registries. */
  lemma ScanStep(lines: seq<string>, i: nat, funcs: set<string>, vars: map<string, string>)
    returns (k: nat, kept: seq<string>, funcs': set<string>, vars': map<string, string>)
    requires i < |lines|
    ensures i < k <= |lines|
    ensures kept == [] || (kept == [lines[i]] && k == i + 1)
    ensures CleanFrom(lines, i, funcs, vars) == kept + CleanFrom(lines, k, funcs', vars')
  {
    var line := lines[i];
    k, kept, funcs', vars' := i + 1, [line], funcs, vars;
    match FunctionName(line)
    case Some(name) =>
      if name in funcs {
        k, kept := SkipEnd(lines, i, 0, false), [];
      } else {
        funcs' := funcs + {name};
      }
    case None =>
      match BindingHeader(line)
      case Some(b) =>
        if b.name in vars {
          kept := [];
        } else {
          vars' := vars[b.name := b.kind];
        }
      case None =>
  }

  /** The lines kept from `lines[i..]` are a subsequence of them. */
  lemma {:induction false} CleanFromSubsequence(lines: seq<string>, i: nat, funcs: set<string>, vars: map<string, string>)
    requires i <= |lines|
    ensures IsSubsequence(CleanFrom(lines, i, funcs, vars), lines[i..])
    decreases |lines| - i
  {
    if i < |lines| {
      var k, kept, funcs', vars' := ScanStep(lines, i, funcs, vars);
      var tail := CleanFrom(lines, k, funcs', vars');
      var rest := lines[i..];
      CleanFromSubsequence(lines, k, funcs', vars');
      SubsequenceStep(lines, i, k, kept, tail);
    }
  }

  /** Keeping line `i` or nothing, in front of a subsequence of `lines[k..]`,
      gives a subsequence of `lines[i..]`. */
  lemma SubsequenceStep(lines: seq<string>, i: nat, k: nat, kept: seq<string>, tail: seq<string>)
    requires i < k <= |lines|
    requires kept == [] || (kept == [lines[i]] && k == i + 1)
    requires IsSubsequence(tail, lines[k..])
    ensures IsSubsequence(kept + tail, lines[i..])
  {
    var rest := lines[i..];
    assert rest[k - i..] == lines[k..];
    if kept == [] {
      assert kept + tail == tail;
      SubsequenceDrop(tail, rest, k - i);
    } else {
      assert rest[0] == lines[i] && rest[1..] == lines[i + 1..];
      assert (kept + tail)[0] == lines[i] && (kept + tail)[1..] == tail;
    }
  }

  /** Every kept line is an input line, in the input order. */
  lemma CleanSubsequence(lines: seq<string>)
    ensures IsSubsequence(Clean(lines), lines)
  {
    CleanFromSubsequence(lines, 0, {}, map[]);
    assert lines[0..] == lines;
  }

  /** No two lines of `ls` carry the same name under `key`, and none carries a
      name of `seen`. */
  predicate Fresh(ls: seq<string>, key: string -> Option<string>, seen: set<string>) {
    && UniqueKeys(ls, key)
    && (forall l :: l in ls && key(l).Some? ==> key(l).value !in seen)
  }

  lemma FreshKeep(line: string, ls: seq<string>, key: string -> Option<string>, seen: set<string>, name: string)
    requires key(line) == Some(name) && name !in seen
    requires Fresh(ls, key, seen + {name})
    ensures Fresh([line] + ls, key, seen)
  {
    var out := [line] + ls;
    forall j, k | 0 <= j < k < |out| && key(out[j]).Some?
      ensures key(out[k]) != key(out[j])
    {
      if j > 0 {
        assert out[j] == ls[j - 1] && out[k] == ls[k - 1];
      } else {
        assert out[k] in ls;
      }
    }
  }

  lemma FreshOther(line: string, ls: seq<string>, key: string -> Option<string>, seen: set<string>)
    requires key(line).None?
    requires Fresh(ls, key, seen)
    ensures Fresh([line] + ls, key, seen)
  {
    var out := [line] + ls;
    forall j, k | 0 <= j < k < |out| && key(out[j]).Some?
      ensures key(out[k]) != key(out[j])
    {
      assert out[j] == ls[j - 1] && out[k] == ls[k - 1];
    }
  }

  lemma FreshTail(line: string, ls: seq<string>, key: string -> Option<string>, seen: set<string>)
    requires Fresh([line] + ls, key, seen)
    ensures key(line).Some? ==> key(line).value !in seen && Fresh(ls, key, seen + {key(line).value})
    ensures Fresh(ls, key, seen)
  {
    var out := [line] + ls;
    assert line in out;
    forall l | l in ls ensures l in out { }
    forall j, k | 0 <= j < k < |ls| && key(ls[j]).Some?
      ensures key(ls[k]) != key(ls[j])
    {
      assert ls[j] == out[j + 1] && ls[k] == out[k + 1];
    }
    forall k | 0 <= k < |ls| && key(line).Some? ensures key(ls[k]) != key(line) {
      assert out[0] == line && ls[k] == out[k + 1];
    }
  }

  /** What the scan keeps from `lines[i..]` repeats no name among its headers
      and uses none of the names already seen. */
  lemma {:induction false} CleanFromFresh(lines: seq<string>, i: nat, funcs: set<string>, vars: map<string, string>)
    requires i <= |lines|
    ensures Fresh(CleanFrom(lines, i, funcs, vars), FunctionName, funcs)
    ensures Fresh(CleanFrom(lines, i, funcs, vars), BindingName, vars.Keys)
    decreases |lines| - i
  {
    if i < |lines| {
      var line := lines[i];
      HeaderKindsExclusive(line);
      match FunctionName(line)
      case Some(name) =>
        if name in funcs {
          CleanFromFresh(lines, SkipEnd(lines, i, 0, false), funcs, vars);
        } else {
          var rest := CleanFrom(lines, i + 1, funcs + {name}, vars);
          CleanFromFresh(lines, i + 1, funcs + {name}, vars);
          FreshKeep(line, rest, FunctionName, funcs, name);
          FreshOther(line, rest, BindingName, vars.Keys);
        }
      case None =>
        match BindingHeader(line)
        case Some(b) =>
          if b.name in vars {
            CleanFromFresh(lines, i + 1, funcs, vars);
          } else {
            var vars' := vars[b.name := b.kind];
            var rest := CleanFrom(lines, i + 1, funcs, vars');
            CleanFromFresh(lines, i + 1, funcs, vars');
            assert vars'.Keys == vars.Keys + {b.name};
            FreshOther(line, rest, FunctionName, funcs);
            FreshKeep(line, rest, BindingName, vars.Keys, b.name);
          }
        case None =>
          var rest := CleanFrom(lines, i + 1, funcs, vars);
          CleanFromFresh(lines, i + 1, funcs, vars);
          FreshOther(line, rest, FunctionName, funcs);
          FreshOther(line, rest, BindingName, vars.Keys);
    }
  }

  /** The output never declares a function name twice, nor binds a name twice. */
  lemma CleanUnique(lines: seq<string>)
    ensures UniqueHeaders(Clean(lines))
  {
    CleanFromFresh(lines, 0, {}, map[]);
  }

  /** Lines whose headers are fresh pass through the scan unchanged. */
  lemma {:induction false} CleanFromFreshUnchanged(lines: seq<string>, i: nat, funcs: set<string>, vars: map<string, string>)
    requires i <= |lines|
    requires Fresh(lines[i..], FunctionName, funcs) && Fresh(lines[i..], BindingName, vars.Keys)
    ensures CleanFrom(lines, i, funcs, vars) == lines[i..]
    decreases |lines| - i
  {
    if i < |lines| {
      var line := lines[i];
      assert lines[i..] == [line] + lines[i + 1..];
      FreshTail(line, lines[i + 1..], FunctionName, funcs);
      FreshTail(line, lines[i + 1..], BindingName, vars.Keys);
      match FunctionName(line)
      case Some(name) =>
        CleanFromFreshUnchanged(lines, i + 1, funcs + {name}, vars);
      case None =>
        match BindingHeader(line)
        case Some(b) =>
          var vars' := vars[b.name := b.kind];
          assert vars'.Keys == vars.Keys + {b.name};
          CleanFromFreshUnchanged(lines, i + 1, funcs, vars');
        case None =>
          CleanFromFreshUnchanged(lines, i + 1, funcs, vars);
    }
  }

  /** The scan leaves a file unchanged exactly when no function name is declared
      twice and no name is bound twice. */
  lemma CleanFixedPoint(lines: seq<string>)
    ensures Clean(lines) == lines <==> UniqueHeaders(lines)
  {
    CleanUnique(lines);
    if UniqueHeaders(lines) {
      assert lines[0..] == lines;
      CleanFromFreshUnchanged(lines, 0, {}, map[]);
    }
  }

  /** Running the scan on its own output changes nothing. */
  lemma CleanIdempotent(lines: seq<string>)
    ensures Clean(Clean(lines)) == Clean(lines)
  {
    CleanUnique(lines);
    CleanFixedPoint(Clean(lines));
  }

  // ---------------------------------------------------------------------------
  // A header is dropped exactly when a kept header of its kind has its name
  // ---------------------------------------------------------------------------

  /** The names `key` finds among the lines of `ls`. */
  function Names(ls: seq<string>, key: string -> Option<string>): set<string> {
    set l | l in ls && key(l).Some? :: key(l).value
  }

  /** The name `key` finds in `line`, as a set of at most one element. */
  function NameOf(line: string, key: string -> Option<string>): set<string> {
    if key(line).Some? then {key(line).value} else {}
  }

  lemma NamesAppend(ls: seq<string>, line: string, key: string -> Option<string>)
    ensures Names(ls + [line], key) == Names(ls, key) + NameOf(line, key)
  {
    var out := ls + [line];
    forall l | l in out ensures l in ls || l == line { }
    forall l | l in ls ensures l in out { }
    assert line in out;
  }

  /** The scan stated by what it has already written: a header is dropped
      exactly when a line already kept declares the same name under the same
      kind (a function header for a function, a binding line for a binding),
      and a dropped function takes its body with it. */
  function FirstWins(lines: seq<string>, i: nat, kept: seq<string>): seq<string>
    requires i <= |lines|
    decreases |lines| - i
  {
    if i == |lines| then kept
    else
      var line := lines[i];
      match FunctionName(line)
      case Some(name) =>
        if name in Names(kept, FunctionName) then FirstWins(lines, SkipEnd(lines, i, 0, false), kept)
        else FirstWins(lines, i + 1, kept + [line])
      case None =>
        match BindingName(line)
        case Some(name) =>
          if name in Names(kept, BindingName) then FirstWins(lines, i + 1, kept)
          else FirstWins(lines, i + 1, kept + [line])
        case None => FirstWins(lines, i + 1, kept + [line])
  }

  /** Keeping a line extends the registries by exactly the names it declares. */
  lemma KeepRegistries(kept: seq<string>, line: string, funcs: set<string>, vars: set<string>)
    requires funcs == Names(kept, FunctionName) && vars == Names(kept, BindingName)
    ensures funcs + NameOf(line, FunctionName) == Names(kept + [line], FunctionName)
    ensures vars + NameOf(line, BindingName) == Names(kept + [line], BindingName)
  {
    NamesAppend(kept, line, FunctionName);
    NamesAppend(kept, line, BindingName);
  }

  /** When the registries hold exactly the names of the lines kept so far, the
      scan continues as FirstWins does. */
  lemma {:induction false} FirstWinsFrom(lines: seq<string>, i: nat, kept: seq<string>,
                                         funcs: set<string>, vars: map<string, string>)
    requires i <= |lines|
    requires funcs == Names(kept, FunctionName) && vars.Keys == Names(kept, BindingName)
    ensures FirstWins(lines, i, kept) == kept + CleanFrom(lines, i, funcs, vars)
    decreases |lines| - i, 1
  {
    if i < |lines| {
      if FunctionName(lines[i]).Some? {
        FirstWinsFunction(lines, i, kept, funcs, vars);
      } else {
        FirstWinsOther(lines, i, kept, funcs, vars);
      }
    }
  }

  /** FirstWinsFrom at a function header. */
  lemma {:induction false} FirstWinsFunction(lines: seq<string>, i: nat, kept: seq<string>,
                                             funcs: set<string>, vars: map<string, string>)
    requires i < |lines| && FunctionName(lines[i]).Some?
    requires funcs == Names(kept, FunctionName) && vars.Keys == Names(kept, BindingName)
    ensures FirstWins(lines, i, kept) == kept + CleanFrom(lines, i, funcs, vars)
    decreases |lines| - i, 0
  {
    var line, name := lines[i], FunctionName(lines[i]).value;
    if name in funcs {
      StepSkipFunction(lines, i, funcs, vars, name);
      FirstWinsFrom(lines, SkipEnd(lines, i, 0, false), kept, funcs, vars);
    } else {
      HeaderKindsExclusive(line);
      KeepRegistries(kept, line, funcs, vars.Keys);
      StepKeepFunction(lines, i, funcs, vars, name);
      FirstWinsFrom(lines, i + 1, kept + [line], funcs + {name}, vars);
      Assoc(kept, [line], CleanFrom(lines, i + 1, funcs + {name}, vars));
    }
  }

  /** FirstWinsFrom at a line that is not a function header. */
  lemma {:induction false} FirstWinsOther(lines: seq<string>, i: nat, kept: seq<string>,
                                          funcs: set<string>, vars: map<string, string>)
    requires i < |lines| && FunctionName(lines[i]).None?
    requires funcs == Names(kept, FunctionName) && vars.Keys == Names(kept, BindingName)
    ensures FirstWins(lines, i, kept) == kept + CleanFrom(lines, i, funcs, vars)
    decreases |lines| - i, 0
  {
    var line := lines[i];
    KeepRegistries(kept, line, funcs, vars.Keys);
    match BindingHeader(line)
    case Some(b) =>
      if b.name in vars {
        StepSkipBinding(lines, i, funcs, vars, b);
        FirstWinsFrom(lines, i + 1, kept, funcs, vars);
      } else {
        var vars' := vars[b.name := b.kind];
        assert vars'.Keys == vars.Keys + {b.name};
        StepKeepBinding(lines, i, funcs, vars, b);
        FirstWinsFrom(lines, i + 1, kept + [line], funcs, vars');
        Assoc(kept, [line], CleanFrom(lines, i + 1, funcs, vars'));
      }
    case None =>
      StepOther(lines, i, funcs, vars);
      FirstWinsFrom(lines, i + 1, kept + [line], funcs, vars);
      Assoc(kept, [line], CleanFrom(lines, i + 1, funcs, vars));
  }

  /** The scan drops a header exactly when a header of the same kind already
      kept has its name: its output is what FirstWins writes, starting from
      nothing kept. */
  lemma CleanKeepsFirst(lines: seq<string>)
    ensures Clean(lines) == FirstWins(lines, 0, [])
  {
    FirstWinsFrom(lines, 0, [], {}, map[]);
  }

  /** A function header whose name was seen before is dropped with every line up
      to and including the first line after which braces have been opened and
      the brace balance is not positive (or with the rest of the file when that
      never happens); the scan resumes after it with the same registries. */
  lemma DuplicateFunctionSkipped(lines: seq<string>, i: nat, funcs: set<string>, vars: map<string, string>, k: nat)
    requires i < |lines| && FunctionName(lines[i]).Some? && FunctionName(lines[i]).value in funcs
    requires i < k <= |lines| && (k == |lines| || Closes(lines, i, k))
    requires forall k' :: i < k' < k ==> !Closes(lines, i, k')
    ensures CleanFrom(lines, i, funcs, vars) == CleanFrom(lines, k, funcs, vars)
  {
    FirstCloseIsSkipEnd(lines, i, k);
  }

  /** The first close after line `i` (or the end of the file) is where the
      skipper stops. */
  lemma FirstCloseIsSkipEnd(lines: seq<string>, i: nat, k: nat)
    requires i < k <= |lines| && (k == |lines| || Closes(lines, i, k))
    requires forall k' :: i < k' < k ==> !Closes(lines, i, k')
    ensures SkipEnd(lines, i, 0, false) == k
  {
    SkipEndFirstClose(lines, i);
  }

  // ---------------------------------------------------------------------------
  // Examples
  // ---------------------------------------------------------------------------

  /** A line starting `function n(` declares the one-letter name `n`. */
  lemma ShortHeader(line: string, n: char)
    requires |line| >= 11 && line[..11] == "function " + [n] + "(" && IsWordChar(n)
    ensures FunctionName(line) == Some([n]) && BindingHeader(line).None?
  {
    var head := "function " + [n] + "(";
    assert line[..8] == head[..8] == "function";
    assert line[8] == head[8] == ' ' && line[9] == head[9] == n && line[10] == head[10] == '(';
    RunIs(line, 8, IsSpace, 1);
    RunIs(line, 9, IsWordChar, 1);
    RunIs(line, 10, IsSpace, 0);
    assert line[9..10] == [n];
    HeaderKindsExclusive(line);
  }

  /** A second definition of `f` is dropped with its body. */
  lemma DuplicateFunctionExample()
    ensures Clean(["function f(){\n", "  return 1;\n", "}\n", "function f(){\n", "  return 2;\n", "}\n"])
         == ["function f(){\n", "  return 1;\n", "}\n"]
  {
    ShortHeader("function f(){\n", 'f');
    IndentedLine("  return 1;\n");
    ClosingLine("}\n");
    HeaderBraces();
    BodyBraces();
    CloseBraces();
    RepeatedBlock("function f(){\n", "  return 1;\n", "}\n", "  return 2;\n", "f");
  }

  /** A file holding a one-line-bodied function and then a second definition of
      the same name keeps only the first. */
  lemma RepeatedBlock(header: string, body1: string, close: string, body2: string, name: string)
    requires FunctionName(header) == Some(name)
    requires FunctionName(body1).None? && BindingHeader(body1).None?
    requires FunctionName(close).None? && BindingHeader(close).None?
    requires Count(header, '{') == 1 && '}' !in header
    requires '{' !in body2 && '}' !in body2
    requires '{' !in close && Count(close, '}') == 1
    ensures Clean([header, body1, close, header, body2, close]) == [header, body1, close]
  {
    var lines := [header, body1, close, header, body2, close];
    RepeatedLines(lines, name);
    assert lines[..3] == [header, body1, close];
  }

  /** The same, over six lines given by their properties. */
  lemma RepeatedLines(lines: seq<string>, name: string)
    requires |lines| == 6 && lines[3] == lines[0] && lines[5] == lines[2]
    requires FunctionName(lines[0]) == Some(name)
    requires FunctionName(lines[1]).None? && BindingHeader(lines[1]).None?
    requires FunctionName(lines[2]).None? && BindingHeader(lines[2]).None?
    requires Count(lines[3], '{') == 1 && '}' !in lines[3]
    requires '{' !in lines[4] && '}' !in lines[4]
    requires '{' !in lines[5] && Count(lines[5], '}') == 1
    ensures Clean(lines) == lines[..3]
  {
    RepeatedLinesAfterFirst(lines, name);
    KeepFirstHeader(lines, name);
  }

  /** A new function header is kept, followed by what the scan keeps after it. */
  lemma KeepFirstHeader(lines: seq<string>, name: string)
    requires |lines| >= 3 && FunctionName(lines[0]) == Some(name)
    requires CleanFrom(lines, 1, {name}, map[]) == [lines[1], lines[2]]
    ensures Clean(lines) == lines[..3]
  {
    var none: set<string>, f: set<string>, m: map<string, string> := {}, {name}, map[];
    assert none + {name} == f;
    StepKeepFunction(lines, 0, none, m, name);
    FirstThree(lines, CleanFrom(lines, 1, f, m));
  }

  lemma FirstThree<T>(s: seq<T>, tail: seq<T>)
    requires |s| >= 3 && tail == [s[1], s[2]]
    ensures [s[0]] + tail == s[..3]
  {
  }

  /** After the first header, its two lines are kept and the rest is skipped. */
  lemma RepeatedLinesAfterFirst(lines: seq<string>, name: string)
    requires |lines| == 6 && FunctionName(lines[3]) == Some(name)
    requires FunctionName(lines[1]).None? && BindingHeader(lines[1]).None?
    requires FunctionName(lines[2]).None? && BindingHeader(lines[2]).None?
    requires Count(lines[3], '{') == 1 && '}' !in lines[3]
    requires '{' !in lines[4] && '}' !in lines[4]
    requires '{' !in lines[5] && Count(lines[5], '}') == 1
    ensures CleanFrom(lines, 1, {name}, map[]) == [lines[1], lines[2]]
  {
    var f: set<string>, m: map<string, string> := {name}, map[];
    RepeatedBlockSkipped(lines, name);
    var c3 := CleanFrom(lines, 3, f, m);
    assert c3 == [];
    StepOther(lines, 2, f, m);
    var c2 := CleanFrom(lines, 2, f, m);
    assert c2 == [lines[2]] + c3 == [lines[2]];
    StepOther(lines, 1, f, m);
  }

  /** The second copy of the block, from index 3 on, is skipped to the end. */
  lemma RepeatedBlockSkipped(lines: seq<string>, name: string)
    requires |lines| == 6 && FunctionName(lines[3]) == Some(name)
    requires Count(lines[3], '{') == 1 && '}' !in lines[3]
    requires '{' !in lines[4] && '}' !in lines[4]
    requires '{' !in lines[5] && Count(lines[5], '}') == 1
    ensures CleanFrom(lines, 3, {name}, map[]) == []
  {
    SkipThreeLines(lines, 3);
    StepSkipFunction(lines, 3, {name}, map[], name);
    assert CleanFrom(lines, 6, {name}, map[]) == [];
  }

  lemma ClosingLine(line: string)
    requires line == "}\n"
    ensures FunctionName(line).None? && BindingHeader(line).None?
  {
    PrefixHeads(line);
  }

  /** A block of a header line opening one brace, a line without braces and a
      line closing one brace is skipped whole. */
  lemma SkipThreeLines(lines: seq<string>, i: nat)
    requires i + 2 < |lines|
    requires Count(lines[i], '{') == 1 && '}' !in lines[i]
    requires '{' !in lines[i + 1] && '}' !in lines[i + 1]
    requires '{' !in lines[i + 2] && Count(lines[i + 2], '}') == 1
    ensures SkipEnd(lines, i, 0, false) == i + 3
  {
    assert SkipEnd(lines, i, 0, false) == SkipEnd(lines, i + 1, 1, true);
    assert SkipEnd(lines, i + 1, 1, true) == SkipEnd(lines, i + 2, 1, true);
  }

  lemma HeaderBraces()
    ensures Count("function f(){\n", '{') == 1 && '}' !in "function f(){\n"
  {
    HeaderText();
    HeaderNoClose();
    HeaderCount("function f(){\n");
  }

  lemma HeaderText()
    ensures "function f()" + ['{'] + "\n" == "function f(){\n"
  {
  }

  lemma HeaderCount(h: string)
    requires h == "function f()" + ['{'] + "\n"
    ensures Count(h, '{') == 1
  {
    CountOne("function f()", '{', "\n");
  }

  lemma HeaderNoClose()
    ensures '}' !in "function f(){\n"
  {
  }

  lemma BodyBraces()
    ensures '{' !in "  return 2;\n" && '}' !in "  return 2;\n"
  {
  }

  lemma CloseBraces()
    ensures '{' !in "}\n" && Count("}\n", '}') == 1
  {
  }

  lemma CountOne(a: string, c: char, b: string)
    requires c !in a && c !in b
    ensures Count(a + [c] + b, c) == 1 && c in a + [c] + b
  {
    CountAppend(a, [c] + b, c);
    assert a + [c] + b == a + ([c] + b);
    assert ([c] + b)[1..] == b;
  }

  lemma {:induction false} CountAppend(a: string, b: string, c: char)
    ensures Count(a + b, c) == Count(a, c) + Count(b, c)
    decreases |a|
  {
    if a != [] {
      assert (a + b)[1..] == a[1..] + b;
      CountAppend(a[1..], b, c);
    } else {
      assert a + b == b;
    }
  }

  lemma BindingX(line: string)
    requires |line| >= 8 && line[..7] == "const x" && !IsWordChar(line[7])
    ensures FunctionName(line).None? && BindingHeader(line) == Some(Binding("const", "x"))
  {
    PrefixHeads(line);
    KeywordOf(line, "const");
    RunIs(line, 5, IsSpace, 1);
    RunIs(line, 6, IsWordChar, 1);
  }

  /** A second binding of `x` is dropped on its own. */
  lemma DuplicateBindingExample()
    ensures Clean(["const x = 1;\n", "const x = 2;\n"]) == ["const x = 1;\n"]
  {
    BindingX("const x = 1;\n");
    BindingX("const x = 2;\n");
  }

  /** Function names and binding names are kept apart: a binding that reuses a
      function's name is kept. */
  lemma SeparateRegistriesExample()
    ensures Clean(["function x(){}\n", "const x = 1;\n"]) == ["function x(){}\n", "const x = 1;\n"]
  {
    ShortHeader("function x(){}\n", 'x');
    BindingX("const x = 1;\n");
  }

  /** `constx` binds nothing (no space after the keyword) and neither does a
      destructuring `const {a}` (no word character after the space). */
  lemma NotBindingExamples()
    ensures BindingHeader("constx = 1;\n").None?
    ensures BindingHeader("const {a} = o;\n").None?
  {
    KeywordOf("constx = 1;\n", "const");
    RunIs("constx = 1;\n", 5, IsSpace, 0);
    KeywordOf("const {a} = o;\n", "const");
    RunIs("const {a} = o;\n", 5, IsSpace, 1);
    RunIs("const {a} = o;\n", 6, IsWordChar, 0);
  }
}
