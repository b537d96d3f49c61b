/** Plain text helpers shared by both tools: prefixes, occurrences, line ends and
    line splitting, all over `string` (a `seq<char>`). */
module Text {

  datatype Option<T> = None | Some(value: T)

  /** `s` starts with `p`. */
  predicate HasPrefix(s: string, p: string) {
    |p| <= |s| && s[..|p|] == p
  }

  /** `p` occurs in `s` starting at index `k`. */
  predicate OccursAt(s: string, p: string, k: nat) {
    k + |p| <= |s| && s[k..k + |p|] == p
  }

  /** No occurrence of `p` starts anywhere in `s`. */
  predicate Absent(s: string, p: string) {
    forall k: nat :: k <= |s| ==> !OccursAt(s, p, k)
  }

  lemma OccursAtShift(s: string, p: string, k: nat)
    requires |s| > 0
    ensures OccursAt(s[1..], p, k) <==> OccursAt(s, p, k + 1)
  {
    if k + 1 + |p| <= |s| {
      assert s[1..][k..k + |p|] == s[k + 1..k + 1 + |p|];
    }
  }

  /** Occurrences inside a window `w` of `t` placed at `off`. */
  lemma OccursInWindow(t: string, w: string, off: nat, p: string, x: nat)
    requires off + |w| <= |t| && t[off..off + |w|] == w && x + |p| <= |w|
    ensures OccursAt(t, p, off + x) <==> OccursAt(w, p, x)
  {
    forall j | 0 <= j < |w| ensures t[off + j] == w[j] {
      assert w[j] == t[off..off + |w|][j];
    }
    assert t[off + x..off + x + |p|] == w[x..x + |p|];
  }

  /** A one-character pattern occurs exactly where that character stands. */
  lemma OccursChar(t: string, c: char, k: nat)
    ensures OccursAt(t, [c], k) <==> k < |t| && t[k] == c
  {
    if k < |t| {
      assert t[k..k + 1][0] == t[k];
    }
  }

  /** The four pieces of a concatenation, recovered by slicing. */
  lemma Slices4(a: string, b: string, c: string, d: string)
    ensures var t := a + b + c + d;
      && t[..|a|] == a
      && t[|a|..|a| + |b|] == b
      && t[|a| + |b|..|a| + |b| + |c|] == c
      && t[|a| + |b| + |c|..] == d
  {
  }

  /** The leftmost occurrence of `p` in `s` that starts at or after `from`, as
      `s.find(p, from)` gives it. */
  function FindFrom(s: string, p: string, from: nat): (r: Option<nat>)
    ensures r.Some? ==> from <= r.value && OccursAt(s, p, r.value)
    ensures r.Some? ==> forall j: nat :: from <= j < r.value ==> !OccursAt(s, p, j)
    ensures r.None? ==> forall j: nat :: from <= j ==> !OccursAt(s, p, j)
    decreases |s| - from
  {
    if |s| < from + |p| then None
    else if OccursAt(s, p, from) then Some(from)
    else FindFrom(s, p, from + 1)
  }

  /** Index of the first newline of `s`, or `|s|` when there is none. */
  function LineEnd(s: string): (r: nat)
    ensures r <= |s|
    ensures r < |s| ==> s[r] == '\n'
    ensures forall j :: 0 <= j < r ==> s[j] != '\n'
    decreases |s|
  {
    if s == [] || s[0] == '\n' then 0 else 1 + LineEnd(s[1..])
  }

  lemma LineEndOfLine(line: string, rest: string)
    requires '\n' !in line
    ensures LineEnd(line + rest) == if rest != [] && rest[0] == '\n' then |line| else |line| + LineEnd(rest)
    decreases |line|
  {
    if line != [] {
      ConsSlices(line + rest, 1);
      assert (line + rest)[1..] == line[1..] + rest;
      LineEndOfLine(line[1..], rest);
    } else {
      assert line + rest == rest;
    }
  }

  /** The pieces of `s` between newlines, as Python's `s.split('\n')`:
      always at least one piece, none containing a newline, and joining
      them back with newlines gives `s`. */
  function Split(s: string): (r: seq<string>)
    ensures |r| >= 1
    ensures forall l :: l in r ==> '\n' !in l
    ensures Join(r) == s
    decreases |s|
  {
    var k := LineEnd(s);
    if k == |s| then [s]
    else
      assert forall c :: c in s[..k] ==> c != '\n';
      var tail := Split(s[k + 1..]);
      assert s == s[..k] + "\n" + s[k + 1..];
      [s[..k]] + tail
  }

  /** Lines joined with newlines (the inverse of Split). */
  function Join(ls: seq<string>): string
    requires |ls| >= 1
    decreases |ls|
  {
    if |ls| == 1 then ls[0] else ls[0] + "\n" + Join(ls[1..])
  }

  lemma {:induction false} SplitJoin(ls: seq<string>)
    requires |ls| >= 1
    requires forall l :: l in ls ==> '\n' !in l
    ensures Split(Join(ls)) == ls
    decreases |ls|
  {
    if |ls| == 1 {
      LineEndOfLine(ls[0], []);
      assert ls[0] + [] == ls[0];
    } else {
      SplitJoin(ls[1..]);
      SplitLine(ls[0], Join(ls[1..]));
    }
  }

  /** Splitting `line + "\n" + rest` gives `line` followed by the lines of `rest`. */
  lemma SplitLine(line: string, rest: string)
    requires '\n' !in line
    ensures Split(line + "\n" + rest) == [line] + Split(rest)
  {
    var s := line + "\n" + rest;
    assert s == line + ("\n" + rest);
    LineEndOfLine(line, "\n" + rest);
    assert s[..|line|] == line;
    assert s[|line| + 1..] == rest;
  }

  /** A text without newline is a single line. */
  lemma SplitSingle(line: string)
    requires '\n' !in line
    ensures Split(line) == [line]
  {
    LineEndOfLine(line, []);
    assert line + [] == line;
  }

  /** The first line of `s` ends at its first newline; the others are the lines
      after that newline. */
  lemma SplitHead(s: string)
    ensures Split(s)[0] == s[..LineEnd(s)]
    ensures LineEnd(s) < |s| ==> Split(s) == [s[..LineEnd(s)]] + Split(s[LineEnd(s) + 1..])
  {
  }

  /** A text with a newline is its first line, that newline and the rest. */
  lemma FirstLine(t: string)
    requires LineEnd(t) < |t|
    ensures t == t[..LineEnd(t)] + "\n" + t[LineEnd(t) + 1..]
    ensures '\n' !in t[..LineEnd(t)]
  {
    var k := LineEnd(t);
    CutAt(t, k);
    assert forall c :: c in t[..k] ==> c != '\n';
  }

  /** A text is what lies before a newline in it, the newline and what follows. */
  lemma CutAt(t: string, k: nat)
    requires k < |t| && t[k] == '\n'
    ensures t == t[..k] + "\n" + t[k + 1..]
  {
  }

  /** A text without newline is a single line. */
  lemma OnlyLine(t: string)
    requires LineEnd(t) == |t|
    ensures '\n' !in t
  {
  }

  lemma Regroup(a: string, b: string, c: string)
    ensures a + "\n" + b + "\n" + c == a + "\n" + (b + "\n" + c)
  {
  }

  lemma PastTwo<T>(a: T, b: T, s: seq<T>)
    ensures ([a] + ([b] + s))[0] == a && ([a] + ([b] + s))[2..] == s
  {
  }

  /** A nonempty sequence is its head followed by its tail, and so are its
      prefixes; its suffixes past the head are suffixes of the tail. */
  lemma ConsSlices<T>(t: seq<T>, j: nat)
    requires 1 <= j <= |t|
    ensures t == [t[0]] + t[1..]
    ensures t[..j] == [t[0]] + t[1..][..j - 1] && t[j..] == t[1..][j - 1..]
  {
  }

  lemma AfterPrefix<T>(x: seq<T>, y: seq<T>)
    ensures (x + y)[|x|..] == y && (x + y)[..|x|] == x
  {
  }

  lemma AroundNewline(a: string, b: string)
    ensures (a + "\n" + b)[..|a|] == a && (a + "\n" + b)[|a|] == '\n' && (a + "\n" + b)[|a| + 1..] == b
    ensures (a + "\n" + b)[..|a| + 1] == a + "\n" && (a + "\n" + b)[|a|..] == "\n" + b
  {
  }

  lemma DropInLine(a: string, b: string, j: nat)
    requires j <= |a|
    ensures (a + "\n" + b)[j..] == a[j..] + "\n" + b
  {
  }

  lemma Assoc<T>(a: seq<T>, b: seq<T>, c: seq<T>)
    ensures a + b + c == a + (b + c)
  {
  }

  /** The first newline of `a + "\n" + b` is the one after `a`. */
  lemma LineEndAt(a: string, b: string)
    requires '\n' !in a
    ensures LineEnd(a + "\n" + b) == |a|
  {
    LineEndOfLine(a, "\n" + b);
    Assoc(a, "\n", b);
  }

  lemma HeadTail(a: string, b: string)
    requires a != []
    ensures (a + "\n" + b)[0] == a[0] && (a + "\n" + b)[1..] == a[1..] + "\n" + b
  {
  }

  lemma Recons(a: string, x: string)
    requires a != []
    ensures [a[0]] + (a[1..] + "\n") + x == a + "\n" + x
  {
    assert [a[0]] + a[1..] == a;
  }
}
