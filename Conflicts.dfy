/** The merge-conflict resolver of resolve_conflicts.py: four regular-expression
    substitutions applied in turn to the whole text.

    Each pass is a scanner written for its one pattern. At every position it
    tries to match there; on a match it emits the replacement and resumes right
    after the match, otherwise it copies one character and moves on. That is how
    `re.sub` finds leftmost, non-overlapping matches. Where a pattern uses `^`
    (MULTILINE) the scanner carries `bol`: whether the current position starts a
    line of the text being rewritten. */
module Conflicts {
  import opened Text

  const OursMarker: string := "<<<<<<< HEAD\n"
  const Separator: string := "\n=======\n"
  const TheirsMarker: string := "\n>>>>>>> "
  const SeparatorLine: string := "=======\n"
  const Mark: string := "======="

  // ---------------------------------------------------------------------------
  // Pass 1: `<<<<<<< HEAD\n(.*?)\n=======\n.*?\n>>>>>>> .*?\n` (DOTALL) -> `\1\n`
  // ---------------------------------------------------------------------------

  /** Lengths of the three lazy groups of a pass-1 match: the ours text, the
      theirs text and the label of the theirs marker. */
  datatype Shape = Shape(ours: nat, theirs: nat, tag: nat)

  /** Length of the whole match of a given shape. */
  function ShapeEnd(sh: Shape): nat {
    |OursMarker| + sh.ours + |Separator| + sh.theirs + |TheirsMarker| + sh.tag + 1
  }

  /** The pass-1 pattern matches a prefix of `t`, with groups of these lengths. */
  predicate ConflictAt(t: string, sh: Shape) {
    && HasPrefix(t, OursMarker)
    && OccursAt(t, Separator, 13 + sh.ours)
    && OccursAt(t, TheirsMarker, 22 + sh.ours + sh.theirs)
    && OccursAt(t, "\n", 31 + sh.ours + sh.theirs + sh.tag)
  }

  /** The order in which backtracking tries the three lazy groups: shortest ours
      text first, then shortest theirs text, then shortest tag. */
  predicate ShapeLeq(x: Shape, y: Shape) {
    || x.ours < y.ours
    || (x.ours == y.ours && (x.theirs < y.theirs || (x.theirs == y.theirs && x.tag <= y.tag)))
  }

  /** The match of the pass-1 pattern at the start of `t`, if any: the first
      shape that backtracking reaches, i.e. the least one in that order. */
  function MatchConflict(t: string): (r: Option<Shape>)
    ensures r.Some? ==> ConflictAt(t, r.value)
  {
    if !HasPrefix(t, OursMarker) then None
    else
      match FindFrom(t, Separator, 13)
      case None => None
      case Some(s) =>
        match FindFrom(t, TheirsMarker, s + 9)
        case None => None
        case Some(m) =>
          match FindFrom(t, "\n", m + 9)
          case None => None
          case Some(e) =>
            assert ConflictAt(t, Shape(s - 13, m - s - 9, e - m - 9));
            Some(Shape(s - 13, m - s - 9, e - m - 9))
  }

  /** The match MatchConflict finds is the first shape backtracking reaches:
      the least one that fits. It finds none exactly when no shape fits. */
  lemma MatchConflictLeast(t: string)
    ensures MatchConflict(t).Some? ==> forall sh :: ConflictAt(t, sh) ==> ShapeLeq(MatchConflict(t).value, sh)
    ensures MatchConflict(t).None? <==> forall sh :: !ConflictAt(t, sh)
  {
  }

  /** Pass 1 over the whole text. */
  function Pass1(t: string): (r: string)
    ensures |r| <= |t|
    decreases |t|
  {
    if t == [] then []
    else
      match MatchConflict(t)
      case Some(sh) => t[13..13 + sh.ours] + "\n" + Pass1(t[ShapeEnd(sh)..])
      case None => [t[0]] + Pass1(t[1..])
  }

  // ---------------------------------------------------------------------------
  // Pass 2: `(.*?)\n=======\n.*?(?=\n[^=]|\n$|\nconst |\nfunction |\nif |\n})`
  //         (DOTALL | MULTILINE) -> `\1`
  // ---------------------------------------------------------------------------

  /** The lookahead of pass 2, alternative by alternative, at index `j`. */
  predicate Pass2Lookahead(t: string, j: nat) {
    || (j + 1 < |t| && t[j] == '\n' && t[j + 1] != '=')
    || (j < |t| && t[j] == '\n' && (j + 1 == |t| || t[j + 1] == '\n'))
    || OccursAt(t, "\nconst ", j)
    || OccursAt(t, "\nfunction ", j)
    || OccursAt(t, "\nif ", j)
    || OccursAt(t, "\n}", j)
  }

  /** Where the lookahead of pass 2 holds: every alternative is a newline
      followed by the end of the text or by a character other than `=`, and
      `\n[^=]` and `\n$` between them cover all such newlines
      (Pass2LookaheadIsBoundary). */
  predicate Pass2Boundary(t: string, j: nat) {
    j < |t| && t[j] == '\n' && (j + 1 == |t| || t[j + 1] != '=')
  }

  lemma Pass2LookaheadIsBoundary(t: string, j: nat)
    ensures Pass2Lookahead(t, j) <==> Pass2Boundary(t, j)
  {
    if OccursAt(t, "\nconst ", j) { OccursNewlineThen(t, "\nconst ", j); }
    if OccursAt(t, "\nfunction ", j) { OccursNewlineThen(t, "\nfunction ", j); }
    if OccursAt(t, "\nif ", j) { OccursNewlineThen(t, "\nif ", j); }
    if OccursAt(t, "\n}", j) { OccursNewlineThen(t, "\n}", j); }
  }

  /** A pattern that begins with a newline and then a character other than `=`
      occurs only where the lookahead of pass 2 holds. */
  lemma OccursNewlineThen(t: string, p: string, j: nat)
    requires |p| >= 2 && p[0] == '\n' && p[1] != '=' && OccursAt(t, p, j)
    ensures Pass2Boundary(t, j)
  {
    assert t[j..j + |p|][0] == t[j] && t[j..j + |p|][1] == t[j + 1];
  }

  function FindBoundary(t: string, from: nat): (r: Option<nat>)
    ensures r.Some? ==> from <= r.value && Pass2Boundary(t, r.value)
    ensures r.Some? ==> forall k: nat :: from <= k < r.value ==> !Pass2Boundary(t, k)
    ensures r.None? ==> forall k: nat :: from <= k ==> !Pass2Boundary(t, k)
    decreases |t| - from
  {
    if |t| <= from then None
    else if Pass2Boundary(t, from) then Some(from)
    else FindBoundary(t, from + 1)
  }

  /** A pass-2 match starting at index 0: group 1 is `t[..sep]`, the separator
      starts at `sep`, and the match ends at `stop`, where the lookahead holds. */
  datatype Cut = Cut(sep: nat, stop: nat)

  predicate SeparatorAt(t: string, c: Cut) {
    OccursAt(t, Separator, c.sep) && c.sep + 9 <= c.stop && Pass2Boundary(t, c.stop)
  }

  predicate CutLeq(x: Cut, y: Cut) {
    x.sep < y.sep || (x.sep == y.sep && x.stop <= y.stop)
  }

  /** The match of the pass-2 pattern at the start of `t`, if any: the least cut
      in the order in which the two lazy groups are tried. */
  function MatchSeparator(t: string): (r: Option<Cut>)
    ensures r.Some? ==> SeparatorAt(t, r.value)
  {
    match FindFrom(t, Separator, 0)
    case None => None
    case Some(s) =>
      match FindBoundary(t, s + 9)
      case None => None
      case Some(j) =>
        assert SeparatorAt(t, Cut(s, j));
        Some(Cut(s, j))
  }

  /** The match MatchSeparator finds is the least cut that fits, in the order
      the two lazy groups are tried. It finds none exactly when no cut fits. */
  lemma MatchSeparatorLeast(t: string)
    ensures MatchSeparator(t).Some? ==> forall c :: SeparatorAt(t, c) ==> CutLeq(MatchSeparator(t).value, c)
    ensures MatchSeparator(t).None? <==> forall c :: !SeparatorAt(t, c)
  {
  }

  /** Pass 2 over the whole text. */
  function Pass2(t: string): (r: string)
    ensures |r| <= |t|
    decreases |t|
  {
    if t == [] then []
    else
      match MatchSeparator(t)
      case Some(c) => t[..c.sep] + Pass2(t[c.stop..])
      case None => [t[0]] + Pass2(t[1..])
  }

  // ---------------------------------------------------------------------------
  // Pass 3: `^=======\n.*?(?=\nconst |\nfunction |\nif |\n}|\nlet |\nvar |$)`
  //         (MULTILINE | DOTALL) -> ``
  // ---------------------------------------------------------------------------

  /** The lookahead of pass 3, alternative by alternative, at index `k`. */
  predicate Pass3Lookahead(t: string, k: nat) {
    || OccursAt(t, "\nconst ", k)
    || OccursAt(t, "\nfunction ", k)
    || OccursAt(t, "\nif ", k)
    || OccursAt(t, "\n}", k)
    || OccursAt(t, "\nlet ", k)
    || OccursAt(t, "\nvar ", k)
    || k == |t|
    || (k < |t| && t[k] == '\n')
  }

  /** Where the lookahead of pass 3 holds: with MULTILINE, `$` holds before every
      newline and at the end, and every other alternative starts with a newline,
      so it is exactly "end of text or a newline" (Pass3LookaheadIsBoundary). */
  predicate Pass3Boundary(t: string, k: nat) {
    k == |t| || (k < |t| && t[k] == '\n')
  }

  lemma Pass3LookaheadIsBoundary(t: string, k: nat)
    requires k <= |t|
    ensures Pass3Lookahead(t, k) <==> Pass3Boundary(t, k)
  {
    if OccursAt(t, "\nconst ", k) { OccursNewline(t, "\nconst ", k); }
    if OccursAt(t, "\nfunction ", k) { OccursNewline(t, "\nfunction ", k); }
    if OccursAt(t, "\nif ", k) { OccursNewline(t, "\nif ", k); }
    if OccursAt(t, "\n}", k) { OccursNewline(t, "\n}", k); }
    if OccursAt(t, "\nlet ", k) { OccursNewline(t, "\nlet ", k); }
    if OccursAt(t, "\nvar ", k) { OccursNewline(t, "\nvar ", k); }
  }

  /** A pattern that begins with a newline occurs only at a newline. */
  lemma OccursNewline(t: string, p: string, k: nat)
    requires p != [] && p[0] == '\n' && OccursAt(t, p, k)
    ensures k < |t| && t[k] == '\n'
  {
    assert t[k..k + |p|][0] == t[k];
  }

  /** Where the lazy `.*?` of pass 3 stops: the first index at or after `from`
      where the lookahead holds (the end of the text at the latest). */
  function Pass3Stop(t: string, from: nat): (r: nat)
    requires from <= |t|
    ensures from <= r <= |t| && Pass3Boundary(t, r)
    ensures forall k: nat :: from <= k < r ==> !Pass3Boundary(t, k)
    decreases |t| - from
  {
    if Pass3Boundary(t, from) then from else Pass3Stop(t, from + 1)
  }

  function Pass3From(t: string, bol: bool): (r: string)
    ensures |r| <= |t|
    decreases |t|
  {
    if t == [] then []
    else if bol && HasPrefix(t, SeparatorLine) then
      var k := Pass3Stop(t, 8);
      Pass3From(t[k..], t[k - 1] == '\n')
    else [t[0]] + Pass3From(t[1..], t[0] == '\n')
  }

  /** Pass 3 over the whole text: index 0 is the start of a line. */
  function Pass3(t: string): string {
    Pass3From(t, true)
  }

  // ---------------------------------------------------------------------------
  // Pass 4: `^=======.*$` (MULTILINE) -> ``
  // ---------------------------------------------------------------------------

  /** Where the greedy `.*` of pass 4 (no DOTALL: it stops at a newline) ends,
      for a match at the start of `t`; `$` holds there. */
  function Pass4Stop(t: string): (r: nat)
    requires HasPrefix(t, Mark)
    ensures 7 <= r <= |t| && (r == |t| || t[r] == '\n')
    ensures forall k :: 7 <= k < r ==> t[k] != '\n'
  {
    7 + LineEnd(t[7..])
  }

  function Pass4From(t: string, bol: bool): (r: string)
    ensures |r| <= |t|
    decreases |t|
  {
    if t == [] then []
    else if bol && HasPrefix(t, Mark) then
      var k := Pass4Stop(t);
      Pass4From(t[k..], t[k - 1] == '\n')
    else [t[0]] + Pass4From(t[1..], t[0] == '\n')
  }

  /** Pass 4 over the whole text: index 0 is the start of a line. */
  function Pass4(t: string): string {
    Pass4From(t, true)
  }

  // ---------------------------------------------------------------------------
  // The whole resolver
  // ---------------------------------------------------------------------------

  /** resolve_conflicts without the file read and write. */
  function Resolve(t: string): string {
    Pass4(Pass3(Pass2(Pass1(t))))
  }

  // ---------------------------------------------------------------------------
  // Pass 1 properties
  // ---------------------------------------------------------------------------

  /** No occurrence of `p` starts inside `x` when `x` is followed by `p`. */
  predicate StartsOnlyAfter(x: string, p: string) {
    forall k: nat :: k < |x| ==> !OccursAt(x + p, p, k)
  }

  /** StartsOnlyAfter carried over to a text that holds `x + p` at `off`. */
  lemma StartsOnlyAfterIn(t: string, x: string, p: string, off: nat)
    requires StartsOnlyAfter(x, p)
    requires off + |x| + |p| <= |t| && t[off..off + |x| + |p|] == x + p
    ensures forall k: nat :: off <= k < off + |x| ==> !OccursAt(t, p, k)
  {
    forall k: nat | off <= k < off + |x| ensures !OccursAt(t, p, k) {
      OccursInWindow(t, x + p, off, p, k - off);
    }
  }

  /** A text without newlines cannot hide an occurrence of a marker that begins
      with a newline. */
  lemma NoNewlineStartsOnlyAfter(x: string, p: string)
    requires '\n' !in x && p != [] && p[0] == '\n'
    ensures StartsOnlyAfter(x, p)
  {
    forall k: nat | k < |x| ensures !OccursAt(x + p, p, k) {
      assert (x + p)[k] == x[k];
    }
  }

  /** Text before a conflict region is copied as it is, provided no
      `<<<<<<< HEAD\n` starts inside it. */
  lemma {:induction false} Pass1Prefix(u: string, v: string)
    requires forall k: nat :: k < |u| ==> !OccursAt(u + v, OursMarker, k)
    ensures Pass1(u + v) == u + Pass1(v)
    decreases |u|
  {
    if u == [] {
      assert u + v == v;
    } else {
      var t := u + v;
      assert !OccursAt(t, OursMarker, 0);
      assert MatchConflict(t).None?;
      assert t[1..] == u[1..] + v;
      forall k: nat | k < |u[1..]| ensures !OccursAt(u[1..] + v, OursMarker, k) {
        OccursAtShift(t, OursMarker, k);
      }
      Pass1Prefix(u[1..], v);
    }
  }

  /** The match at the start of `t` has the given shape when the pattern fits it
      and no earlier choice of the lazy groups does: no separator starts inside
      the ours part, no theirs marker inside the theirs part and no newline
      inside the label. */
  lemma MatchConflictIs(t: string, want: Shape)
    requires ConflictAt(t, want)
    requires forall k: nat :: 13 <= k < 13 + want.ours ==> !OccursAt(t, Separator, k)
    requires forall k: nat :: 22 + want.ours <= k < 22 + want.ours + want.theirs ==> !OccursAt(t, TheirsMarker, k)
    requires forall k :: 31 + want.ours + want.theirs <= k < 31 + want.ours + want.theirs + want.tag ==> t[k] != '\n'
    ensures MatchConflict(t) == Some(want)
  {
    MatchConflictLeast(t);
    LeastShapeIs(t, MatchConflict(t).value, want);
  }

  /** A fitting shape no greater than `want`, when nothing fits earlier than
      `want`, is `want`. */
  lemma LeastShapeIs(t: string, got: Shape, want: Shape)
    requires ConflictAt(t, got) && ConflictAt(t, want) && ShapeLeq(got, want)
    requires forall k: nat :: 13 <= k < 13 + want.ours ==> !OccursAt(t, Separator, k)
    requires forall k: nat :: 22 + want.ours <= k < 22 + want.ours + want.theirs ==> !OccursAt(t, TheirsMarker, k)
    requires forall k :: 31 + want.ours + want.theirs <= k < 31 + want.ours + want.theirs + want.tag ==> t[k] != '\n'
    ensures got == want
  {
    var s: nat, m: nat, e: nat := 13 + got.ours, 22 + got.ours + got.theirs, 31 + got.ours + got.theirs + got.tag;
    assert got.ours < want.ours ==> !OccursAt(t, Separator, s);
    assert got.ours == want.ours;
    assert got.theirs < want.theirs ==> !OccursAt(t, TheirsMarker, m);
    assert got.theirs == want.theirs;
    OccursChar(t, '\n', e);
    var ch := t[e];
    assert got.tag < want.tag ==> ch != '\n';
  }

  /** Pass 1 on a well-formed region: `<<<<<<< HEAD\n` + ours + `\n=======\n` +
      theirs + `\n>>>>>>> ` + tag + `\n` becomes ours + `\n`, where no separator
      starts inside ours, no theirs marker starts inside theirs and the tag (the
      label of the theirs marker) has no newline. Scanning then resumes after the
      region. */
  lemma Pass1Region(ours: string, theirs: string, tag: string, rest: string)
    requires StartsOnlyAfter(ours, Separator)
    requires StartsOnlyAfter(theirs, TheirsMarker)
    requires '\n' !in tag
    ensures Pass1(OursMarker + ours + Separator + theirs + TheirsMarker + tag + "\n" + rest)
         == ours + "\n" + Pass1(rest)
  {
    var t := OursMarker + ours + Separator + theirs + TheirsMarker + tag + "\n" + rest;
    Pass1Pieces(ours, theirs, tag, rest);
    Pass1RegionIn(t, ours, theirs, tag, rest);
    Pass1At(t, Shape(|ours|, |theirs|, |tag|));
  }

  /** The pieces of a conflict region, recovered by slicing. */
  lemma Pass1Pieces(ours: string, theirs: string, tag: string, rest: string)
    ensures var t := OursMarker + ours + Separator + theirs + TheirsMarker + tag + "\n" + rest;
      && |t| == 32 + |ours| + |theirs| + |tag| + |rest|
      && t[..13] == OursMarker
      && t[13..22 + |ours|] == ours + Separator
      && t[22 + |ours|..31 + |ours| + |theirs|] == theirs + TheirsMarker
      && t[31 + |ours| + |theirs|..] == tag + "\n" + rest
      && t[13..13 + |ours|] == ours
      && t[32 + |ours| + |theirs| + |tag|..] == rest
  {
    var w2, w3, w4 := ours + Separator, theirs + TheirsMarker, tag + "\n" + rest;
    var t := OursMarker + w2 + w3 + w4;
    assert t == OursMarker + ours + Separator + theirs + TheirsMarker + tag + "\n" + rest;
    Slices4(OursMarker, w2, w3, w4);
    assert t[13..13 + |ours|] == w2[..|ours|] == ours;
    assert t[32 + |ours| + |theirs| + |tag|..] == w4[|tag| + 1..] == rest;
  }

  /** One step of pass 1 where the pattern matches at the start: only unfolds
      the definition, for Pass1Region. */
  lemma Pass1At(t: string, sh: Shape)
    requires MatchConflict(t) == Some(sh)
    ensures Pass1(t) == t[13..13 + sh.ours] + "\n" + Pass1(t[ShapeEnd(sh)..])
  {
    assert ConflictAt(t, sh);
  }

  /** Pass1Region with the text given by its slices. */
  lemma Pass1RegionIn(t: string, ours: string, theirs: string, tag: string, rest: string)
    requires StartsOnlyAfter(ours, Separator)
    requires StartsOnlyAfter(theirs, TheirsMarker)
    requires '\n' !in tag
    requires |t| == 32 + |ours| + |theirs| + |tag| + |rest|
    requires t[..13] == OursMarker
    requires t[13..22 + |ours|] == ours + Separator
    requires t[22 + |ours|..31 + |ours| + |theirs|] == theirs + TheirsMarker
    requires t[31 + |ours| + |theirs|..] == tag + "\n" + rest
    ensures MatchConflict(t) == Some(Shape(|ours|, |theirs|, |tag|))
  {
    FirstOccurrence(t, 13, ours, Separator);
    FirstOccurrence(t, 22 + |ours|, theirs, TheirsMarker);
    FirstNewline(t, 31 + |ours| + |theirs|, tag, rest);
    var want := Shape(|ours|, |theirs|, |tag|);
    assert HasPrefix(t, OursMarker);
    assert ConflictAt(t, want);
    MatchConflictIs(t, want);
  }

  /** Where `x + p` stands at `off` and no `p` starts inside `x`, the first `p`
      from `off` on is the one right after `x`. */
  lemma FirstOccurrence(t: string, off: nat, x: string, p: string)
    requires off + |x| + |p| <= |t| && t[off..off + |x| + |p|] == x + p
    requires StartsOnlyAfter(x, p)
    ensures OccursAt(t, p, off + |x|)
    ensures forall k: nat :: off <= k < off + |x| ==> !OccursAt(t, p, k)
  {
    AfterPrefix(x, p);
    OccursInWindow(t, x + p, off, p, |x|);
    StartsOnlyAfterIn(t, x, p, off);
  }

  /** Where `tag + "\n" + rest` stands at `off` and `tag` has no newline, the
      first newline from `off` on is the one right after `tag`. */
  lemma FirstNewline(t: string, off: nat, tag: string, rest: string)
    requires off <= |t| && t[off..] == tag + "\n" + rest && '\n' !in tag
    ensures OccursAt(t, "\n", off + |tag|)
    ensures forall k :: off <= k < off + |tag| ==> t[k] != '\n'
  {
    var w := tag + "\n" + rest;
    AroundNewline(tag, rest);
    assert t[off + |tag|] == w[|tag|];
    OccursChar(t, '\n', off + |tag|);
    forall k | off <= k < off + |tag| ensures t[k] != '\n' {
      assert t[k] == w[k - off] == tag[k - off];
    }
  }

  /** Pass 1 does not match a region whose theirs marker is not followed by a
      newline: the label runs to the end of the text. */
  lemma Pass1Unterminated(ours: string, theirs: string, tag: string)
    requires StartsOnlyAfter(ours, Separator)
    requires StartsOnlyAfter(theirs, TheirsMarker)
    requires '\n' !in tag
    ensures MatchConflict(OursMarker + ours + Separator + theirs + TheirsMarker + tag).None?
  {
    var w2, w3 := ours + Separator, theirs + TheirsMarker;
    var t := OursMarker + w2 + w3 + tag;
    assert t == OursMarker + ours + Separator + theirs + TheirsMarker + tag;
    var a, b := |ours|, |theirs|;
    Slices4(OursMarker, w2, w3, tag);
    forall sh | ConflictAt(t, sh) ensures false {
      if sh.ours < a {
        OccursInWindow(t, w2, 13, Separator, sh.ours);
      }
      var m := 22 + sh.ours + sh.theirs;
      if m < 22 + a + b {
        OccursInWindow(t, w3, 22 + a, TheirsMarker, m - 22 - a);
      }
      var e := 31 + sh.ours + sh.theirs + sh.tag;
      OccursChar(t, '\n', e);
    }
  }

  /** Pass 1 changes nothing in a text without a `\n=======\n`. */
  lemma {:induction false} Pass1NoSeparator(t: string)
    requires Absent(t, Separator)
    ensures Pass1(t) == t
    decreases |t|
  {
    if t != [] {
      assert forall sh :: !ConflictAt(t, sh);
      forall k: nat | k <= |t[1..]| ensures !OccursAt(t[1..], Separator, k) {
        OccursAtShift(t, Separator, k);
      }
      Pass1NoSeparator(t[1..]);
      assert t == [t[0]] + t[1..];
    }
  }

  /** Pass 1 changes nothing in a text without `<<<<<<< HEAD\n`, e.g. one whose
      ours markers carry another label. */
  lemma Pass1NoOursMarker(t: string)
    requires Absent(t, OursMarker)
    ensures Pass1(t) == t
  {
    assert t + [] == t;
    Pass1Prefix(t, []);
  }

  // ---------------------------------------------------------------------------
  // Pass 2 properties
  // ---------------------------------------------------------------------------

  /** The match at the start of `t` is the given cut when the pattern fits it and
      no earlier choice does: no separator before it and no lookahead position
      between the end of that separator and the stop. */
  lemma MatchSeparatorIs(t: string, want: Cut)
    requires SeparatorAt(t, want)
    requires forall k: nat :: k < want.sep ==> !OccursAt(t, Separator, k)
    requires forall k: nat :: want.sep + 9 <= k < want.stop ==> !Pass2Boundary(t, k)
    ensures MatchSeparator(t) == Some(want)
  {
    MatchSeparatorLeast(t);
    var got := MatchSeparator(t).value;
    assert CutLeq(got, want);
    var s: nat, j: nat := got.sep, got.stop;
    assert got.sep < want.sep ==> !OccursAt(t, Separator, s);
    assert got.sep == want.sep;
    assert got.stop < want.stop ==> !Pass2Boundary(t, j);
  }

  /** A text on which pass 2 finds no match at index 0 has no match further on
      either, so pass 2 returns it unchanged. */
  lemma {:induction false} Pass2Unmatched(t: string)
    requires MatchSeparator(t).None?
    ensures Pass2(t) == t
    decreases |t|
  {
    if t != [] {
      forall c | SeparatorAt(t[1..], c) ensures SeparatorAt(t, Cut(c.sep + 1, c.stop + 1)) {
        SeparatorShift(t, c);
      }
      Pass2Unmatched(t[1..]);
      assert t == [t[0]] + t[1..];
    }
  }

  /** A pass-2 match inside the tail of `t` is one in `t`, one index further on. */
  lemma SeparatorShift(t: string, c: Cut)
    requires |t| > 0 && SeparatorAt(t[1..], c)
    ensures SeparatorAt(t, Cut(c.sep + 1, c.stop + 1))
  {
    OccursAtShift(t, Separator, c.sep);
    assert t[1..][c.stop] == t[c.stop + 1];
    assert c.stop + 2 < |t| ==> t[1..][c.stop + 1] == t[c.stop + 2];
  }

  /** Pass 2 changes nothing in a text without a `\n=======\n`. */
  lemma Pass2NoSeparator(t: string)
    requires Absent(t, Separator)
    ensures Pass2(t) == t
  {
    Pass2Unmatched(t);
  }

  /** Pass 2 keeps the text `u` before the first `\n=======\n` and deletes from
      there up to the first newline that is followed by the end of the text or
      by a character other than `=`; here `w` is what lies between, every newline
      in it being followed by `=`. Scanning then resumes at that newline. */
  lemma Pass2Region(u: string, w: string, rest: string)
    requires StartsOnlyAfter(u, Separator)
    requires forall k :: 0 <= k < |w| && w[k] == '\n' ==> k + 1 < |w| && w[k + 1] == '='
    requires Pass2Boundary(rest, 0)
    ensures Pass2(u + Separator + w + rest) == u + Pass2(rest)
  {
    var t := u + Separator + w + rest;
    Pass2Pieces(u, w, rest);
    Pass2RegionIn(t, u, w, rest);
    Pass2At(t, Cut(|u|, |u| + 9 + |w|));
  }

  /** The pieces of a pass-2 region, recovered by slicing. */
  lemma Pass2Pieces(u: string, w: string, rest: string)
    ensures var t := u + Separator + w + rest;
      && |t| == |u| + 9 + |w| + |rest|
      && t[..|u| + 9] == u + Separator
      && t[|u| + 9..|u| + 9 + |w|] == w
      && t[|u| + 9 + |w|..] == rest
      && t[..|u|] == u
  {
    var w1 := u + Separator;
    var t := w1 + w + rest;
    assert t == u + Separator + w + rest;
    var a, b := |u|, |w|;
    assert t[..a + 9] == w1 && t[a + 9..a + 9 + b] == w && t[a + 9 + b..] == rest;
    assert t[..a] == w1[..a] == u;
  }

  /** One step of pass 2 where the pattern matches at the start: only unfolds
      the definition, for Pass2Region. */
  lemma Pass2At(t: string, c: Cut)
    requires MatchSeparator(t) == Some(c)
    ensures Pass2(t) == t[..c.sep] + Pass2(t[c.stop..])
  {
    assert SeparatorAt(t, c);
  }

  /** Pass2Region with the text given by its slices. */
  lemma Pass2RegionIn(t: string, u: string, w: string, rest: string)
    requires StartsOnlyAfter(u, Separator)
    requires forall k :: 0 <= k < |w| && w[k] == '\n' ==> k + 1 < |w| && w[k + 1] == '='
    requires Pass2Boundary(rest, 0)
    requires |t| == |u| + 9 + |w| + |rest|
    requires t[..|u| + 9] == u + Separator
    requires t[|u| + 9..|u| + 9 + |w|] == w
    requires t[|u| + 9 + |w|..] == rest
    ensures MatchSeparator(t) == Some(Cut(|u|, |u| + 9 + |w|))
  {
    var a, b := |u|, |w|;
    var w1 := u + Separator;
    assert w1[a..] == Separator;
    OccursInWindow(t, w1, 0, Separator, a);
    Pass2StopAt(t, a + 9 + b, rest);
    var want := Cut(a, a + 9 + b);
    assert SeparatorAt(t, want);
    StartsOnlyAfterIn(t, u, Separator, 0);
    forall k: nat | a + 9 <= k < a + 9 + b ensures !Pass2Boundary(t, k) {
      var x := k - a - 9;
      assert t[k] == w[x];
      assert x + 1 < b ==> t[k + 1] == w[x + 1];
    }
    MatchSeparatorIs(t, want);
  }

  /** The lookahead of pass 2 holds where a suffix starts that satisfies it. */
  lemma Pass2StopAt(t: string, j: nat, rest: string)
    requires j <= |t| && t[j..] == rest && Pass2Boundary(rest, 0)
    ensures Pass2Boundary(t, j)
  {
    assert t[j] == rest[0];
    assert j + 1 < |t| ==> t[j + 1] == rest[1];
  }

  // ---------------------------------------------------------------------------
  // Pass 3 properties
  // ---------------------------------------------------------------------------

  /** A newline is copied whatever `bol` says, and the next line starts after it. */
  lemma Pass3AtNewline(t: string, bol: bool)
    requires t != [] && t[0] == '\n'
    ensures Pass3From(t, bol) == "\n" + Pass3(t[1..])
  {
    if |t| >= 8 {
      assert t[..8][0] == t[0];
    }
  }

  /** A line other than `=======` that ends with a newline is no match for pass 3. */
  lemma NotSeparatorLine(line: string, rest: string)
    requires '\n' !in line && line != Mark
    ensures !HasPrefix(line + "\n" + rest, SeparatorLine)
  {
    var t := line + "\n" + rest;
    assert t[..|line|] == line && t[|line|] == '\n';
    if |t| >= 8 {
      if |line| < 7 {
        assert t[..8][|line|] == '\n' != SeparatorLine[|line|];
      } else if |line| == 7 {
        assert t[..8][..7] == line != SeparatorLine[..7];
      } else {
        assert t[..8][7] == line[7] != '\n';
      }
    }
  }

  /** Pass 3 leaves a line other than `=======` as it is. */
  lemma Pass3Line(line: string, rest: string)
    requires '\n' !in line && line != Mark
    ensures Pass3(line + "\n" + rest) == line + "\n" + Pass3(rest)
  {
    var t := line + "\n" + rest;
    if line == [] {
      assert t == "\n" + rest;
      Pass3AtNewline(t, true);
    } else {
      NotSeparatorLine(line, rest);
      HeadTail(line, rest);
      assert line[0] in line;
      Pass3CopyTail(line[1..], rest);
      Recons(line, Pass3(rest));
    }
  }

  /** The rest of a line that does not start a line is copied by pass 3. */
  lemma {:induction false} Pass3CopyTail(tail: string, rest: string)
    requires '\n' !in tail
    ensures Pass3From(tail + "\n" + rest, false) == tail + "\n" + Pass3(rest)
    decreases |tail|
  {
    var t := tail + "\n" + rest;
    if tail == [] {
      assert t == "\n" + rest;
      Pass3AtNewline(t, false);
    } else {
      HeadTail(tail, rest);
      assert tail[0] in tail;
      assert Pass3From(t, false) == [tail[0]] + Pass3From(t[1..], false);
      Pass3CopyTail(tail[1..], rest);
      Recons(tail, Pass3(rest));
    }
  }

  /** The rest of a last line (one without newline) that does not start a line
      is copied by pass 3. */
  lemma {:induction false} Pass3CopyLast(tail: string)
    requires '\n' !in tail
    ensures Pass3From(tail, false) == tail
    decreases |tail|
  {
    if tail != [] {
      assert tail[0] in tail;
      assert Pass3From(tail, false) == [tail[0]] + Pass3From(tail[1..], false);
      Pass3CopyLast(tail[1..]);
      assert tail == [tail[0]] + tail[1..];
    }
  }

  /** Pass 3 leaves a last line (one without newline) as it is. */
  lemma Pass3LastLine(line: string)
    requires '\n' !in line
    ensures Pass3(line) == line
  {
    if line != [] {
      if |line| >= 8 {
        assert line[..8][7] == line[7] != '\n';
      }
      assert line[0] in line;
      Pass3CopyLast(line[1..]);
      assert line == [line[0]] + line[1..];
    }
  }

  /** Pass 3 deletes a `=======` line together with the content of the line after
      it, and keeps that line's newline. */
  lemma Pass3SeparatorLine(x: string, rest: string)
    requires '\n' !in x
    ensures Pass3(SeparatorLine + x + "\n" + rest) == "\n" + Pass3(rest)
  {
    var t := SeparatorLine + x + "\n" + rest;
    var e := 8 + |x|;
    assert t[..8] == SeparatorLine;
    assert t[e] == '\n';
    forall k: nat | 8 <= k < e ensures !Pass3Boundary(t, k) {
      assert t[k] == x[k - 8];
    }
    assert Pass3Boundary(t, e);
    var k := Pass3Stop(t, 8);
    assert !(k < e) && !(e < k);
    assert k == e;
    assert t[e..] == "\n" + rest;
    Pass3AtNewline(t[e..], t[e - 1] == '\n');
  }

  /** A `=======` line followed by a last line: both disappear. */
  lemma Pass3SeparatorLast(x: string)
    requires '\n' !in x
    ensures Pass3(SeparatorLine + x) == ""
  {
    var t := SeparatorLine + x;
    assert t[..8] == SeparatorLine;
    forall k: nat | 8 <= k < |t| ensures !Pass3Boundary(t, k) {
      assert t[k] == x[k - 8];
    }
    assert Pass3Stop(t, 8) == |t|;
  }

  /** Pass 3 in terms of lines: a line that is exactly `=======` and has a line
      after it becomes, together with that line, one empty line; all other lines
      stay as they are. */
  function DropSeparatorLines(ls: seq<string>): (r: seq<string>)
    ensures |ls| >= 1 ==> |r| >= 1
    decreases |ls|
  {
    if |ls| <= 1 then ls
    else if ls[0] == Mark then
      if |ls| == 2 then [""] else [""] + DropSeparatorLines(ls[2..])
    else [ls[0]] + DropSeparatorLines(ls[1..])
  }

  lemma {:induction false} Pass3Lines(t: string)
    ensures Split(Pass3(t)) == DropSeparatorLines(Split(t))
    decreases |t|
  {
    var k := LineEnd(t);
    if k == |t| {
      Pass3LinesLast(t);
    } else {
      FirstLine(t);
      var line, rest := t[..k], t[k + 1..];
      if line == Mark {
        var k2 := LineEnd(rest);
        if k2 == |rest| {
          Pass3LinesSeparatorLast(rest);
        } else {
          FirstLine(rest);
          Pass3Lines(rest[k2 + 1..]);
          Pass3LinesSeparator(rest[..k2], rest[k2 + 1..]);
        }
      } else {
        Pass3Lines(rest);
        Pass3LinesOther(line, rest);
      }
    }
  }

  /** Pass3Lines for a text of one line. */
  lemma Pass3LinesLast(t: string)
    requires LineEnd(t) == |t|
    ensures Split(Pass3(t)) == DropSeparatorLines(Split(t))
  {
    OnlyLine(t);
    SplitSingle(t);
    Pass3LastLine(t);
  }

  /** Pass3Lines for a first line other than `=======`, given it for the rest. */
  lemma Pass3LinesOther(line: string, rest: string)
    requires '\n' !in line && line != Mark
    requires Split(Pass3(rest)) == DropSeparatorLines(Split(rest))
    ensures var t := line + "\n" + rest;
      Split(Pass3(t)) == DropSeparatorLines(Split(t))
  {
    var t := line + "\n" + rest;
    SplitLine(line, rest);
    Pass3Line(line, rest);
    SplitLine(line, Pass3(rest));
    assert Split(t)[1..] == Split(rest);
  }

  /** Pass3Lines for a `=======` line and the line after it, given it for the rest. */
  lemma Pass3LinesSeparator(x: string, rest: string)
    requires '\n' !in x
    requires Split(Pass3(rest)) == DropSeparatorLines(Split(rest))
    ensures var t := Mark + "\n" + (x + "\n" + rest);
      Split(Pass3(t)) == DropSeparatorLines(Split(t))
  {
    var r1 := x + "\n" + rest;
    SeparatorLineIsMark();
    Regroup(Mark, x, rest);
    SplitLine(Mark, r1);
    SplitLine(x, rest);
    Pass3SeparatorLine(x, rest);
    EmptyFirstLine(Pass3(rest));
    DropAfterMark(x, Split(rest));
  }

  lemma SeparatorLineIsMark()
    ensures SeparatorLine == Mark + "\n"
  {
  }

  /** A text starting with a newline has an empty first line. */
  lemma EmptyFirstLine(rest: string)
    ensures Split("\n" + rest) == [""] + Split(rest)
  {
    SplitLine("", rest);
    assert "" + "\n" + rest == "\n" + rest;
  }

  lemma DropAfterMark(x: string, ls: seq<string>)
    requires |ls| >= 1
    ensures DropSeparatorLines([Mark] + ([x] + ls)) == [""] + DropSeparatorLines(ls)
  {
    PastTwo(Mark, x, ls);
  }

  /** Pass3Lines for a `=======` line followed by a last line. */
  lemma Pass3LinesSeparatorLast(x: string)
    requires LineEnd(x) == |x|
    ensures var t := Mark + "\n" + x;
      Split(Pass3(t)) == DropSeparatorLines(Split(t))
  {
    OnlyLine(x);
    Pass3SeparatorLastLines(x);
    DropSeparatorLast(x);
  }

  /** Pass 3 leaves one empty line of a `=======` line followed by a last line. */
  lemma Pass3SeparatorLastLines(x: string)
    requires '\n' !in x
    ensures Split(Pass3(Mark + "\n" + x)) == [""]
  {
    SeparatorLineIsMark();
    Assoc(Mark, "\n", x);
    Pass3SeparatorLast(x);
    SplitSingle("");
  }

  /** The lines of a `=======` line followed by a last line drop to one empty line. */
  lemma DropSeparatorLast(x: string)
    requires '\n' !in x
    ensures DropSeparatorLines(Split(Mark + "\n" + x)) == [""]
  {
    SplitLine(Mark, x);
    SplitSingle(x);
    assert [Mark] + [x] == [Mark, x];
  }

  /** Lines with no `=======` line among them are left as they are. */
  lemma {:induction false} DropSeparatorLinesNone(ls: seq<string>)
    requires forall l :: l in ls ==> l != Mark
    ensures DropSeparatorLines(ls) == ls
    decreases |ls|
  {
    if |ls| > 1 {
      assert ls[0] in ls;
      assert forall l :: l in ls[1..] ==> l in ls;
      DropSeparatorLinesNone(ls[1..]);
      assert ls == [ls[0]] + ls[1..];
    }
  }

  // ---------------------------------------------------------------------------
  // Pass 4 properties
  // ---------------------------------------------------------------------------

  /** No line of `t` begins with `=======`. */
  predicate NoMarkedLine(t: string) {
    forall l :: l in Split(t) ==> !HasPrefix(l, Mark)
  }

  /** What pass 4 makes of one line: a line beginning with `=======` loses its
      content, any other line stays. */
  function Blank(line: string): (r: string)
    ensures !HasPrefix(r, Mark)
    ensures '\n' !in line ==> '\n' !in r
  {
    if HasPrefix(line, Mark) then "" else line
  }

  lemma Pass4AtNewline(t: string, bol: bool)
    requires t != [] && t[0] == '\n'
    ensures Pass4From(t, bol) == "\n" + Pass4(t[1..])
  {
    if |t| >= 7 {
      assert t[..7][0] == t[0];
    }
  }

  /** The first line of `line + rest` begins with `=======` exactly when `line`
      does, as long as `rest` starts a new line. */
  lemma MarkedLinePrefix(line: string, rest: string)
    requires '\n' !in line && (rest == [] || rest[0] == '\n')
    ensures HasPrefix(line + rest, Mark) <==> HasPrefix(line, Mark)
  {
    var t := line + rest;
    if |line| >= 7 {
      assert t[..7] == line[..7];
    } else if |t| >= 7 {
      assert t[..7][|line|] == '\n' != Mark[|line|];
    }
  }

  /** Pass 4 on one line followed by a newline. */
  lemma Pass4Line(line: string, rest: string)
    requires '\n' !in line
    ensures Pass4(line + "\n" + rest) == Blank(line) + "\n" + Pass4(rest)
  {
    if HasPrefix(line, Mark) {
      Pass4MarkedLine(line, rest);
    } else {
      Pass4PlainLine(line, rest);
    }
  }

  lemma Pass4MarkedLine(line: string, rest: string)
    requires '\n' !in line && HasPrefix(line, Mark)
    ensures Pass4(line + "\n" + rest) == "\n" + Pass4(rest)
  {
    var t := line + "\n" + rest;
    Assoc(line, "\n", rest);
    MarkedLinePrefix(line, "\n" + rest);
    DropInLine(line, rest, 7);
    LineEndAt(line[7..], rest);
    AroundNewline(line, rest);
    Pass4AtNewline(t[|line|..], t[|line| - 1] == '\n');
  }

  lemma Pass4PlainLine(line: string, rest: string)
    requires '\n' !in line && !HasPrefix(line, Mark)
    ensures Pass4(line + "\n" + rest) == line + "\n" + Pass4(rest)
  {
    var t := line + "\n" + rest;
    Assoc(line, "\n", rest);
    MarkedLinePrefix(line, "\n" + rest);
    if line == [] {
      Pass4AtNewline(t, true);
    } else {
      HeadTail(line, rest);
      Pass4CopyTail(line[1..], rest);
      Recons(line, Pass4(rest));
    }
  }

  /** The rest of a line that does not start a line is copied by pass 4. */
  lemma {:induction false} Pass4CopyTail(tail: string, rest: string)
    requires '\n' !in tail
    ensures Pass4From(tail + "\n" + rest, false) == tail + "\n" + Pass4(rest)
    decreases |tail|
  {
    var t := tail + "\n" + rest;
    if tail == [] {
      assert t == "\n" + rest;
      Pass4AtNewline(t, false);
    } else {
      HeadTail(tail, rest);
      assert tail[0] in tail;
      assert Pass4From(t, false) == [tail[0]] + Pass4From(t[1..], false);
      Pass4CopyTail(tail[1..], rest);
      Recons(tail, Pass4(rest));
    }
  }

  /** The rest of a last line (one without newline) that does not start a line
      is copied by pass 4. */
  lemma {:induction false} Pass4CopyLast(tail: string)
    requires '\n' !in tail
    ensures Pass4From(tail, false) == tail
    decreases |tail|
  {
    if tail != [] {
      assert tail[0] in tail;
      assert Pass4From(tail, false) == [tail[0]] + Pass4From(tail[1..], false);
      Pass4CopyLast(tail[1..]);
      assert tail == [tail[0]] + tail[1..];
    }
  }

  /** Pass 4 on a last line (one without newline). */
  lemma Pass4LastLine(line: string)
    requires '\n' !in line
    ensures Pass4(line) == Blank(line)
  {
    MarkedLinePrefix(line, []);
    assert line + [] == line;
    if HasPrefix(line, Mark) {
      LineEndOfLine(line[7..], []);
      assert line[7..] + [] == line[7..];
      assert Pass4Stop(line) == |line|;
    } else if line != [] {
      assert line[0] in line;
      Pass4CopyLast(line[1..]);
      assert line == [line[0]] + line[1..];
    }
  }

  /** Every line, blanked. */
  function BlankAll(ls: seq<string>): (r: seq<string>)
    ensures |r| == |ls| && forall i :: 0 <= i < |ls| ==> r[i] == Blank(ls[i])
  {
    seq(|ls|, i requires 0 <= i < |ls| => Blank(ls[i]))
  }

  /** Pass 4 in terms of lines: the same number of lines, each line that begins
      with `=======` emptied and every other line unchanged. */
  lemma {:induction false} Pass4Lines(t: string)
    ensures Split(Pass4(t)) == BlankAll(Split(t))
    decreases |t|
  {
    var k := LineEnd(t);
    if k == |t| {
      OnlyLine(t);
      SplitSingle(t);
      Pass4LastLine(t);
      SplitSingle(Blank(t));
    } else {
      var line, rest := t[..k], t[k + 1..];
      FirstLine(t);
      SplitLine(line, rest);
      Pass4Line(line, rest);
      SplitLine(Blank(line), Pass4(rest));
      Pass4Lines(rest);
      BlankAllCons(line, Split(rest));
    }
  }

  lemma BlankAllCons(line: string, ls: seq<string>)
    ensures BlankAll([line] + ls) == [Blank(line)] + BlankAll(ls)
  {
  }

  /** After pass 4 no line begins with `=======`. */
  lemma Pass4NoMarkedLine(t: string)
    ensures NoMarkedLine(Pass4(t))
  {
    Pass4Lines(t);
  }

  /** Pass 4 changes nothing in a text with no line beginning with `=======`. */
  lemma Pass4Unchanged(t: string)
    requires NoMarkedLine(t)
    ensures Pass4(t) == t
  {
    Pass4Lines(t);
    var ls := Split(t);
    assert BlankAll(ls) == ls;
    assert Pass4(t) == Join(Split(Pass4(t)));
  }

  /** Pass 3 changes nothing in a text with no line beginning with `=======`. */
  lemma Pass3Unchanged(t: string)
    requires NoMarkedLine(t)
    ensures Pass3(t) == t
  {
    Pass3Lines(t);
    var ls := Split(t);
    forall l | l in ls ensures l != Mark {
      assert !HasPrefix(l, Mark);
    }
    DropSeparatorLinesNone(ls);
    assert Pass3(t) == Join(Split(Pass3(t)));
  }

  // ---------------------------------------------------------------------------
  // Properties of the whole resolver
  // ---------------------------------------------------------------------------

  /** A `=======` standing at the start of a line (index 0 or right after a
      newline) makes a line that begins with `=======`. */
  lemma {:induction false} MarkedLineAt(t: string, j: nat)
    requires j + 7 <= |t| && (j == 0 || t[j - 1] == '\n') && t[j..j + 7] == Mark
    ensures !NoMarkedLine(t)
    decreases |t|
  {
    if j == 0 {
      MarkedFirstLine(t);
    } else {
      var k := LineEnd(t);
      assert k < j;
      var rest := t[k + 1..];
      var j1: nat := j - k - 1;
      assert j1 > 0 ==> rest[j1 - 1] == t[j - 1];
      assert rest[j1..j1 + 7] == t[j..j + 7];
      MarkedLineAt(rest, j1);
      NoMarkedLineTail(t);
    }
  }

  /** The lines after the first one of a clean text are clean. */
  lemma NoMarkedLineTail(t: string)
    requires LineEnd(t) < |t|
    ensures NoMarkedLine(t) ==> NoMarkedLine(t[LineEnd(t) + 1..])
  {
    SplitHead(t);
    var rest := t[LineEnd(t) + 1..];
    assert forall l :: l in Split(rest) ==> l in Split(t);
  }

  /** A text that begins with `=======` has a first line that does. */
  lemma MarkedFirstLine(t: string)
    requires HasPrefix(t, Mark)
    ensures !NoMarkedLine(t)
  {
    MarkNoNewline(t);
    var k := LineEnd(t);
    assert k >= 7;
    SplitHead(t);
    var line := Split(t)[0];
    assert line == t[..k];
    assert HasPrefix(line, Mark) by {
      assert line[..7] == t[..7];
    }
    assert line in Split(t);
  }

  /** The first seven characters of a text that begins with `=======` are no
      newlines. */
  lemma MarkNoNewline(t: string)
    requires HasPrefix(t, Mark)
    ensures forall i :: 0 <= i < 7 ==> t[i] != '\n'
  {
    forall i | 0 <= i < 7 ensures t[i] != '\n' {
      assert t[i] == t[..7][i];
    }
  }

  /** A text with no line beginning with `=======` has no `\n=======\n`. */
  lemma NoMarkedLineAbsent(t: string)
    requires NoMarkedLine(t)
    ensures Absent(t, Separator)
  {
    forall k: nat | k <= |t| ensures !OccursAt(t, Separator, k) {
      if OccursAt(t, Separator, k) {
        assert t[k..k + 9] == Separator;
        assert t[k] == '\n';
        assert t[k + 1..k + 8] == t[k..k + 9][1..8];
        MarkedLineAt(t, k + 1);
      }
    }
  }

  /** In a text with no line beginning with `=======`, no `\n=======\n` starts
      before the end even when one is appended. */
  lemma SeparatorOnlyAfterClean(x: string)
    requires NoMarkedLine(x)
    ensures StartsOnlyAfter(x, Separator)
  {
    forall k: nat | k < |x| ensures !OccursAt(x + Separator, Separator, k) {
      var t := x + Separator;
      if |x| < k + 8 {
        var i := |x| - k;
        assert t[k + i] == '\n' && Separator[i] == '=';
      } else if OccursAt(t, Separator, k) {
        assert x[k] == t[k..k + 9][0];
        assert t[k + 1..k + 8] == t[k..k + 9][1..8];
        assert x[k + 1..k + 8] == t[k + 1..k + 8];
        MarkedLineAt(x, k + 1);
      }
    }
  }

  /** The lines of `a + "\n" + b` are the lines of `a` followed by those of `b`. */
  lemma {:induction false} SplitConcat(a: string, b: string)
    ensures Split(a + "\n" + b) == Split(a) + Split(b)
    decreases |a|
  {
    var k := LineEnd(a);
    if k == |a| {
      OnlyLine(a);
      SplitLine(a, b);
      SplitSingle(a);
    } else {
      var l, a2 := a[..k], a[k + 1..];
      FirstLine(a);
      Regroup(l, a2, b);
      SplitLine(l, a2 + "\n" + b);
      SplitConcat(a2, b);
      SplitLine(l, a2);
    }
  }

  /** Once pass 1 leaves no line beginning with `=======`, passes 2 to 4 change
      nothing. */
  lemma ResolveAfterPass1(t: string)
    requires NoMarkedLine(Pass1(t))
    ensures Resolve(t) == Pass1(t)
  {
    var u := Pass1(t);
    NoMarkedLineAbsent(u);
    Pass2NoSeparator(u);
    Pass3Unchanged(u);
    Pass4Unchanged(u);
  }

  /** No line of the result begins with `=======`, and it holds no
      `\n=======\n`. */
  lemma ResolveNoMarkedLine(t: string)
    ensures NoMarkedLine(Resolve(t))
    ensures Absent(Resolve(t), Separator)
  {
    Pass4NoMarkedLine(Pass3(Pass2(Pass1(t))));
    NoMarkedLineAbsent(Resolve(t));
  }

  /** A text with no line beginning with `=======` is returned unchanged (in
      particular one without conflict markers). */
  lemma ResolveUnchanged(t: string)
    requires NoMarkedLine(t)
    ensures Resolve(t) == t
  {
    NoMarkedLineAbsent(t);
    Pass1NoSeparator(t);
    ResolveAfterPass1(t);
  }

  /** Resolving an already resolved text changes nothing. */
  lemma ResolveIdempotent(t: string)
    ensures Resolve(Resolve(t)) == Resolve(t)
  {
    ResolveNoMarkedLine(t);
    ResolveUnchanged(Resolve(t));
  }

  /** A text made of one well-formed conflict region followed by clean text
      resolves to the ours side followed by that text. */
  lemma ResolveRegion(ours: string, theirs: string, tag: string, rest: string)
    requires NoMarkedLine(ours) && NoMarkedLine(rest)
    requires StartsOnlyAfter(theirs, TheirsMarker)
    requires '\n' !in tag
    ensures Resolve(OursMarker + ours + Separator + theirs + TheirsMarker + tag + "\n" + rest)
         == ours + "\n" + rest
  {
    var t := OursMarker + ours + Separator + theirs + TheirsMarker + tag + "\n" + rest;
    SeparatorOnlyAfterClean(ours);
    Pass1Region(ours, theirs, tag, rest);
    NoMarkedLineAbsent(rest);
    Pass1NoSeparator(rest);
    SplitConcat(ours, rest);
    assert NoMarkedLine(ours + "\n" + rest);
    ResolveAfterPass1(t);
  }

  /** The conflict of the two versions of `const a`, resolved to ours. */
  lemma ResolveExample()
    ensures Resolve("<<<<<<< HEAD\nconst a = 1;\n=======\nconst a = 2;\n>>>>>>> feature\n")
         == "const a = 1;\n"
  {
    var ours, theirs, tag := "const a = 1;", "const a = 2;", "feature";
    ExampleRegion();
    ExampleClean();
    NoNewlineStartsOnlyAfter(theirs, TheirsMarker);
    ResolveRegion(ours, theirs, tag, "");
    assert ours + "\n" + "" == "const a = 1;\n";
  }

  /** The example text cut into the pieces of a conflict region. */
  lemma ExampleRegion()
    ensures "<<<<<<< HEAD\nconst a = 1;\n=======\nconst a = 2;\n>>>>>>> feature\n"
         == OursMarker + "const a = 1;" + Separator + "const a = 2;" + TheirsMarker + "feature" + "\n" + ""
  {
    var s1 := OursMarker + "const a = 1;";
    assert s1 == "<<<<<<< HEAD\nconst a = 1;";
    var s2 := s1 + Separator;
    assert s2 == "<<<<<<< HEAD\nconst a = 1;\n=======\n";
    var s3 := s2 + "const a = 2;";
    assert s3 == "<<<<<<< HEAD\nconst a = 1;\n=======\nconst a = 2;";
    var s4 := s3 + TheirsMarker;
    assert s4 == "<<<<<<< HEAD\nconst a = 1;\n=======\nconst a = 2;\n>>>>>>> ";
  }

  /** The sides of the example have no line beginning with `=======`. */
  lemma ExampleClean()
    ensures NoMarkedLine("const a = 1;") && NoMarkedLine("")
    ensures '\n' !in "const a = 2;" && '\n' !in "feature"
  {
    ExampleOurs();
    SplitSingle("");
    ExampleNoNewline();
  }

  lemma ExampleOurs()
    ensures NoMarkedLine("const a = 1;")
  {
    var ours := "const a = 1;";
    ExampleNoNewline();
    SplitSingle(ours);
    assert ours[0] != Mark[0];
  }

  lemma ExampleNoNewline()
    ensures '\n' !in "const a = 1;" && '\n' !in "const a = 2;" && '\n' !in "feature"
  {
  }

  // ---------------------------------------------------------------------------
  // A conflict with an empty ours side
  // ---------------------------------------------------------------------------

  /** Pass 1 changes nothing in a text where no `\n=======\n` starts at index
      13 or later: a match needs one at least 13 characters after the start of
      the ours marker it begins with. */
  lemma {:induction false} Pass1NoLateSeparator(t: string)
    requires forall k: nat :: 13 <= k ==> !OccursAt(t, Separator, k)
    ensures Pass1(t) == t
    decreases |t|
  {
    if t != [] {
      MatchConflictLeast(t);
      forall sh ensures !ConflictAt(t, sh) {
        assert !OccursAt(t, Separator, 13 + sh.ours);
      }
      forall k: nat | 13 <= k ensures !OccursAt(t[1..], Separator, k) {
        OccursAtShift(t, Separator, k);
      }
      Pass1NoLateSeparator(t[1..]);
      assert [t[0]] + t[1..] == t;
    }
  }

  /** A conflict whose ours side is empty: the separator line follows
      `<<<<<<< HEAD` directly, so the newline pass 1 expects before `=======`
      is the marker's own and pass 1 finds no region. Pass 2 then keeps
      `<<<<<<< HEAD` and deletes the separator line and the theirs line, so
      both marker lines are left in the output. */
  lemma ResolveEmptyOurs(theirs: string, tag: string)
    requires '\n' !in theirs && !HasPrefix(theirs, Mark) && '\n' !in tag
    ensures Resolve(OursMarker + SeparatorLine + theirs + TheirsMarker + tag + "\n")
         == "<<<<<<< HEAD" + TheirsMarker + tag + "\n"
  {
    EmptyOursPass1(theirs, tag);
    EmptyOursPass2(theirs, tag);
    EmptyOursResult(tag);
    ResolveTail("<<<<<<< HEAD" + TheirsMarker + tag + "\n");
  }

  /** Passes 3 and 4 change nothing in text with no line beginning with
      `=======`. */
  lemma ResolveTail(r: string)
    requires NoMarkedLine(r)
    ensures Pass4(Pass3(r)) == r
  {
    Pass3Unchanged(r);
    Pass4Unchanged(r);
  }

  /** The two marker lines that survive do not begin with `=======`. */
  lemma EmptyOursResult(tag: string)
    requires '\n' !in tag
    ensures NoMarkedLine("<<<<<<< HEAD" + TheirsMarker + tag + "\n")
  {
    var line := ">>>>>>> " + tag;
    EmptyOursSplit("", tag);
    MarkerLine(line, tag);
    NoMarkedLineEmpty();
    NoMarkedLineCons(line, "");
    NoMarkedLineCons("<<<<<<< HEAD", line + "\n" + "");
  }

  /** Pass 2 on the empty-ours conflict keeps `<<<<<<< HEAD` and the theirs
      marker line. */
  lemma EmptyOursPass2(theirs: string, tag: string)
    requires '\n' !in theirs && '\n' !in tag
    ensures Pass2(OursMarker + SeparatorLine + theirs + TheirsMarker + tag + "\n")
         == "<<<<<<< HEAD" + TheirsMarker + tag + "\n"
  {
    var u, rest := "<<<<<<< HEAD", TheirsMarker + tag + "\n";
    var line := ">>>>>>> " + tag;
    EmptyOursSplit(theirs, tag);
    NoNewlineStartsOnlyAfter(u, Separator);
    Pass2Region(u, theirs, rest);
    MarkerLine(line, tag);
    NoMarkedLineEmpty();
    NoMarkedLineCons(line, "");
    NoMarkedLineCons("", line + "\n" + "");
    NoMarkedLineAbsent(rest);
    Pass2NoSeparator(rest);
  }

  /** The empty-ours conflict cut where pass 2 cuts it. */
  lemma EmptyOursSplit(theirs: string, tag: string)
    ensures OursMarker + SeparatorLine + theirs + TheirsMarker + tag + "\n"
         == "<<<<<<< HEAD" + Separator + theirs + (TheirsMarker + tag + "\n")
    ensures TheirsMarker + tag + "\n" == "" + "\n" + ((">>>>>>> " + tag) + "\n" + "")
    ensures "<<<<<<< HEAD" + TheirsMarker + tag + "\n" == "<<<<<<< HEAD" + (TheirsMarker + tag + "\n")
    ensures "<<<<<<< HEAD" + TheirsMarker + tag + "\n" == "<<<<<<< HEAD" + "\n" + ((">>>>>>> " + tag) + "\n" + "")
  {
    assert OursMarker + SeparatorLine == "<<<<<<< HEAD" + Separator;
    assert TheirsMarker + tag == "\n" + (">>>>>>> " + tag);
  }

  /** In the empty-ours conflict no separator starts after the ours marker. */
  lemma EmptyOursPass1(theirs: string, tag: string)
    requires '\n' !in theirs && !HasPrefix(theirs, Mark) && '\n' !in tag
    ensures Pass1(OursMarker + SeparatorLine + theirs + TheirsMarker + tag + "\n")
         == OursMarker + SeparatorLine + theirs + TheirsMarker + tag + "\n"
  {
    var t := OursMarker + SeparatorLine + theirs + TheirsMarker + tag + "\n";
    var line := ">>>>>>> " + tag;
    var x := "======" + "\n" + (theirs + "\n" + (line + "\n" + ""));
    EmptyOursPieces(theirs, tag);
    MarkerLine(line, tag);
    NoMarkedLineEmpty();
    NoMarkedLineCons(line, "");
    NoMarkedLineCons(theirs, line + "\n" + "");
    NoMarkedLineCons("======", theirs + "\n" + (line + "\n" + ""));
    NoMarkedLineAbsent(x);
    NoSeparatorFrom(t, x, 13);
    Pass1NoLateSeparator(t);
  }

  /** A text whose index `off` holds `=` and whose remainder from `off + 1` has
      no `\n=======\n` has none from `off` on. */
  lemma NoSeparatorFrom(t: string, x: string, off: nat)
    requires off < |t| && t[off] == '=' && t[off + 1..] == x && Absent(x, Separator)
    ensures forall k: nat :: off <= k ==> !OccursAt(t, Separator, k)
  {
    forall k: nat | off <= k ensures !OccursAt(t, Separator, k) {
      if k == off {
        assert t[off..][0] == t[off];
      } else if k + 9 <= |t| {
        OccursInWindow(t, x, off + 1, Separator, k - off - 1);
      }
    }
  }

  /** The theirs-marker line `>>>>>>> label` is a single line that does not
      begin with `=======`. */
  lemma MarkerLine(line: string, tag: string)
    requires line == ">>>>>>> " + tag && '\n' !in tag
    ensures '\n' !in line && !HasPrefix(line, Mark)
  {
    assert line[0] == '>';
  }

  lemma NoMarkedLineEmpty()
    ensures NoMarkedLine("")
  {
    SplitSingle("");
  }

  /** A line that does not begin with `=======`, followed by text with no such
      line, has no such line. */
  lemma NoMarkedLineCons(line: string, s: string)
    requires '\n' !in line && !HasPrefix(line, Mark) && NoMarkedLine(s)
    ensures NoMarkedLine(line + "\n" + s)
  {
    SplitLine(line, s);
  }

  /** The conflict git writes when the ours side is empty keeps both marker
      lines after resolution. */
  lemma ResolveEmptyOursExample()
    ensures Resolve("<<<<<<< HEAD\n=======\nB\n>>>>>>> x\n") == "<<<<<<< HEAD\n>>>>>>> x\n"
  {
    EmptyOursExampleText();
    ResolveEmptyOurs("B", "x");
  }

  lemma EmptyOursExampleText()
    ensures OursMarker + SeparatorLine + "B" + TheirsMarker + "x" + "\n" == "<<<<<<< HEAD\n=======\nB\n>>>>>>> x\n"
    ensures "<<<<<<< HEAD" + TheirsMarker + "x" + "\n" == "<<<<<<< HEAD\n>>>>>>> x\n"
    ensures '\n' !in "B" && !HasPrefix("B", Mark) && '\n' !in "x"
  {
  }

  lemma EmptyOursPieces(theirs: string, tag: string)
    ensures var t := OursMarker + SeparatorLine + theirs + TheirsMarker + tag + "\n";
      && t[13] == '='
      && t[14..] == "======" + "\n" + (theirs + "\n" + ((">>>>>>> " + tag) + "\n" + ""))
  {
    var t := OursMarker + SeparatorLine + theirs + TheirsMarker + tag + "\n";
    var line := ">>>>>>> " + tag;
    var x := "======" + "\n" + (theirs + "\n" + (line + "\n" + ""));
    assert SeparatorLine == ['='] + ("======" + "\n");
    assert TheirsMarker + tag == "\n" + line;
    assert t == OursMarker + ['='] + x;
    assert |OursMarker| == 13;
  }

  // ---------------------------------------------------------------------------
  // A conflict with an empty theirs side
  // ---------------------------------------------------------------------------

  /** No theirs marker starts 9 or more characters after the start of a
      separator. */
  ghost predicate NoTheirsAfterSeparator(t: string) {
    forall s: nat, m: nat :: OccursAt(t, Separator, s) && s + 9 <= m ==> !OccursAt(t, TheirsMarker, m)
  }

  /** Pass 1 changes nothing in a text where no theirs marker starts 9 or more
      characters after the start of a separator: every match needs one there. */
  lemma {:induction false} Pass1NoTheirsAfterSeparator(t: string)
    requires NoTheirsAfterSeparator(t)
    ensures Pass1(t) == t
    decreases |t|
  {
    if t != [] {
      MatchConflictLeast(t);
      forall sh ensures !ConflictAt(t, sh) {
        assert !OccursAt(t, Separator, 13 + sh.ours) || !OccursAt(t, TheirsMarker, 22 + sh.ours + sh.theirs);
      }
      forall s: nat, m: nat | OccursAt(t[1..], Separator, s) && s + 9 <= m
        ensures !OccursAt(t[1..], TheirsMarker, m)
      {
        OccursAtShift(t, Separator, s);
        OccursAtShift(t, TheirsMarker, m);
      }
      Pass1NoTheirsAfterSeparator(t[1..]);
      assert [t[0]] + t[1..] == t;
    }
  }

  /** A conflict whose theirs side is empty: `>>>>>>> ` follows the separator
      line directly, so the newline pass 1 expects before it is the
      separator's own and pass 1 finds no region. Pass 2 then deletes the
      separator and the theirs-marker line, so the `<<<<<<< HEAD` line is left
      in the output. */
  lemma ResolveEmptyTheirs(ours: string, tag: string)
    requires '\n' !in ours && !HasPrefix(ours, Mark) && '\n' !in tag
    ensures Resolve(OursMarker + ours + Separator + ">>>>>>> " + tag + "\n") == OursMarker + ours + "\n"
  {
    EmptyTheirsPass1(ours, tag);
    EmptyTheirsPass2(ours, tag);
    EmptyTheirsResult(ours);
    ResolveTail(OursMarker + ours + "\n");
  }

  /** The pieces of the empty-theirs conflict, recovered by slicing. */
  lemma EmptyTheirsPieces(ours: string, tag: string)
    ensures var u, line := OursMarker + ours, ">>>>>>> " + tag;
      var t := OursMarker + ours + Separator + ">>>>>>> " + tag + "\n";
      && t == u + Separator + line + "\n"
      && t[..|u| + 9] == u + Separator
      && t[|u| + 1] == '='
      && t[|u| + 2..] == "======" + "\n" + (line + "\n" + "")
      && t[|u| + 9..] == line + "\n"
  {
    var u, line := OursMarker + ours, ">>>>>>> " + tag;
    var t := OursMarker + ours + Separator + ">>>>>>> " + tag + "\n";
    assert Separator == "\n" + ['='] + ("======" + "\n");
    assert t == u + Separator + (line + "\n");
  }

  /** In the empty-theirs conflict the only separator is the one after ours,
      and no theirs marker starts after it. */
  lemma EmptyTheirsPass1(ours: string, tag: string)
    requires '\n' !in ours && !HasPrefix(ours, Mark) && '\n' !in tag
    ensures Pass1(OursMarker + ours + Separator + ">>>>>>> " + tag + "\n")
         == OursMarker + ours + Separator + ">>>>>>> " + tag + "\n"
  {
    var u, line := OursMarker + ours, ">>>>>>> " + tag;
    var t := OursMarker + ours + Separator + ">>>>>>> " + tag + "\n";
    EmptyTheirsPieces(ours, tag);
    EmptyTheirsSeparator(ours, tag);
    MarkerLine(line, tag);
    FinalNewline(line, TheirsMarker);
    AbsentFrom(t, line + "\n", |u| + 9, TheirsMarker);
    Pass1NoTheirsAfterSeparator(t);
  }

  /** A pattern absent from the suffix from `off` on starts nowhere from `off`. */
  lemma AbsentFrom(t: string, x: string, off: nat, p: string)
    requires off <= |t| && t[off..] == x && Absent(x, p)
    ensures forall m: nat :: off <= m ==> !OccursAt(t, p, m)
  {
    forall m: nat | off <= m && m + |p| <= |t| ensures !OccursAt(t, p, m) {
      OccursInWindow(t, x, off, p, m - off);
    }
  }

  /** The empty-theirs conflict has its only separator right after ours. */
  lemma EmptyTheirsSeparator(ours: string, tag: string)
    requires '\n' !in ours && !HasPrefix(ours, Mark) && '\n' !in tag
    ensures var t := OursMarker + ours + Separator + ">>>>>>> " + tag + "\n";
      forall k: nat :: OccursAt(t, Separator, k) ==> k == |OursMarker + ours|
  {
    var u, line := OursMarker + ours, ">>>>>>> " + tag;
    var t := OursMarker + ours + Separator + ">>>>>>> " + tag + "\n";
    EmptyTheirsPieces(ours, tag);
    OursClean(ours);
    SeparatorOnlyAfterClean(u);
    StartsOnlyAfterIn(t, u, Separator, 0);
    var y := "======" + "\n" + (line + "\n" + "");
    EmptyTheirsTail(line, tag);
    NoSeparatorFrom(t, y, |u| + 1);
  }

  /** The separator line after its first `=`, followed by the theirs-marker
      line, has no `\n=======\n`. */
  lemma EmptyTheirsTail(line: string, tag: string)
    requires line == ">>>>>>> " + tag && '\n' !in tag
    ensures Absent("======" + "\n" + (line + "\n" + ""), Separator)
  {
    MarkerLine(line, tag);
    NoMarkedLineEmpty();
    NoMarkedLineCons(line, "");
    assert "======"[0] == '=' && |"======"| < |Mark|;
    NoMarkedLineCons("======", line + "\n" + "");
    NoMarkedLineAbsent("======" + "\n" + (line + "\n" + ""));
  }

  /** The `<<<<<<< HEAD` line does not begin with `=======`. */
  lemma HeadLine()
    ensures '\n' !in "<<<<<<< HEAD" && !HasPrefix("<<<<<<< HEAD", Mark)
  {
    assert "<<<<<<< HEAD"[0] == '<';
  }

  /** `<<<<<<< HEAD` followed by a line without newline that does not begin
      with `=======` has no line beginning with `=======`. */
  lemma OursClean(ours: string)
    requires '\n' !in ours && !HasPrefix(ours, Mark)
    ensures NoMarkedLine(OursMarker + ours)
  {
    SplitSingle(ours);
    HeadLine();
    NoMarkedLineCons("<<<<<<< HEAD", ours);
    assert OursMarker + ours == "<<<<<<< HEAD" + "\n" + ours;
  }

  /** A pattern that begins with a newline and has more after it does not
      occur in a line followed by its newline. */
  lemma FinalNewline(line: string, p: string)
    requires '\n' !in line && |p| >= 2 && p[0] == '\n'
    ensures Absent(line + "\n", p)
  {
    forall k: nat | k <= |line + "\n"| ensures !OccursAt(line + "\n", p, k) {
      if k + |p| <= |line + "\n"| {
        assert (line + "\n")[k..k + |p|][0] == line[k];
      }
    }
  }

  /** Pass 2 on the empty-theirs conflict deletes the separator and the
      theirs-marker line and keeps the newline at its end. */
  lemma EmptyTheirsPass2(ours: string, tag: string)
    requires '\n' !in ours && !HasPrefix(ours, Mark) && '\n' !in tag
    ensures Pass2(OursMarker + ours + Separator + ">>>>>>> " + tag + "\n") == OursMarker + ours + "\n"
  {
    var u, line := OursMarker + ours, ">>>>>>> " + tag;
    EmptyTheirsPieces(ours, tag);
    OursClean(ours);
    SeparatorOnlyAfterClean(u);
    MarkerLine(line, tag);
    Pass2Region(u, line, "\n");
    Pass2NoSeparator("\n");
  }

  /** What is left of the empty-theirs conflict has no `=======` line. */
  lemma EmptyTheirsResult(ours: string)
    requires '\n' !in ours && !HasPrefix(ours, Mark)
    ensures NoMarkedLine(OursMarker + ours + "\n")
  {
    NoMarkedLineEmpty();
    NoMarkedLineCons(ours, "");
    HeadLine();
    NoMarkedLineCons("<<<<<<< HEAD", ours + "\n" + "");
    assert OursMarker + ours + "\n" == "<<<<<<< HEAD" + "\n" + (ours + "\n" + "");
  }

  /** A concrete conflict with an empty theirs side: the `<<<<<<< HEAD` line survives. */
  lemma ResolveEmptyTheirsExample()
    ensures Resolve("<<<<<<< HEAD\nA\n=======\n>>>>>>> x\n") == "<<<<<<< HEAD\nA\n"
  {
    EmptyTheirsExampleText();
    ResolveEmptyTheirs("A", "x");
  }

  lemma EmptyTheirsExampleText()
    ensures OursMarker + "A" + Separator + ">>>>>>> " + "x" + "\n" == "<<<<<<< HEAD\nA\n=======\n>>>>>>> x\n"
    ensures OursMarker + "A" + "\n" == "<<<<<<< HEAD\nA\n"
    ensures '\n' !in "A" && !HasPrefix("A", Mark) && '\n' !in "x"
  {
  }

  // ---------------------------------------------------------------------------
  // A conflict with both sides empty
  // ---------------------------------------------------------------------------

  /** A conflict with both sides empty: pass 1 finds no region, and pass 2
      deletes from the newline of the `<<<<<<< HEAD` line up to the final
      newline, so the theirs-marker line is lost and only the `<<<<<<< HEAD`
      line is left. */
  lemma ResolveBothEmpty(tag: string)
    requires '\n' !in tag
    ensures Resolve(OursMarker + SeparatorLine + ">>>>>>> " + tag + "\n") == OursMarker
  {
    var t := OursMarker + SeparatorLine + ">>>>>>> " + tag + "\n";
    var u, line := "<<<<<<< HEAD", ">>>>>>> " + tag;
    BothEmptyPieces(tag);
    EmptyTheirsTail(line, tag);
    NoSeparatorFrom(t, "======" + "\n" + (line + "\n" + ""), 13);
    Pass1NoLateSeparator(t);
    HeadLine();
    NoNewlineStartsOnlyAfter(u, Separator);
    MarkerLine(line, tag);
    Pass2Region(u, line, "\n");
    Pass2NoSeparator("\n");
    NoMarkedLineEmpty();
    NoMarkedLineCons(u, "");
    ResolveTail(OursMarker);
  }

  /** The pieces of the conflict with both sides empty, recovered by slicing. */
  lemma BothEmptyPieces(tag: string)
    ensures var t := OursMarker + SeparatorLine + ">>>>>>> " + tag + "\n";
      var line := ">>>>>>> " + tag;
      && t == "<<<<<<< HEAD" + Separator + line + "\n"
      && 13 < |t| && t[13] == '='
      && t[14..] == "======" + "\n" + (line + "\n" + "")
      && "<<<<<<< HEAD" + "\n" == OursMarker
      && "<<<<<<< HEAD" + "\n" + "" == OursMarker
  {
    var line := ">>>>>>> " + tag;
    assert OursMarker + SeparatorLine == "<<<<<<< HEAD" + Separator;
    assert OursMarker + SeparatorLine == "<<<<<<< HEAD\n=" + "======" + "\n";
  }

  /** `<<<<<<< HEAD\n=======\n>>>>>>> x\n` resolves to `<<<<<<< HEAD\n`: the
      theirs-marker line is deleted and the ours marker line survives. */
  lemma ResolveBothEmptyExample()
    ensures Resolve("<<<<<<< HEAD\n=======\n>>>>>>> x\n") == "<<<<<<< HEAD\n"
  {
    BothEmptyExampleText();
    ResolveBothEmpty("x");
  }

  lemma BothEmptyExampleText()
    ensures OursMarker + SeparatorLine + ">>>>>>> " + "x" + "\n" == "<<<<<<< HEAD\n=======\n>>>>>>> x\n"
    ensures OursMarker == "<<<<<<< HEAD\n" && '\n' !in "x"
  {
  }

  // ---------------------------------------------------------------------------
  // An empty theirs side followed by a later conflict
  // ---------------------------------------------------------------------------

  /** A line in front of `b` adds no start of a pattern that begins with a
      newline, unless the rest of the pattern follows the line's newline. */
  lemma StartsOnlyAfterLine(a: string, b: string, p: string)
    requires '\n' !in a && |p| > 0 && p[0] == '\n'
    requires StartsOnlyAfter(b, p) && !HasPrefix(b + p, p[1..])
    ensures StartsOnlyAfter(a + "\n" + b, p)
  {
    var x := a + "\n" + b;
    assert x + p == a + "\n" + (b + p);
    forall k: nat | k < |x| ensures !OccursAt(x + p, p, k) {
      if k < |a| {
        if k + |p| <= |x + p| {
          assert (x + p)[k..k + |p|][0] == a[k];
        }
      } else if k > |a| {
        OccursInWindow(x + p, b + p, |a| + 1, p, k - |a| - 1);
      }
    }
  }

  /** A conflict with an empty theirs side followed, after some text `mid`,
      by another theirs marker: pass 1 matches from the first `<<<<<<< HEAD`
      to the later `>>>>>>>` line, so the first theirs-marker line and all of
      `mid` are deleted along with the theirs side. */
  lemma ResolveEmptyTheirsSpill(ours: string, tag: string, mid: string, tag2: string)
    requires NoMarkedLine(ours) && '\n' !in tag && '\n' !in tag2
    requires StartsOnlyAfter(mid, TheirsMarker) && !HasPrefix(mid + TheirsMarker, ">>>>>>> ")
    ensures Resolve(OursMarker + ours + Separator + ">>>>>>> " + tag + "\n" + mid + TheirsMarker + tag2 + "\n")
         == ours + "\n"
  {
    var line := ">>>>>>> " + tag;
    MarkerLine(line, tag);
    assert TheirsMarker[1..] == ">>>>>>> ";
    StartsOnlyAfterLine(line, mid, TheirsMarker);
    NoMarkedLineEmpty();
    SpillPieces(ours, tag, mid, tag2);
    ResolveRegion(ours, line + "\n" + mid, tag2, "");
  }

  lemma SpillPieces(ours: string, tag: string, mid: string, tag2: string)
    ensures OursMarker + ours + Separator + ">>>>>>> " + tag + "\n" + mid + TheirsMarker + tag2 + "\n"
         == OursMarker + ours + Separator + (">>>>>>> " + tag + "\n" + mid) + TheirsMarker + tag2 + "\n" + ""
    ensures ours + "\n" + "" == ours + "\n"
  {
  }

  /** A conflict with an empty theirs side, a kept line, and a second
      conflict: everything after the first ours side is lost. */
  lemma ResolveEmptyTheirsSpillExample()
    ensures Resolve("<<<<<<< HEAD\nA\n=======\n>>>>>>> x\nkeep\n<<<<<<< HEAD\nB\n=======\nC\n>>>>>>> y\n")
         == "A\n"
  {
    var mid := "keep" + "\n" + ("<<<<<<< HEAD" + "\n" + ("B" + "\n" + ("=======" + "\n" + "C")));
    SpillExampleMid();
    SplitSingle("A");
    SpillExampleText(mid);
    ResolveEmptyTheirsSpill("A", "x", mid, "y");
  }

  /** The text between the two theirs markers of the spill example starts no
      theirs marker. */
  lemma SpillExampleMid()
    ensures var mid := "keep" + "\n" + ("<<<<<<< HEAD" + "\n" + ("B" + "\n" + ("=======" + "\n" + "C")));
      StartsOnlyAfter(mid, TheirsMarker) && !HasPrefix(mid + TheirsMarker, ">>>>>>> ")
  {
    var p := TheirsMarker;
    assert p[0] == '\n' && p[1..] == ">>>>>>> ";
    var b3 := "C";
    var b2 := "=======" + "\n" + b3;
    var b1 := "B" + "\n" + b2;
    var b0 := "<<<<<<< HEAD" + "\n" + b1;
    var mid := "keep" + "\n" + b0;
    NoNewlineStartsOnlyAfter(b3, p);
    NotTheirsLine(b3, p);
    StartsOnlyAfterLine("=======", b3, p);
    NotTheirsLine(b2, p);
    StartsOnlyAfterLine("B", b2, p);
    NotTheirsLine(b1, p);
    StartsOnlyAfterLine("<<<<<<< HEAD", b1, p);
    NotTheirsLine(b0, p);
    StartsOnlyAfterLine("keep", b0, p);
    NotTheirsLine(mid, p);
  }

  /** Text that starts with a character other than `>` does not start with
      `>>>>>>> `. */
  lemma NotTheirsLine(b: string, p: string)
    requires |b| > 0 && b[0] != '>'
    ensures !HasPrefix(b + p, ">>>>>>> ")
  {
    assert (b + p)[0] == b[0];
  }

  lemma SpillExampleText(mid: string)
    requires mid == "keep" + "\n" + ("<<<<<<< HEAD" + "\n" + ("B" + "\n" + ("=======" + "\n" + "C")))
    ensures OursMarker + "A" + Separator + ">>>>>>> " + "x" + "\n" + mid + TheirsMarker + "y" + "\n"
         == "<<<<<<< HEAD\nA\n=======\n>>>>>>> x\nkeep\n<<<<<<< HEAD\nB\n=======\nC\n>>>>>>> y\n"
    ensures "A" + "\n" == "A\n" && '\n' !in "x" && '\n' !in "y"
  {
    SpillExampleMidText(mid);
    EmptyTheirsExampleText();
    SpillExampleJoin(OursMarker + "A" + Separator + ">>>>>>> " + "x" + "\n", mid, TheirsMarker + "y" + "\n");
  }

  lemma SpillExampleMidText(mid: string)
    requires mid == "keep" + "\n" + ("<<<<<<< HEAD" + "\n" + ("B" + "\n" + ("=======" + "\n" + "C")))
    ensures mid == "keep\n<<<<<<< HEAD\nB\n=======\nC"
  {
  }

  lemma SpillExampleJoin(a: string, mid: string, c: string)
    requires a == "<<<<<<< HEAD\nA\n=======\n>>>>>>> x\n" && mid == "keep\n<<<<<<< HEAD\nB\n=======\nC"
    requires c == "\n>>>>>>> y\n"
    ensures a + mid + c == "<<<<<<< HEAD\nA\n=======\n>>>>>>> x\nkeep\n<<<<<<< HEAD\nB\n=======\nC\n>>>>>>> y\n"
  {
  }
}
