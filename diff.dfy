/**
 * The sequence-diff engine of the plugin (class Rock_The_Slackbot_Diff).
 *
 * `Compare` splits two strings into element sequences (characters, or lines
 * split on any PCRE line break), skips their common prefix and suffix, fills
 * the table of longest-common-subsequence lengths for the middle region,
 * backtracks through the table from its last cell and reassembles the full
 * diff. Each step is a method proved against a specification function; the
 * functions `Lcs`, `Walk` and `DiffOf` are the specification, and the lemmas
 * below state what the diff means: it reconstructs both inputs and it keeps
 * as many elements unmodified as any edit script can.
 */
module Diff {
  import Php

  /** The three classifications (UNMODIFIED = 0, DELETED = 1, INSERTED = 2). */
  datatype Op = Unmodified | Deleted | Inserted

  /** One diff entry: the element's text and its classification. */
  datatype Entry = Entry(text: string, op: Op)

  // ---------------------------------------------------------------------
  // Splitting into sequences

  /** The characters PCRE's `\R` matches outside UTF mode (with "\r\n" as one break). */
  predicate IsLineBreakChar(c: char) {
    c == '\n' || c == '\r' || c == '\U{B}' || c == '\U{C}' || c == '\U{85}'
  }

  predicate NoLineBreak(s: string) {
    forall k :: 0 <= k < |s| ==> !IsLineBreakChar(s[k])
  }

  /** The index of the first line-break character of `s`, or |s|. */
  function FirstLineBreak(s: string): (i: nat)
    ensures i <= |s|
    ensures i < |s| ==> IsLineBreakChar(s[i])
    ensures forall k :: 0 <= k < i ==> !IsLineBreakChar(s[k])
  {
    if |s| == 0 then 0 else if IsLineBreakChar(s[0]) then 0 else 1 + FirstLineBreak(s[1..])
  }

  /** The length of the break that `\R` matches at `i`: "\r\n" is one break of two characters. */
  function LineBreakWidth(s: string, i: nat): nat
    requires i < |s|
  {
    if s[i] == '\r' && i + 1 < |s| && s[i + 1] == '\n' then 2 else 1
  }

  /** `preg_split('/\R/', s)`: the lines of `s`, without their breaks; "" gives one empty line. */
  function SplitLines(s: string): (r: seq<string>)
    ensures |r| >= 1
    ensures forall k :: 0 <= k < |r| ==> NoLineBreak(r[k])
    decreases |s|
  {
    var i := FirstLineBreak(s);
    if i == |s| then [s] else [s[..i]] + SplitLines(s[i + LineBreakWidth(s, i)..])
  }

  /** A line followed by "\n" splits off as the first line. */
  lemma SplitLinesCons(line: string, rest: string)
    requires NoLineBreak(line)
    ensures SplitLines(line + "\n" + rest) == [line] + SplitLines(rest)
  {
    var s := line + "\n" + rest;
    assert s[|line|] == '\n';
    assert forall k :: 0 <= k < |line| ==> s[k] == line[k];
    assert FirstLineBreak(s) == |line|;
    assert s[..|line|] == line;
    assert s[|line| + 1..] == rest;
  }

  /** For text whose only breaks are "\n", joining the lines with "\n" gives the text back. */
  lemma {:induction false} SplitLinesJoin(s: string)
    requires forall k :: 0 <= k < |s| && IsLineBreakChar(s[k]) ==> s[k] == '\n'
    ensures Php.Implode(SplitLines(s), '\n') == s
    decreases |s|
  {
    var i := FirstLineBreak(s);
    if i < |s| {
      var rest := s[i + 1..];
      assert s == s[..i] + "\n" + rest;
      SplitLinesJoin(rest);
      assert SplitLines(s) == [s[..i]] + SplitLines(rest);
    }
  }

  /** Character mode: every character is an element of its own. */
  function Characters(s: string): (r: seq<string>)
    ensures |r| == |s|
    ensures forall k :: 0 <= k < |s| ==> r[k] == [s[k]]
  {
    seq(|s|, k requires 0 <= k < |s| => [s[k]])
  }

  /** The sequence `compare` diffs for one input string. */
  function Sequence(s: string, compareCharacters: bool): seq<string>
  {
    if compareCharacters then Characters(s) else SplitLines(s)
  }

  // ---------------------------------------------------------------------
  // What a diff says about its inputs

  /** The elements a diff takes from the first sequence (its UNMODIFIED and DELETED entries). */
  function Olds(d: seq<Entry>): seq<string>
  {
    if |d| == 0 then []
    else Olds(d[..|d| - 1]) + (if d[|d| - 1].op == Inserted then [] else [d[|d| - 1].text])
  }

  /** The elements a diff takes from the second sequence (its UNMODIFIED and INSERTED entries). */
  function News(d: seq<Entry>): seq<string>
  {
    if |d| == 0 then []
    else News(d[..|d| - 1]) + (if d[|d| - 1].op == Deleted then [] else [d[|d| - 1].text])
  }

  /** The number of UNMODIFIED entries of a diff. */
  function CountUnmodified(d: seq<Entry>): nat
  {
    if |d| == 0 then 0
    else CountUnmodified(d[..|d| - 1]) + (if d[|d| - 1].op == Unmodified then 1 else 0)
  }

  /** `d` is an edit script from `a` to `b`. */
  predicate IsEditScript(d: seq<Entry>, a: seq<string>, b: seq<string>) {
    Olds(d) == a && News(d) == b
  }

  lemma {:induction false} AppendFacts(x: seq<Entry>, y: seq<Entry>)
    ensures Olds(x + y) == Olds(x) + Olds(y)
    ensures News(x + y) == News(x) + News(y)
    ensures CountUnmodified(x + y) == CountUnmodified(x) + CountUnmodified(y)
    decreases |y|
  {
    if |y| > 0 {
      var y' := y[..|y| - 1];
      assert (x + y)[..|x + y| - 1] == x + y';
      assert (x + y)[|x + y| - 1] == y[|y| - 1];
      AppendFacts(x, y');
    } else {
      assert x + y == x;
    }
  }

  /** Every edit script has |a| + |b| - k entries, k being its number of UNMODIFIED entries. */
  lemma {:induction false} EditScriptLength(d: seq<Entry>)
    ensures |d| + CountUnmodified(d) == |Olds(d)| + |News(d)|
    ensures CountUnmodified(d) <= |Olds(d)| && CountUnmodified(d) <= |News(d)|
  {
    if |d| > 0 {
      EditScriptLength(d[..|d| - 1]);
    }
  }

  /** The entries that re-attach a common prefix or suffix: every element UNMODIFIED. */
  function Unchanged(s: seq<string>): (d: seq<Entry>)
    ensures |d| == |s|
    ensures forall k :: 0 <= k < |s| ==> d[k] == Entry(s[k], Unmodified)
  {
    seq(|s|, k requires 0 <= k < |s| => Entry(s[k], Unmodified))
  }

  lemma {:induction false} UnchangedFacts(s: seq<string>)
    ensures Olds(Unchanged(s)) == s && News(Unchanged(s)) == s
    ensures CountUnmodified(Unchanged(s)) == |s|
    decreases |s|
  {
    if |s| > 0 {
      var u, s' := Unchanged(s), s[..|s| - 1];
      UnchangedPrefix(s);
      assert u[|s| - 1] == Entry(s[|s| - 1], Unmodified);
      UnchangedFacts(s');
      SplitLast(s);
    }
  }

  lemma UnchangedPrefix(s: seq<string>)
    requires |s| > 0
    ensures Unchanged(s)[..|s| - 1] == Unchanged(s[..|s| - 1])
  {
  }

  lemma SplitLast(s: seq<string>)
    requires |s| > 0
    ensures s[..|s| - 1] + [s[|s| - 1]] == s
  {
  }

  /** The reverse of a sequence (what the reassembly's `array_pop` loop reads off). */
  function Reversed(s: seq<Entry>): (r: seq<Entry>)
    ensures |r| == |s|
  {
    if |s| == 0 then [] else [s[|s| - 1]] + Reversed(s[..|s| - 1])
  }

  lemma ReversedPush(s: seq<Entry>, e: Entry)
    ensures Reversed(s + [e]) == [e] + Reversed(s)
  {
    assert (s + [e])[..|s|] == s;
  }

  // ---------------------------------------------------------------------
  // Longest common subsequence

  function Max(x: nat, y: nat): nat {
    if x >= y then x else y
  }

  /** The length of a longest common subsequence of `a` and `b`. */
  function Lcs(a: seq<string>, b: seq<string>): nat
    decreases |a| + |b|
  {
    if |a| == 0 || |b| == 0 then 0
    else if a[|a| - 1] == b[|b| - 1] then Lcs(a[..|a| - 1], b[..|b| - 1]) + 1
    else Max(Lcs(a[..|a| - 1], b), Lcs(a, b[..|b| - 1]))
  }

  /** The table recurrence, stated on prefixes: cell [i][j] from its three neighbours. */
  lemma LcsStep(a: seq<string>, b: seq<string>, i: nat, j: nat)
    requires 1 <= i <= |a| && 1 <= j <= |b|
    ensures Lcs(a[..i], b[..j]) ==
      if a[i - 1] == b[j - 1] then Lcs(a[..i - 1], b[..j - 1]) + 1
      else Max(Lcs(a[..i - 1], b[..j]), Lcs(a[..i], b[..j - 1]))
  {
    assert a[..i][..i - 1] == a[..i - 1];
    assert b[..j][..j - 1] == b[..j - 1];
  }

  /**
   * Dropping the last element of either sequence lowers the LCS length by
   * at most one and never raises it (so the table is monotone along rows
   * and columns and neighbouring cells differ by at most one).
   */
  lemma {:induction false} LcsBounds(x: seq<string>, y: seq<string>)
    ensures |x| > 0 ==> Lcs(x[..|x| - 1], y) <= Lcs(x, y) <= Lcs(x[..|x| - 1], y) + 1
    ensures |y| > 0 ==> Lcs(x, y[..|y| - 1]) <= Lcs(x, y) <= Lcs(x, y[..|y| - 1]) + 1
    decreases |x| + |y|
  {
    if |x| > 0 && |y| > 0 {
      var x', y' := x[..|x| - 1], y[..|y| - 1];
      LcsBounds(x', y);
      LcsBounds(x, y');
    }
  }

  /** No edit script from `a` to `b` keeps more elements unmodified than the LCS length. */
  lemma {:induction false} LcsIsMaximal(d: seq<Entry>, a: seq<string>, b: seq<string>)
    requires IsEditScript(d, a, b)
    ensures CountUnmodified(d) <= Lcs(a, b)
    decreases |d|
  {
    if |d| > 0 {
      var d' := d[..|d| - 1];
      var e := d[|d| - 1];
      var a', b' := Olds(d'), News(d');
      LcsIsMaximal(d', a', b');
      match e.op
      case Unmodified =>
        assert a == a' + [e.text] && b == b' + [e.text];
        assert a[..|a| - 1] == a' && b[..|b| - 1] == b';
      case Deleted =>
        assert a == a' + [e.text] && b == b';
        assert a[..|a| - 1] == a';
        LcsBounds(a, b);
      case Inserted =>
        assert a == a' && b == b' + [e.text];
        assert b[..|b| - 1] == b';
        LcsBounds(a, b);
    }
  }

  /** Nothing common is longer than either sequence. */
  lemma {:induction false} LcsAtMostLengths(a: seq<string>, b: seq<string>)
    ensures Lcs(a, b) <= |a| && Lcs(a, b) <= |b|
    decreases |a| + |b|
  {
    if |a| > 0 && |b| > 0 {
      LcsAtMostLengths(a[..|a| - 1], b[..|b| - 1]);
      LcsAtMostLengths(a[..|a| - 1], b);
      LcsAtMostLengths(a, b[..|b| - 1]);
    }
  }

  /** Dropping the first element of both sequences lowers the LCS length by at most one. */
  lemma {:induction false} LcsDropFirst(x: seq<string>, y: seq<string>)
    requires |x| > 0 && |y| > 0
    ensures Lcs(x, y) <= Lcs(x[1..], y[1..]) + 1
    decreases |x| + |y|
  {
    if |x| == 1 || |y| == 1 {
      LcsAtMostLengths(x, y);
    } else {
      var x', y' := x[..|x| - 1], y[..|y| - 1];
      assert x[1..][..|x| - 2] == x'[1..];
      assert y[1..][..|y| - 2] == y'[1..];
      if x[|x| - 1] == y[|y| - 1] {
        LcsDropFirst(x', y');
      } else {
        LcsDropFirst(x', y);
        LcsDropFirst(x, y');
        LcsBounds(x[1..], y[1..]);
      }
    }
  }

  /** A common prefix adds at most its own length to the LCS length. */
  lemma {:induction false} LcsCommonPrefix(p: seq<string>, a: seq<string>, b: seq<string>)
    ensures Lcs(p + a, p + b) <= |p| + Lcs(a, b)
    decreases |p|
  {
    if |p| > 0 {
      LcsDropFirst(p + a, p + b);
      assert (p + a)[1..] == p[1..] + a;
      assert (p + b)[1..] == p[1..] + b;
      LcsCommonPrefix(p[1..], a, b);
    } else {
      assert p + a == a && p + b == b;
    }
  }

  /** A common suffix adds exactly its own length to the LCS length. */
  lemma {:induction false} LcsCommonSuffix(a: seq<string>, b: seq<string>, q: seq<string>)
    ensures Lcs(a + q, b + q) == Lcs(a, b) + |q|
    decreases |q|
  {
    if |q| > 0 {
      var q' := q[..|q| - 1];
      assert (a + q)[..|a + q| - 1] == a + q';
      assert (b + q)[..|b + q| - 1] == b + q';
      LcsCommonSuffix(a, b, q');
    } else {
      assert a + q == a && b + q == b;
    }
  }

  // ---------------------------------------------------------------------
  // The backtracking walk, as a specification

  /**
   * One move of the backtracker from cell [i][j]: a match is taken first,
   * then an insertion when the cell to the left holds the same length,
   * otherwise a deletion. It gives the next cell and the entry emitted.
   */
  function Step(a: seq<string>, b: seq<string>, i: nat, j: nat): (r: (nat, nat, Entry))
    requires i <= |a| && j <= |b| && (i > 0 || j > 0)
    ensures r.0 <= i && r.1 <= j && r.0 + r.1 < i + j
  {
    if i > 0 && j > 0 && a[i - 1] == b[j - 1] then (i - 1, j - 1, Entry(a[i - 1], Unmodified))
    else if j > 0 && Lcs(a[..i], b[..j]) == Lcs(a[..i], b[..j - 1]) then (i, j - 1, Entry(b[j - 1], Inserted))
    else (i - 1, j, Entry(a[i - 1], Deleted))
  }

  /**
   * Each move consumes what its entry says (one element of `a` unless it
   * inserts, one of `b` unless it deletes) and lowers the LCS length of the
   * remaining prefixes by one exactly when it is a match.
   */
  lemma StepFacts(a: seq<string>, b: seq<string>, i: nat, j: nat, i': nat, j': nat, e: Entry)
    requires i <= |a| && j <= |b| && (i > 0 || j > 0)
    requires (i', j', e) == Step(a, b, i, j)
    ensures a[..i] == a[..i'] + Olds([e]) && b[..j] == b[..j'] + News([e])
    ensures Lcs(a[..i], b[..j]) == Lcs(a[..i'], b[..j']) + CountUnmodified([e])
  {
    SingleEntry(e);
    if i > 0 && j > 0 && a[i - 1] == b[j - 1] {
      MatchStep(a, b, i, j);
    } else if j > 0 && Lcs(a[..i], b[..j]) == Lcs(a[..i], b[..j - 1]) {
      InsertStep(a, b, i, j);
    } else {
      DeleteStep(a, b, i, j);
    }
  }

  lemma MatchStep(a: seq<string>, b: seq<string>, i: nat, j: nat)
    requires 0 < i <= |a| && 0 < j <= |b| && a[i - 1] == b[j - 1]
    ensures a[..i] == a[..i - 1] + [a[i - 1]] && b[..j] == b[..j - 1] + [b[j - 1]]
    ensures Lcs(a[..i], b[..j]) == Lcs(a[..i - 1], b[..j - 1]) + 1
  {
    LcsStep(a, b, i, j);
  }

  lemma InsertStep(a: seq<string>, b: seq<string>, i: nat, j: nat)
    requires i <= |a| && 0 < j <= |b|
    ensures a[..i] == a[..i] + [] && b[..j] == b[..j - 1] + [b[j - 1]]
  {
  }

  lemma DeleteStep(a: seq<string>, b: seq<string>, i: nat, j: nat)
    requires i <= |a| && j <= |b| && (i > 0 || j > 0)
    requires !(i > 0 && j > 0 && a[i - 1] == b[j - 1])
    requires !(j > 0 && Lcs(a[..i], b[..j]) == Lcs(a[..i], b[..j - 1]))
    ensures i > 0
    ensures a[..i] == a[..i - 1] + [a[i - 1]] && b[..j] == b[..j] + []
    ensures Lcs(a[..i], b[..j]) == Lcs(a[..i - 1], b[..j])
  {
    if j > 0 {
      LcsStep(a, b, i, j);
    } else {
      assert Lcs(a[..i], b[..j]) == 0 == Lcs(a[..i - 1], b[..j]);
    }
  }

  /** What a one-entry diff takes from each side. */
  lemma SingleEntry(e: Entry)
    ensures Olds([e]) == (if e.op == Inserted then [] else [e.text])
    ensures News([e]) == (if e.op == Deleted then [] else [e.text])
    ensures CountUnmodified([e]) == (if e.op == Unmodified then 1 else 0)
  {
    assert [e][..0] == [];
  }

  /** The diff of a[..i] and b[..j] that the backtracker reads off the table, in forward order. */
  function Walk(a: seq<string>, b: seq<string>, i: nat, j: nat): seq<Entry>
    requires i <= |a| && j <= |b|
    decreases i + j
  {
    if i == 0 && j == 0 then []
    else
      var (i', j', e) := Step(a, b, i, j);
      Walk(a, b, i', j') + [e]
  }

  /** The walk is an edit script from a[..i] to b[..j] and keeps Lcs(a[..i], b[..j]) elements. */
  lemma {:induction false} WalkFacts(a: seq<string>, b: seq<string>, i: nat, j: nat)
    requires i <= |a| && j <= |b|
    ensures IsEditScript(Walk(a, b, i, j), a[..i], b[..j])
    ensures CountUnmodified(Walk(a, b, i, j)) == Lcs(a[..i], b[..j])
    decreases i + j
  {
    if i > 0 || j > 0 {
      var (i', j', e) := Step(a, b, i, j);
      StepFacts(a, b, i, j, i', j', e);
      WalkFacts(a, b, i', j');
      AppendFacts(Walk(a, b, i', j'), [e]);
    }
  }

  /**
   * The whole walk is an edit script from `a` to `b` that keeps Lcs(a, b)
   * elements unmodified, so it has |a| + |b| - Lcs(a, b) entries.
   */
  lemma WalkIsOptimalEditScript(a: seq<string>, b: seq<string>)
    ensures IsEditScript(Walk(a, b, |a|, |b|), a, b)
    ensures CountUnmodified(Walk(a, b, |a|, |b|)) == Lcs(a, b)
    ensures |Walk(a, b, |a|, |b|)| == |a| + |b| - Lcs(a, b)
  {
    WalkFacts(a, b, |a|, |b|);
    assert a[..|a|] == a && b[..|b|] == b;
    EditScriptLength(Walk(a, b, |a|, |b|));
  }

  // ---------------------------------------------------------------------
  // Common prefix and suffix

  /** Where the common prefix of `a` and `b` ends, searching from `i` on. */
  function CommonPrefixFrom(a: seq<string>, b: seq<string>, i: nat): (r: nat)
    requires i <= |a| && i <= |b|
    ensures i <= r <= |a| && r <= |b|
    decreases |a| - i
  {
    if i < |a| && i < |b| && a[i] == b[i] then CommonPrefixFrom(a, b, i + 1) else i
  }

  /** The prefix skipped is the longest common prefix. */
  lemma {:induction false} CommonPrefixIsLongest(a: seq<string>, b: seq<string>, i: nat)
    requires i <= |a| && i <= |b| && a[..i] == b[..i]
    ensures var r := CommonPrefixFrom(a, b, i);
      a[..r] == b[..r] && (r == |a| || r == |b| || a[r] != b[r])
    decreases |a| - i
  {
    if i < |a| && i < |b| && a[i] == b[i] {
      assert a[..i + 1] == a[..i] + [a[i]] && b[..i + 1] == b[..i] + [b[i]];
      CommonPrefixIsLongest(a, b, i + 1);
    }
  }

  /**
   * How many trailing elements `a` and `b` share, counting from `k` on and
   * never reaching into the first `start` elements of either.
   */
  function CommonSuffixFrom(a: seq<string>, b: seq<string>, start: nat, k: nat): (r: nat)
    requires start + k <= |a| && start + k <= |b|
    ensures k <= r && start + r <= |a| && start + r <= |b|
    decreases |a| - k
  {
    if start + k < |a| && start + k < |b| && a[|a| - 1 - k] == b[|b| - 1 - k]
    then CommonSuffixFrom(a, b, start, k + 1)
    else k
  }

  /** The suffix skipped is the longest common suffix that does not overlap the prefix. */
  lemma {:induction false} CommonSuffixIsLongest(a: seq<string>, b: seq<string>, start: nat, k: nat)
    requires start + k <= |a| && start + k <= |b| && a[|a| - k..] == b[|b| - k..]
    ensures var r := CommonSuffixFrom(a, b, start, k);
      a[|a| - r..] == b[|b| - r..] &&
      (start + r == |a| || start + r == |b| || a[|a| - 1 - r] != b[|b| - 1 - r])
    decreases |a| - k
  {
    if start + k < |a| && start + k < |b| && a[|a| - 1 - k] == b[|b| - 1 - k] {
      assert a[|a| - (k + 1)..] == [a[|a| - 1 - k]] + a[|a| - k..];
      assert b[|b| - (k + 1)..] == [b[|b| - 1 - k]] + b[|b| - k..];
      CommonSuffixIsLongest(a, b, start, k + 1);
    }
  }

  // ---------------------------------------------------------------------
  // The whole comparison, as a specification

  /**
   * The diff assembled from a trimmed prefix of `start` elements and a
   * trimmed suffix of `k` elements: the prefix unmodified, the walk over
   * the middle region, and the suffix unmodified (its text taken from the
   * first sequence).
   */
  function Assemble(s1: seq<string>, s2: seq<string>, start: nat, k: nat): seq<Entry>
    requires start + k <= |s1| && start + k <= |s2|
  {
    var a := s1[start..|s1| - k];
    var b := s2[start..|s2| - k];
    Unchanged(s1[..start]) + Walk(a, b, |a|, |b|) + Unchanged(s1[|s1| - k..])
  }

  /** The diff `compare` returns for two strings. */
  function DiffOf(string1: string, string2: string, compareCharacters: bool): seq<Entry>
  {
    DiffOfSequences(Sequence(string1, compareCharacters), Sequence(string2, compareCharacters))
  }

  /** The diff of two sequences: common prefix, walk over the middle region, common suffix. */
  function DiffOfSequences(s1: seq<string>, s2: seq<string>): seq<Entry>
  {
    var start := CommonPrefixFrom(s1, s2, 0);
    Assemble(s1, s2, start, CommonSuffixFrom(s1, s2, start, 0))
  }

  lemma SplitInThree<T>(s: seq<T>, i: nat, j: nat)
    requires i <= j <= |s|
    ensures s == s[..i] + s[i..j] + s[j..]
  {
  }

  /** A prefix of the middle region, read as a slice of the whole sequence. */
  lemma MiddlePrefix(s: seq<string>, start: nat, len: nat, i: nat)
    requires start + len <= |s| && i <= len
    ensures s[start..start + len][..i] == s[start..start + i]
  {
  }

  lemma JoinEditScripts(d1: seq<Entry>, a1: seq<string>, b1: seq<string>, d2: seq<Entry>, a2: seq<string>, b2: seq<string>)
    requires Olds(d1) == a1 && News(d1) == b1 && Olds(d2) == a2 && News(d2) == b2
    ensures Olds(d1 + d2) == a1 + a2 && News(d1 + d2) == b1 + b2
    ensures CountUnmodified(d1 + d2) == CountUnmodified(d1) + CountUnmodified(d2)
  {
    AppendFacts(d1, d2);
  }

  /**
   * Whatever the trimmed prefix and suffix, provided both sequences share
   * them, the assembled diff is an edit script from `s1` to `s2` that keeps
   * the prefix, the suffix and an LCS of the middle region unmodified.
   */
  lemma AssembleIsEditScript(s1: seq<string>, s2: seq<string>, start: nat, k: nat)
    requires start + k <= |s1| && start + k <= |s2|
    requires s1[..start] == s2[..start] && s1[|s1| - k..] == s2[|s2| - k..]
    ensures IsEditScript(Assemble(s1, s2, start, k), s1, s2)
    ensures CountUnmodified(Assemble(s1, s2, start, k)) ==
      start + Lcs(s1[start..|s1| - k], s2[start..|s2| - k]) + k
  {
    var a := s1[start..|s1| - k];
    var b := s2[start..|s2| - k];
    var pre, mid, suf := Unchanged(s1[..start]), Walk(a, b, |a|, |b|), Unchanged(s1[|s1| - k..]);
    var p1, q1 := s1[..start], s1[|s1| - k..];
    var p2, q2 := s2[..start], s2[|s2| - k..];
    UnchangedFacts(p1);
    UnchangedFacts(q1);
    WalkIsOptimalEditScript(a, b);
    JoinEditScripts(pre, p1, p2, mid, a, b);
    JoinEditScripts(pre + mid, p1 + a, p2 + b, suf, q1, q2);
    SplitInThree(s1, start, |s1| - k);
    SplitInThree(s2, start, |s2| - k);
  }

  /**
   * Reading the UNMODIFIED and DELETED entries of the diff gives the first
   * sequence back, reading the UNMODIFIED and INSERTED entries the second;
   * its length is |s1| + |s2| - k for its k UNMODIFIED entries, and k is at
   * most the length of either sequence.
   */
  lemma DiffOfIsEditScript(string1: string, string2: string, compareCharacters: bool)
    ensures var s1, s2 := Sequence(string1, compareCharacters), Sequence(string2, compareCharacters);
      var d := DiffOf(string1, string2, compareCharacters);
      IsEditScript(d, s1, s2) && CountUnmodified(d) <= |s1| && CountUnmodified(d) <= |s2| &&
      |d| == |s1| + |s2| - CountUnmodified(d)
  {
    DiffOfSequencesIsEditScript(Sequence(string1, compareCharacters), Sequence(string2, compareCharacters));
  }

  lemma DiffOfSequencesIsEditScript(s1: seq<string>, s2: seq<string>)
    ensures var d := DiffOfSequences(s1, s2);
      IsEditScript(d, s1, s2) && CountUnmodified(d) <= |s1| && CountUnmodified(d) <= |s2| &&
      |d| == |s1| + |s2| - CountUnmodified(d)
  {
    var start := CommonPrefixFrom(s1, s2, 0);
    CommonPrefixIsLongest(s1, s2, 0);
    var k := CommonSuffixFrom(s1, s2, start, 0);
    CommonSuffixIsLongest(s1, s2, start, 0);
    AssembleIsEditScript(s1, s2, start, k);
    EditScriptLength(Assemble(s1, s2, start, k));
  }

  /**
   * Trimming the common prefix and suffix loses nothing: the diff keeps a
   * longest common subsequence of the whole sequences unmodified.
   */
  lemma DiffOfSequencesIsOptimal(s1: seq<string>, s2: seq<string>)
    ensures CountUnmodified(DiffOfSequences(s1, s2)) == Lcs(s1, s2)
  {
    var start := CommonPrefixFrom(s1, s2, 0);
    CommonPrefixIsLongest(s1, s2, 0);
    var k := CommonSuffixFrom(s1, s2, start, 0);
    CommonSuffixIsLongest(s1, s2, start, 0);
    AssembleIsOptimal(s1, s2, start, k);
  }

  /** Around a shared prefix and suffix, the assembled diff keeps a longest common subsequence. */
  lemma AssembleIsOptimal(s1: seq<string>, s2: seq<string>, start: nat, k: nat)
    requires start + k <= |s1| && start + k <= |s2|
    requires s1[..start] == s2[..start] && s1[|s1| - k..] == s2[|s2| - k..]
    ensures CountUnmodified(Assemble(s1, s2, start, k)) == Lcs(s1, s2)
  {
    AssembleIsEditScript(s1, s2, start, k);
    LcsIsMaximal(Assemble(s1, s2, start, k), s1, s2);
    var p, a, b, q := s1[..start], s1[start..|s1| - k], s2[start..|s2| - k], s1[|s1| - k..];
    SplitInThree(s1, start, |s1| - k);
    SplitInThree(s2, start, |s2| - k);
    LcsCommonSuffix(p + a, p + b, q);
    LcsCommonPrefix(p, a, b);
  }

  /**
   * `compare` returns a shortest diff: every edit script between the two
   * sequences has at least as many entries, and it keeps a longest common
   * subsequence unmodified.
   */
  lemma DiffOfIsMinimal(string1: string, string2: string, compareCharacters: bool, other: seq<Entry>)
    requires IsEditScript(other, Sequence(string1, compareCharacters), Sequence(string2, compareCharacters))
    ensures CountUnmodified(DiffOf(string1, string2, compareCharacters)) ==
      Lcs(Sequence(string1, compareCharacters), Sequence(string2, compareCharacters))
    ensures |DiffOf(string1, string2, compareCharacters)| <= |other|
  {
    var s1, s2 := Sequence(string1, compareCharacters), Sequence(string2, compareCharacters);
    DiffOfSequencesIsOptimal(s1, s2);
    DiffOfSequencesIsEditScript(s1, s2);
    LcsIsMaximal(other, s1, s2);
    EditScriptLength(other);
  }

  /** Comparing a string with itself marks every element unmodified. */
  lemma DiffOfSame(s: seq<string>)
    ensures DiffOfSequences(s, s) == Unchanged(s)
  {
    SamePrefix(s, 0);
    assert CommonSuffixFrom(s, s, |s|, 0) == 0;
    assert s[..|s|] == s && s[|s|..] == [];
    assert Walk(s[|s|..|s|], s[|s|..|s|], 0, 0) == [];
    assert Unchanged(s) + [] + Unchanged([]) == Unchanged(s);
  }

  /** Every element of `s`, in order, with the one classification `op`. */
  function AllMarked(s: seq<string>, op: Op): (d: seq<Entry>)
    ensures |d| == |s|
    ensures forall k :: 0 <= k < |s| ==> d[k] == Entry(s[k], op)
  {
    seq(|s|, k requires 0 <= k < |s| => Entry(s[k], op))
  }

  /** Against an empty second sequence, the walk deletes every element of the first. */
  lemma {:induction false} WalkAgainstNothing(a: seq<string>, b: seq<string>, i: nat)
    requires i <= |a|
    ensures Walk(a, b, i, 0) == AllMarked(a[..i], Deleted)
  {
    if i > 0 {
      assert Step(a, b, i, 0) == (i - 1, 0, Entry(a[i - 1], Deleted));
      WalkAgainstNothing(a, b, i - 1);
      assert AllMarked(a[..i], Deleted) == AllMarked(a[..i - 1], Deleted) + [Entry(a[i - 1], Deleted)];
    }
  }

  /** From an empty first sequence, the walk inserts every element of the second. */
  lemma {:induction false} WalkFromNothing(a: seq<string>, b: seq<string>, j: nat)
    requires j <= |b|
    ensures Walk(a, b, 0, j) == AllMarked(b[..j], Inserted)
  {
    if j > 0 {
      assert Lcs(a[..0], b[..j]) == 0 == Lcs(a[..0], b[..j - 1]);
      assert Step(a, b, 0, j) == (0, j - 1, Entry(b[j - 1], Inserted));
      WalkFromNothing(a, b, j - 1);
      assert AllMarked(b[..j], Inserted) == AllMarked(b[..j - 1], Inserted) + [Entry(b[j - 1], Inserted)];
    }
  }

  /** Against an empty second sequence, every element of the first is DELETED. */
  lemma DiffAgainstEmpty(s: seq<string>)
    ensures DiffOfSequences(s, []) == AllMarked(s, Deleted)
  {
    var e: seq<string> := [];
    assert CommonPrefixFrom(s, e, 0) == 0;
    assert CommonSuffixFrom(s, e, 0, 0) == 0;
    assert DiffOfSequences(s, e) == Assemble(s, e, 0, 0);
    assert s[0..|s| - 0] == s && e[0..|e| - 0] == e;
    WalkAgainstNothing(s, e, |s|);
    assert s[..|s|] == s;
    assert Unchanged(s[..0]) == [] && Unchanged(s[|s| - 0..]) == [];
  }

  /** From an empty first sequence, every element of the second is INSERTED. */
  lemma DiffFromEmpty(s: seq<string>)
    ensures DiffOfSequences([], s) == AllMarked(s, Inserted)
  {
    var e: seq<string> := [];
    assert CommonPrefixFrom(e, s, 0) == 0;
    assert CommonSuffixFrom(e, s, 0, 0) == 0;
    assert DiffOfSequences(e, s) == Assemble(e, s, 0, 0);
    assert s[0..|s| - 0] == s && e[0..|e| - 0] == e;
    WalkFromNothing(e, s, |s|);
    assert s[..|s|] == s;
    assert Unchanged(e[..0]) == [] && Unchanged(e[|e| - 0..]) == [];
  }

  /**
   * By characters, comparing with the empty string marks every character
   * of the other string DELETED (empty second string) or INSERTED (empty
   * first string).
   */
  lemma CompareWithEmpty(s: string)
    ensures DiffOf(s, "", true) == AllMarked(Characters(s), Deleted)
    ensures DiffOf("", s, true) == AllMarked(Characters(s), Inserted)
  {
    assert Characters("") == [];
    DiffAgainstEmpty(Characters(s));
    DiffFromEmpty(Characters(s));
  }

  /** By lines, the empty string is one empty line, so two empty strings give one UNMODIFIED entry. */
  lemma CompareEmptyLines()
    ensures DiffOf("", "", false) == [Entry("", Unmodified)]
  {
    assert SplitLines("") == [""];
    DiffOfSame([""]);
  }

  /** Three lines without breaks, joined by "\n", split back into those three lines. */
  lemma SplitThreeLines(x: string, y: string, z: string)
    requires NoLineBreak(x) && NoLineBreak(y) && NoLineBreak(z)
    ensures SplitLines(x + "\n" + y + "\n" + z) == [x, y, z]
  {
    SplitOneLine(z);
    SplitLinesCons(y, z);
    SplitLinesCons(x, y + "\n" + z);
    JoinThree(x, y, z);
    assert [x] + ([y] + [z]) == [x, y, z];
  }

  lemma SplitOneLine(z: string)
    requires NoLineBreak(z)
    ensures SplitLines(z) == [z]
  {
    assert FirstLineBreak(z) == |z|;
  }

  lemma JoinThree(x: string, y: string, z: string)
    ensures x + "\n" + (y + "\n" + z) == x + "\n" + y + "\n" + z
  {
  }

  /**
   * Where one middle element differs, the backtracker prefers an insertion,
   * so in forward order the deleted element comes before the inserted one.
   */
  lemma ReplacedMiddle(p: string, x: string, y: string, q: string)
    requires x != y
    ensures DiffOfSequences([p, x, q], [p, y, q]) ==
      [Entry(p, Unmodified), Entry(x, Deleted), Entry(y, Inserted), Entry(q, Unmodified)]
  {
    var s1, s2 := [p, x, q], [p, y, q];
    assert CommonPrefixFrom(s1, s2, 1) == 1;
    assert CommonPrefixFrom(s1, s2, 0) == 1;
    assert CommonSuffixFrom(s1, s2, 1, 1) == 1;
    assert CommonSuffixFrom(s1, s2, 1, 0) == 1;
    var a, b := [x], [y];
    assert s1[1..2] == a && s2[1..2] == b;
    assert Lcs(a[..0], b[..1]) == 0 && Lcs(a[..1], b[..0]) == 0;
    assert Lcs(a[..1], b[..1]) == 0;
    assert Step(a, b, 1, 1) == (1, 0, Entry(y, Inserted));
    assert Step(a, b, 1, 0) == (0, 0, Entry(x, Deleted));
    assert Walk(a, b, 1, 1) == [Entry(x, Deleted), Entry(y, Inserted)];
    assert s1[..1] == [p] && s1[2..] == [q];
  }

  /**
   * Comparing by lines "p\nx\nq" with "p\ny\nq" where x and y differ:
   * p unmodified, x deleted, y inserted, q unmodified, in that order.
   */
  lemma CompareTieBreak(p: string, x: string, y: string, q: string)
    requires NoLineBreak(p) && NoLineBreak(x) && NoLineBreak(y) && NoLineBreak(q) && x != y
    ensures DiffOf(p + "\n" + x + "\n" + q, p + "\n" + y + "\n" + q, false) ==
      [Entry(p, Unmodified), Entry(x, Deleted), Entry(y, Inserted), Entry(q, Unmodified)]
  {
    SplitThreeLines(p, x, q);
    SplitThreeLines(p, y, q);
    ReplacedMiddle(p, x, y, q);
  }

  lemma {:induction false} SamePrefix(s: seq<string>, i: nat)
    requires i <= |s|
    ensures CommonPrefixFrom(s, s, i) == |s|
    decreases |s| - i
  {
    if i < |s| {
      SamePrefix(s, i + 1);
    }
  }

  /**
   * The branch the backtracker takes at cell [i][j], decided on the
   * whole sequences and the table, is the move `Step` makes on the
   * middle regions `a` and `b`.
   */
  lemma BacktrackMove(s1: seq<string>, s2: seq<string>, start: nat, a: seq<string>, b: seq<string>,
                      i: nat, j: nat, matched: bool, inserted: bool)
    requires start + |a| <= |s1| && start + |b| <= |s2|
    requires a == s1[start..start + |a|] && b == s2[start..start + |b|]
    requires i <= |a| && j <= |b| && (i > 0 || j > 0)
    requires matched == (i > 0 && j > 0 && s1[i + start - 1] == s2[j + start - 1])
    requires inserted == (j > 0 && Lcs(s1[start..start + i], s2[start..start + j]) ==
                                   Lcs(s1[start..start + i], s2[start..start + j - 1]))
    ensures Step(a, b, i, j) ==
      if matched then (i - 1, j - 1, Entry(s1[i + start - 1], Unmodified))
      else if inserted then (i, j - 1, Entry(s2[j + start - 1], Inserted))
      else (i - 1, j, Entry(s1[i + start - 1], Deleted))
  {
    if j > 0 {
      MiddlePrefix(s1, start, |a|, i);
      MiddlePrefix(s2, start, |b|, j);
      MiddlePrefix(s2, start, |b|, j - 1);
    }
  }

  /** One backtracking move keeps the walk still to do plus the entries emitted equal to the whole walk. */
  lemma WalkBack(a: seq<string>, b: seq<string>, i: nat, j: nat, p: seq<Entry>, i': nat, j': nat, e: Entry,
                 whole: seq<Entry>)
    requires i <= |a| && j <= |b| && (i > 0 || j > 0)
    requires (i', j', e) == Step(a, b, i, j)
    requires Walk(a, b, i, j) + Reversed(p) == whole
    ensures Walk(a, b, i', j') + Reversed(p + [e]) == whole
  {
    var w := Walk(a, b, i', j');
    assert Walk(a, b, i, j) == w + [e];
    ReversedPush(p, e);
    AppendAssoc(w, [e], Reversed(p));
  }

  /** Concatenation regroups freely. */
  lemma AppendAssoc<T>(x: seq<T>, y: seq<T>, z: seq<T>)
    ensures (x + y) + z == x + (y + z)
  {
  }

  /** The empty sequence is neutral for concatenation. */
  lemma AppendEmpty<T>(s: seq<T>)
    ensures s + [] == s && [] + s == s
  {
  }

  /** Extending the slice by one element appends one UNMODIFIED entry. */
  lemma UnchangedPush(s: seq<string>, lo: nat, i: nat)
    requires lo <= i < |s|
    ensures Unchanged(s[lo..i + 1]) == Unchanged(s[lo..i]) + [Entry(s[i], Unmodified)]
  {
  }

  /** The three parts the reassembly loops produce make up `Assemble`. */
  lemma AssembleParts(s1: seq<string>, s2: seq<string>, start: nat, end1: int, end2: int, w: seq<Entry>, d: seq<Entry>)
    requires start <= end1 + 1 <= |s1| && start <= end2 + 1 <= |s2| && |s1| - end1 == |s2| - end2
    requires w == Walk(s1[start..end1 + 1], s2[start..end2 + 1], end1 + 1 - start, end2 + 1 - start)
    requires d == Unchanged(s1[0..start]) + w + Unchanged(s1[end1 + 1..|s1|])
    ensures d == Assemble(s1, s2, start, |s1| - 1 - end1)
  {
    assert s1[0..start] == s1[..start];
    assert s1[end1 + 1..|s1|] == s1[|s1| - (|s1| - 1 - end1)..];
    assert s1[start..end1 + 1] == s1[start..|s1| - (|s1| - 1 - end1)];
    assert s2[start..end2 + 1] == s2[start..|s2| - (|s1| - 1 - end1)];
  }

  /** Moving the last entry of `p` onto the end of `d` keeps `d + Reversed(p)` unchanged. */
  lemma PopLast(d: seq<Entry>, p: seq<Entry>)
    requires |p| > 0
    ensures d + Reversed(p) == (d + [p[|p| - 1]]) + Reversed(p[..|p| - 1])
  {
    assert Reversed(p) == [p[|p| - 1]] + Reversed(p[..|p| - 1]);
    AppendAssoc(d, [p[|p| - 1]], Reversed(p[..|p| - 1]));
  }

  // ---------------------------------------------------------------------
  // The engine, step by step

  /** `compute_table`: the (length1+1) x (length2+1) table of LCS lengths of the middle region. */
  method ComputeTable(sequence1: seq<string>, sequence2: seq<string>, start: int, end1: int, end2: int)
    returns (table: array2<nat>)
    requires 0 <= start && start - 1 <= end1 < |sequence1| && start - 1 <= end2 < |sequence2|
    ensures table.Length0 == end1 - start + 2 && table.Length1 == end2 - start + 2
    ensures forall i, j {:trigger table[i, j]} :: 0 <= i < table.Length0 && 0 <= j < table.Length1 ==>
      table[i, j] == Lcs(sequence1[start..start + i], sequence2[start..start + j])
  {
    var length1 := end1 - start + 1;
    var length2 := end2 - start + 1;
    ghost var a := sequence1[start..end1 + 1];
    ghost var b := sequence2[start..end2 + 1];
    table := new nat[length1 + 1, length2 + 1]((i, j) => 0);
    var index1 := 1;
    while index1 <= length1
      invariant 1 <= index1 <= length1 + 1
      invariant forall i, j {:trigger table[i, j]} :: 0 <= i < index1 && 0 <= j <= length2 ==> table[i, j] == Lcs(a[..i], b[..j])
    {
      FillRow(table, sequence1, sequence2, start, a, b, index1);
      index1 := index1 + 1;
    }
    forall i, j | 0 <= i < table.Length0 && 0 <= j < table.Length1
      ensures table[i, j] == Lcs(sequence1[start..start + i], sequence2[start..start + j])
    {
      MiddlePrefix(sequence1, start, length1, i);
      MiddlePrefix(sequence2, start, length2, j);
    }
  }

  /** One pass of the outer loop of `compute_table`: fills row `index1` from the row above it. */
  method FillRow(table: array2<nat>, sequence1: seq<string>, sequence2: seq<string>, start: nat,
                 ghost a: seq<string>, ghost b: seq<string>, index1: nat)
    requires 1 <= index1 < table.Length0 && table.Length1 >= 1
    requires start + table.Length0 - 1 <= |sequence1| && start + table.Length1 - 1 <= |sequence2|
    requires a == sequence1[start..start + table.Length0 - 1] && b == sequence2[start..start + table.Length1 - 1]
    requires forall i, j {:trigger table[i, j]} :: 0 <= i < index1 && 0 <= j < table.Length1 ==>
      table[i, j] == Lcs(a[..i], b[..j])
    modifies table
    ensures forall i, j {:trigger table[i, j]} :: 0 <= i <= index1 && 0 <= j < table.Length1 ==>
      table[i, j] == Lcs(a[..i], b[..j])
  {
    table[index1, 0] := 0;
    var index2 := 1;
    while index2 < table.Length1
      invariant 1 <= index2 <= table.Length1
      invariant forall i, j {:trigger table[i, j]} :: 0 <= i < index1 && 0 <= j < table.Length1 ==>
        table[i, j] == Lcs(a[..i], b[..j])
      invariant forall j :: 0 <= j < index2 ==> table[index1, j] == Lcs(a[..index1], b[..j])
    {
      if sequence1[index1 + start - 1] == sequence2[index2 + start - 1] {
        table[index1, index2] := table[index1 - 1, index2 - 1] + 1;
      } else {
        table[index1, index2] := Max(table[index1 - 1, index2], table[index1, index2 - 1]);
      }
      LcsStep(a, b, index1, index2);
      index2 := index2 + 1;
    }
  }

  /**
   * `generate_partial_diff`: walks back from the table's last cell to [0][0]
   * and returns the entries in reverse order. Reversed, they are the walk;
   * they number length1 + length2 - k, where k, the number of UNMODIFIED
   * entries, is the table's final cell.
   */
  method GeneratePartialDiff(table: array2<nat>, sequence1: seq<string>, sequence2: seq<string>, start: nat)
    returns (partial: seq<Entry>)
    requires table.Length0 >= 1 && table.Length1 >= 1
    requires start + table.Length0 - 1 <= |sequence1| && start + table.Length1 - 1 <= |sequence2|
    requires forall i, j {:trigger table[i, j]} :: 0 <= i < table.Length0 && 0 <= j < table.Length1 ==>
      table[i, j] == Lcs(sequence1[start..start + i], sequence2[start..start + j])
    ensures Reversed(partial) == Walk(sequence1[start..start + table.Length0 - 1], sequence2[start..start + table.Length1 - 1],
                                      table.Length0 - 1, table.Length1 - 1)
    ensures CountUnmodified(Reversed(partial)) == table[table.Length0 - 1, table.Length1 - 1]
    ensures |partial| == table.Length0 - 1 + table.Length1 - 1 - table[table.Length0 - 1, table.Length1 - 1]
  {
    ghost var a := sequence1[start..start + table.Length0 - 1];
    ghost var b := sequence2[start..start + table.Length1 - 1];
    ghost var whole := Walk(a, b, table.Length0 - 1, table.Length1 - 1);
    assert table[table.Length0 - 1, table.Length1 - 1] == Lcs(a, b);
    partial := [];
    var index1 := table.Length0 - 1;
    var index2 := table.Length1 - 1;
    BacktrackStart(a, b, whole);
    while index1 > 0 || index2 > 0
      invariant 0 <= index1 <= |a| && 0 <= index2 <= |b|
      invariant Walk(a, b, index1, index2) + Reversed(partial) == whole
      decreases index1 + index2
    {
      var next1, next2, e := BacktrackStep(table, sequence1, sequence2, start, a, b, index1, index2);
      WalkBack(a, b, index1, index2, partial, next1, next2, e, whole);
      index1, index2 := next1, next2;
      partial := partial + [e];
    }
    BacktrackDone(a, b, partial, whole);
    WalkCount(a, b, table.Length0 - 1, table.Length1 - 1);
  }

  /** Before the first move nothing is emitted, so the walk still to go is the whole walk. */
  lemma BacktrackStart(a: seq<string>, b: seq<string>, whole: seq<Entry>)
    requires whole == Walk(a, b, |a|, |b|)
    ensures Walk(a, b, |a|, |b|) + Reversed([]) == whole
  {
    AppendEmpty(whole);
  }

  /** Once the walk reaches cell [0][0], the entries emitted, reversed, are the whole walk. */
  lemma BacktrackDone(a: seq<string>, b: seq<string>, p: seq<Entry>, whole: seq<Entry>)
    requires Walk(a, b, 0, 0) + Reversed(p) == whole
    ensures Reversed(p) == whole
  {
    assert Walk(a, b, 0, 0) == [];
    assert [] + Reversed(p) == Reversed(p);
  }

  /** The whole walk keeps Lcs(a, b) elements and has |a| + |b| - Lcs(a, b) entries. */
  lemma WalkCount(a: seq<string>, b: seq<string>, n1: nat, n2: nat)
    requires n1 == |a| && n2 == |b|
    ensures CountUnmodified(Walk(a, b, n1, n2)) == Lcs(a, b)
    ensures |Walk(a, b, n1, n2)| == n1 + n2 - Lcs(a, b)
  {
    WalkIsOptimalEditScript(a, b);
  }

  /** One pass of the backtracking loop of `generate_partial_diff`: the move `Step` makes. */
  method BacktrackStep(table: array2<nat>, sequence1: seq<string>, sequence2: seq<string>, start: nat,
                       ghost a: seq<string>, ghost b: seq<string>, index1: nat, index2: nat)
    returns (next1: nat, next2: nat, e: Entry)
    requires table.Length0 >= 1 && table.Length1 >= 1
    requires start + table.Length0 - 1 <= |sequence1| && start + table.Length1 - 1 <= |sequence2|
    requires a == sequence1[start..start + table.Length0 - 1] && b == sequence2[start..start + table.Length1 - 1]
    requires forall i, j {:trigger table[i, j]} :: 0 <= i < table.Length0 && 0 <= j < table.Length1 ==>
      table[i, j] == Lcs(sequence1[start..start + i], sequence2[start..start + j])
    requires index1 <= |a| && index2 <= |b| && (index1 > 0 || index2 > 0)
    ensures (next1, next2, e) == Step(a, b, index1, index2)
  {
    var matched := index1 > 0 && index2 > 0 && sequence1[index1 + start - 1] == sequence2[index2 + start - 1];
    var inserted := index2 > 0 && table[index1, index2] == table[index1, index2 - 1];
    BacktrackMove(sequence1, sequence2, start, a, b, index1, index2, matched, inserted);
    if matched {
      e := Entry(sequence1[index1 + start - 1], Unmodified);
      next1, next2 := index1 - 1, index2 - 1;
    } else if inserted {
      e := Entry(sequence2[index2 + start - 1], Inserted);
      next1, next2 := index1, index2 - 1;
    } else {
      e := Entry(sequence1[index1 + start - 1], Deleted);
      next1, next2 := index1 - 1, index2;
    }
  }

  /** The first loop of `compare`: how many leading elements the two sequences share. */
  method SkipCommonPrefix(sequence1: seq<string>, sequence2: seq<string>) returns (start: nat)
    ensures start == CommonPrefixFrom(sequence1, sequence2, 0)
  {
    start := 0;
    var end1 := |sequence1| - 1;
    var end2 := |sequence2| - 1;
    while start <= end1 && start <= end2 && sequence1[start] == sequence2[start]
      invariant 0 <= start <= |sequence1| && start <= |sequence2|
      invariant CommonPrefixFrom(sequence1, sequence2, start) == CommonPrefixFrom(sequence1, sequence2, 0)
    {
      start := start + 1;
    }
  }

  /**
   * The second loop of `compare`: the last indices of the middle regions,
   * once the common suffix that does not reach into the first `start`
   * elements is skipped.
   */
  method SkipCommonSuffix(sequence1: seq<string>, sequence2: seq<string>, start: nat) returns (end1: int, end2: int)
    requires start <= |sequence1| && start <= |sequence2|
    ensures var k := CommonSuffixFrom(sequence1, sequence2, start, 0);
      end1 == |sequence1| - 1 - k && end2 == |sequence2| - 1 - k
  {
    end1 := |sequence1| - 1;
    end2 := |sequence2| - 1;
    ghost var k := 0;
    while end1 >= start && end2 >= start && sequence1[end1] == sequence2[end2]
      invariant start + k <= |sequence1| && start + k <= |sequence2|
      invariant end1 == |sequence1| - 1 - k && end2 == |sequence2| - 1 - k
      invariant CommonSuffixFrom(sequence1, sequence2, start, k) == CommonSuffixFrom(sequence1, sequence2, start, 0)
    {
      end1 := end1 - 1;
      end2 := end2 - 1;
      k := k + 1;
    }
  }

  /**
   * The last three loops of `compare`: the common prefix as UNMODIFIED
   * entries, the partial diff popped from its end (so in forward order),
   * and the common suffix as UNMODIFIED entries.
   */
  method Reassemble(sequence1: seq<string>, start: nat, end1: int, partialDiff: seq<Entry>) returns (diff: seq<Entry>)
    requires start <= end1 + 1 <= |sequence1|
    ensures diff == Unchanged(sequence1[0..start]) + Reversed(partialDiff) + Unchanged(sequence1[end1 + 1..|sequence1|])
  {
    diff := [];
    var index := 0;
    while index < start
      invariant 0 <= index <= start
      invariant diff == Unchanged(sequence1[0..index])
    {
      UnchangedPush(sequence1, 0, index);
      diff := diff + [Entry(sequence1[index], Unmodified)];
      index := index + 1;
    }
    ghost var prefix := diff;

    var rest := partialDiff;
    while |rest| > 0
      invariant diff + Reversed(rest) == prefix + Reversed(partialDiff)
    {
      PopLast(diff, rest);
      var last := rest[|rest| - 1];
      diff := diff + [last];
      rest := rest[..|rest| - 1];
    }
    assert Reversed(rest) == [];
    ghost var middle := diff;

    index := end1 + 1;
    while index < |sequence1|
      invariant end1 + 1 <= index <= |sequence1|
      invariant diff == middle + Unchanged(sequence1[end1 + 1..index])
    {
      UnchangedPush(sequence1, end1 + 1, index);
      AppendAssoc(middle, Unchanged(sequence1[end1 + 1..index]), [Entry(sequence1[index], Unmodified)]);
      diff := diff + [Entry(sequence1[index], Unmodified)];
      index := index + 1;
    }
  }

  /**
   * The table and backtracking steps of `compare` over the middle regions
   * sequence1[start..end1] and sequence2[start..end2]: the partial diff,
   * in reverse order.
   */
  method MiddleDiff(sequence1: seq<string>, sequence2: seq<string>, start: nat, end1: int, end2: int)
    returns (partialDiff: seq<Entry>)
    requires start - 1 <= end1 < |sequence1| && start - 1 <= end2 < |sequence2|
    ensures Reversed(partialDiff) ==
      Walk(sequence1[start..end1 + 1], sequence2[start..end2 + 1], end1 + 1 - start, end2 + 1 - start)
  {
    var table := ComputeTable(sequence1, sequence2, start, end1, end2);
    partialDiff := GeneratePartialDiff(table, sequence1, sequence2, start);
    assert sequence1[start..end1 + 1] == sequence1[start..start + table.Length0 - 1];
    assert sequence2[start..end2 + 1] == sequence2[start..start + table.Length1 - 1];
  }

  /**
   * `compare`: the diff of two strings, by characters or by lines. It is
   * `DiffOf`, so it reconstructs both sequences (DiffOfIsEditScript) and
   * keeps as many elements unmodified as any edit script can.
   */
  method Compare(string1: string, string2: string, compareCharacters: bool) returns (diff: seq<Entry>)
    ensures diff == DiffOf(string1, string2, compareCharacters)
    ensures IsEditScript(diff, Sequence(string1, compareCharacters), Sequence(string2, compareCharacters))
  {
    var sequence1, sequence2;
    if compareCharacters {
      sequence1 := Characters(string1);
      sequence2 := Characters(string2);
    } else {
      sequence1 := SplitLines(string1);
      sequence2 := SplitLines(string2);
    }
    assert sequence1 == Sequence(string1, compareCharacters) && sequence2 == Sequence(string2, compareCharacters);
    var start := SkipCommonPrefix(sequence1, sequence2);
    var end1, end2 := SkipCommonSuffix(sequence1, sequence2, start);
    var partialDiff := MiddleDiff(sequence1, sequence2, start, end1, end2);
    diff := Reassemble(sequence1, start, end1, partialDiff);
    AssembleParts(sequence1, sequence2, start, end1, end2, Reversed(partialDiff), diff);
    DiffOfIsEditScript(string1, string2, compareCharacters);
  }
}
