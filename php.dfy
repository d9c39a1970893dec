/**
 * The PHP string built-ins the plugin relies on, restricted to the
 * behaviour it uses: `empty()` on strings, `trim()`, `explode()`,
 * `str_replace()` of one character, `strtolower()` and `htmlspecialchars()`.
 * Strings are sequences of characters; a PHP byte is one character here.
 */
module Php {

  /** `empty($s)` for a string: the empty string and "0" are empty. */
  predicate EmptyString(s: string) {
    s == "" || s == "0"
  }

  /** The characters `trim()` strips by default: space, \t, \n, \r, \0 and \x0B. */
  predicate IsTrimChar(c: char) {
    c == ' ' || c == '\t' || c == '\n' || c == '\r' || c == '\0' || c == '\U{B}'
  }

  /** The first index at or after `i` that does not hold a trim character (|s| when none). */
  function SkipTrimForward(s: string, i: nat): (j: nat)
    requires i <= |s|
    ensures i <= j <= |s|
    ensures j == |s| || !IsTrimChar(s[j])
    decreases |s| - i
  {
    if i < |s| && IsTrimChar(s[i]) then SkipTrimForward(s, i + 1) else i
  }

  /** Everything `SkipTrimForward` passes over is a trim character. */
  lemma {:induction false} SkipTrimForwardPassesTrimChars(s: string, i: nat)
    requires i <= |s|
    ensures forall k :: i <= k < SkipTrimForward(s, i) ==> IsTrimChar(s[k])
    decreases |s| - i
  {
    if i < |s| && IsTrimChar(s[i]) {
      SkipTrimForwardPassesTrimChars(s, i + 1);
    }
  }

  /**
   * The least index `j`, down from `hi` and no lower than `lo`, such that the
   * character before `j` is not a trim character.
   */
  function SkipTrimBackward(s: string, lo: nat, hi: nat): (j: nat)
    requires lo <= hi <= |s|
    ensures lo <= j <= hi
    ensures j == lo || !IsTrimChar(s[j - 1])
    decreases hi
  {
    if lo < hi && IsTrimChar(s[hi - 1]) then SkipTrimBackward(s, lo, hi - 1) else hi
  }

  /** Everything `SkipTrimBackward` passes over is a trim character. */
  lemma {:induction false} SkipTrimBackwardPassesTrimChars(s: string, lo: nat, hi: nat)
    requires lo <= hi <= |s|
    ensures forall k :: SkipTrimBackward(s, lo, hi) <= k < hi ==> IsTrimChar(s[k])
    decreases hi
  {
    if lo < hi && IsTrimChar(s[hi - 1]) {
      SkipTrimBackwardPassesTrimChars(s, lo, hi - 1);
    }
  }

  /** Where the text `trim` keeps starts. */
  function TrimStart(s: string): nat
  {
    SkipTrimForward(s, 0)
  }

  /** Where the text `trim` keeps ends. */
  function TrimEnd(s: string): (e: nat)
    ensures TrimStart(s) <= e <= |s|
  {
    SkipTrimBackward(s, TrimStart(s), |s|)
  }

  /** `trim($s)`: drops the leading and the trailing run of trim characters. */
  function Trim(s: string): (r: string)
    ensures |r| <= |s|
    ensures r == [] || (!IsTrimChar(r[0]) && !IsTrimChar(r[|r| - 1]))
  {
    s[TrimStart(s)..TrimEnd(s)]
  }

  /** What `trim` drops, at either end, is trim characters and nothing else. */
  lemma TrimDropsOnlyTrimChars(s: string)
    ensures forall k :: 0 <= k < TrimStart(s) ==> IsTrimChar(s[k])
    ensures forall k :: TrimEnd(s) <= k < |s| ==> IsTrimChar(s[k])
  {
    SkipTrimForwardPassesTrimChars(s, 0);
    SkipTrimBackwardPassesTrimChars(s, TrimStart(s), |s|);
  }

  /** Trimming a string that starts with a non-trim character leaves that character first. */
  lemma TrimKeepsFirst(s: string)
    requires |s| > 0 && !IsTrimChar(s[0])
    ensures |Trim(s)| > 0 && Trim(s)[0] == s[0]
  {
    assert TrimStart(s) == 0;
    SkipTrimBackwardPassesTrimChars(s, 0, |s|);
  }

  /** A string that is already trimmed is its own trim. */
  lemma TrimOfTrimmed(s: string)
    requires s == [] || (!IsTrimChar(s[0]) && !IsTrimChar(s[|s| - 1]))
    ensures Trim(s) == s
  {
    assert TrimStart(s) == 0;
    assert TrimEnd(s) == |s|;
  }

  /** Trimming adds no character. */
  lemma TrimKeepsOut(s: string, c: char)
    requires c !in s
    ensures c !in Trim(s)
  {
    var r := Trim(s);
    assert forall k :: 0 <= k < |r| ==> r[k] == s[TrimStart(s) + k];
  }

  /** `trim` is idempotent. */
  lemma TrimIdempotent(s: string)
    ensures Trim(Trim(s)) == Trim(s)
  {
    TrimOfTrimmed(Trim(s));
  }

  /** The index of the first occurrence of `c` in `s`, or |s| when there is none. */
  function IndexOf(s: string, c: char): (i: nat)
    ensures i <= |s|
    ensures i < |s| ==> s[i] == c
    ensures forall k :: 0 <= k < i ==> s[k] != c
  {
    if |s| == 0 then 0 else if s[0] == c then 0 else 1 + IndexOf(s[1..], c)
  }

  /** `explode($d, $s)` for a one-character delimiter: the pieces between delimiters. */
  function Explode(s: string, d: char): (r: seq<string>)
    ensures |r| >= 1
    ensures forall k :: 0 <= k < |r| ==> d !in r[k]
    decreases |s|
  {
    var i := IndexOf(s, d);
    if i == |s| then [s] else [s[..i]] + Explode(s[i + 1..], d)
  }

  /** `implode($d, $pieces)`: the pieces joined by the delimiter. */
  function Implode(pieces: seq<string>, d: char): string
  {
    if |pieces| == 0 then ""
    else if |pieces| == 1 then pieces[0]
    else pieces[0] + [d] + Implode(pieces[1..], d)
  }

  /** Joining the pieces of `explode` with the same delimiter gives back the string. */
  lemma {:induction false} ImplodeExplode(s: string, d: char)
    ensures Implode(Explode(s, d), d) == s
    decreases |s|
  {
    var i := IndexOf(s, d);
    if i < |s| {
      var rest := s[i + 1..];
      var p := Explode(rest, d);
      assert Explode(s, d) == [s[..i]] + p;
      ImplodeExplode(rest, d);
      ImplodeCons(s[..i], p, d);
      SplitAround(s, i);
    }
  }

  lemma ImplodeCons(x: string, p: seq<string>, d: char)
    requires |p| >= 1
    ensures Implode([x] + p, d) == x + [d] + Implode(p, d)
  {
    assert ([x] + p)[1..] == p;
  }

  lemma SplitAround(s: string, i: nat)
    requires i < |s|
    ensures s == s[..i] + [s[i]] + s[i + 1..]
  {
  }

  /** Splitting a join of delimiter-free pieces gives back the pieces. */
  lemma {:induction false} ExplodeImplode(pieces: seq<string>, d: char)
    requires |pieces| >= 1
    requires forall k :: 0 <= k < |pieces| ==> d !in pieces[k]
    ensures Explode(Implode(pieces, d), d) == pieces
    decreases |pieces|
  {
    var s := Implode(pieces, d);
    if |pieces| == 1 {
      assert IndexOf(s, d) == |s|;
    } else {
      var x, rest := pieces[0], Implode(pieces[1..], d);
      assert s == x + [d] + rest;
      IndexOfAfterPiece(x, d, rest);
      assert s[..|x|] == x && s[|x| + 1..] == rest;
      ExplodeImplode(pieces[1..], d);
      assert [x] + pieces[1..] == pieces;
    }
  }

  lemma {:induction false} IndexOfAfterPiece(x: string, d: char, rest: string)
    requires d !in x
    ensures IndexOf(x + [d] + rest, d) == |x|
  {
    if |x| > 0 {
      assert (x + [d] + rest)[1..] == x[1..] + [d] + rest;
      IndexOfAfterPiece(x[1..], d, rest);
    }
  }

  /** A character missing from the string is missing from every piece of its `explode`. */
  lemma {:induction false} ExplodeKeepsOut(s: string, d: char, c: char)
    requires c !in s
    ensures forall k :: 0 <= k < |Explode(s, d)| ==> c !in Explode(s, d)[k]
    decreases |s|
  {
    var i := IndexOf(s, d);
    if i < |s| {
      var rest := s[i + 1..];
      assert c !in rest && c !in s[..i];
      ExplodeKeepsOut(rest, d, c);
      assert Explode(s, d) == [s[..i]] + Explode(rest, d);
    }
  }

  /** `substr_count($s, $c)` for one character: how often `c` occurs in `s`. */
  function Occurrences(s: string, c: char): nat {
    if |s| == 0 then 0 else (if s[0] == c then 1 else 0) + Occurrences(s[1..], c)
  }

  lemma {:induction false} OccurrencesAppend(a: string, b: string, c: char)
    ensures Occurrences(a + b, c) == Occurrences(a, c) + Occurrences(b, c)
  {
    if |a| == 0 {
      assert a + b == b;
    } else {
      assert (a + b)[1..] == a[1..] + b;
      OccurrencesAppend(a[1..], b, c);
    }
  }

  lemma {:induction false} OccurrencesAbsent(s: string, c: char)
    requires c !in s
    ensures Occurrences(s, c) == 0
  {
    if |s| > 0 {
      OccurrencesAbsent(s[1..], c);
    }
  }

  /** `explode` yields one piece more than there are delimiters. */
  lemma {:induction false} ExplodeCount(s: string, d: char)
    ensures |Explode(s, d)| == Occurrences(s, d) + 1
    decreases |s|
  {
    var i := IndexOf(s, d);
    if i == |s| {
      OccurrencesAbsent(s, d);
    } else {
      ExplodeCount(s[i + 1..], d);
      assert s == s[..i] + [d] + s[i + 1..];
      OccurrencesAppend(s[..i] + [d], s[i + 1..], d);
      OccurrencesAppend(s[..i], [d], d);
      OccurrencesAbsent(s[..i], d);
    }
  }

  /** `str_replace($c, '', $s)` for a one-character needle: every `c` removed. */
  function RemoveChar(s: string, c: char): (r: string)
    ensures c !in r
    ensures |r| <= |s|
    ensures forall x :: x in r ==> x in s
  {
    if |s| == 0 then "" else (if s[0] == c then "" else [s[0]]) + RemoveChar(s[1..], c)
  }

  /** Removing a character from a concatenation removes it from each part. */
  lemma {:induction false} RemoveCharAppend(a: string, b: string, c: char)
    ensures RemoveChar(a + b, c) == RemoveChar(a, c) + RemoveChar(b, c)
    decreases |a|
  {
    if |a| > 0 {
      assert (a + b)[1..] == a[1..] + b;
      RemoveCharAppend(a[1..], b, c);
    } else {
      assert a + b == b;
    }
  }

  /** Removing a character that does not occur changes nothing. */
  lemma {:induction false} RemoveAbsentChar(s: string, c: char)
    requires c !in s
    ensures RemoveChar(s, c) == s
  {
    if |s| > 0 {
      RemoveAbsentChar(s[1..], c);
    }
  }

  /** `strtolower` on the ASCII letters (the behaviour of PHP 8.2 and later). */
  function ToLowerChar(c: char): char
  {
    if 'A' <= c <= 'Z' then (c as int - 'A' as int + 'a' as int) as char else c
  }

  function ToLower(s: string): (r: string)
    ensures |r| == |s|
    ensures forall k :: 0 <= k < |s| ==> r[k] == ToLowerChar(s[k])
  {
    seq(|s|, k requires 0 <= k < |s| => ToLowerChar(s[k]))
  }

  /** `htmlspecialchars` with PHP 8.1's default flags (ENT_QUOTES): & " ' < > become entities. */
  function EscapeChar(c: char): string
  {
    if c == '&' then "&amp;"
    else if c == '"' then "&quot;"
    else if c == '\'' then "&#039;"
    else if c == '<' then "&lt;"
    else if c == '>' then "&gt;"
    else [c]
  }

  predicate IsSpecialChar(c: char) {
    c == '<' || c == '>' || c == '"' || c == '\''
  }

  function HtmlSpecialChars(s: string): (r: string)
    ensures |r| >= |s|
  {
    if |s| == 0 then "" else EscapeChar(s[0]) + HtmlSpecialChars(s[1..])
  }

  /** No character of the escaped text is one that HTML markup would read. */
  lemma {:induction false} HtmlSpecialCharsEscapesAll(s: string)
    ensures forall k :: 0 <= k < |HtmlSpecialChars(s)| ==> !IsSpecialChar(HtmlSpecialChars(s)[k])
  {
    if |s| > 0 {
      var e, rest := EscapeChar(s[0]), HtmlSpecialChars(s[1..]);
      HtmlSpecialCharsEscapesAll(s[1..]);
      assert HtmlSpecialChars(s) == e + rest;
      assert forall k :: 0 <= k < |e| ==> !IsSpecialChar(e[k]);
    }
  }

  predicate StartsWith(s: string, p: string) {
    |p| <= |s| && s[..|p|] == p
  }

  /** The inverse of `HtmlSpecialChars` (as `htmlspecialchars_decode` with ENT_QUOTES). */
  function HtmlSpecialCharsDecode(s: string): string
  {
    if |s| == 0 then ""
    else if s[0] != '&' then [s[0]] + HtmlSpecialCharsDecode(s[1..])
    else if |s| >= 5 && s[1] == 'a' && s[2] == 'm' && s[3] == 'p' && s[4] == ';' then "&" + HtmlSpecialCharsDecode(s[5..])
    else if |s| >= 6 && s[1] == 'q' && s[2] == 'u' && s[3] == 'o' && s[4] == 't' && s[5] == ';' then "\"" + HtmlSpecialCharsDecode(s[6..])
    else if |s| >= 6 && s[1] == '#' && s[2] == '0' && s[3] == '3' && s[4] == '9' && s[5] == ';' then "'" + HtmlSpecialCharsDecode(s[6..])
    else if |s| >= 4 && s[1] == 'l' && s[2] == 't' && s[3] == ';' then "<" + HtmlSpecialCharsDecode(s[4..])
    else if |s| >= 4 && s[1] == 'g' && s[2] == 't' && s[3] == ';' then ">" + HtmlSpecialCharsDecode(s[4..])
    else "&" + HtmlSpecialCharsDecode(s[1..])
  }

  /** Decoding an escaped prefix followed by more text decodes the prefix to its character. */
  lemma DecodeEscapedChar(c: char, rest: string)
    ensures HtmlSpecialCharsDecode(EscapeChar(c) + rest) == [c] + HtmlSpecialCharsDecode(rest)
  {
    var e := EscapeChar(c);
    var s := e + rest;
    assert s[|e|..] == rest;
    if c == '&' {
      assert s[1] == 'a' && s[2] == 'm' && s[3] == 'p' && s[4] == ';';
    } else if c == '"' {
      assert s[1] == 'q' && s[2] == 'u' && s[3] == 'o' && s[4] == 't' && s[5] == ';';
    } else if c == '\'' {
      assert s[1] == '#' && s[2] == '0' && s[3] == '3' && s[4] == '9' && s[5] == ';';
    } else if c == '<' {
      assert s[1] == 'l' && s[2] == 't' && s[3] == ';';
    } else if c == '>' {
      assert s[1] == 'g' && s[2] == 't' && s[3] == ';';
    } else {
      assert s[0] == c;
    }
  }

  /** Escaping loses nothing: decoding recovers the original text. */
  lemma {:induction false} HtmlSpecialCharsRoundTrip(s: string)
    ensures HtmlSpecialCharsDecode(HtmlSpecialChars(s)) == s
  {
    if |s| > 0 {
      var t := HtmlSpecialChars(s[1..]);
      assert HtmlSpecialChars(s) == EscapeChar(s[0]) + t;
      DecodeEscapedChar(s[0], t);
      HtmlSpecialCharsRoundTrip(s[1..]);
      assert [s[0]] + s[1..] == s;
    }
  }
}
