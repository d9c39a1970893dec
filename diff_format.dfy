/**
 * The three renderings of a diff (Rock_The_Slackbot_Diff::to_string,
 * to_html and to_table with its helper get_cell_content). Each is a loop
 * method proved equal to a specification function; the lemmas state what
 * the renderings preserve: the text and HTML forms parse back to the diff,
 * and the table's left column shows exactly the first sequence and its
 * right column exactly the second.
 */
module DiffFormat {
  import Php
  import opened Wrappers
  import opened Diff

  // ---------------------------------------------------------------------
  // Plain text: to_string

  /** The two-character prefix of a line in the text form. */
  function Marker(op: Op): string {
    match op
    case Unmodified => "  "
    case Deleted => "- "
    case Inserted => "+ "
  }

  function TextLine(e: Entry): string {
    Marker(e.op) + e.text
  }

  /** The text form: each entry as its marker and text, followed by the separator. */
  function RenderText(d: seq<Entry>, separator: string): string
  {
    if |d| == 0 then "" else TextLine(d[0]) + separator + RenderText(d[1..], separator)
  }

  /** `to_string`: the text form, built entry by entry. */
  method ToString(diff: seq<Entry>, separator: string) returns (s: string)
    ensures s == RenderText(diff, separator)
  {
    s := "";
    var i := 0;
    while i < |diff|
      invariant 0 <= i <= |diff|
      invariant s + RenderText(diff[i..], separator) == RenderText(diff, separator)
    {
      var line := diff[i];
      assert diff[i..][1..] == diff[i + 1..];
      ghost var before := s;
      match line.op {
        case Unmodified => s := s + ("  " + line.text);
        case Deleted => s := s + ("- " + line.text);
        case Inserted => s := s + ("+ " + line.text);
      }
      s := s + separator;
      AppendAssoc(before, TextLine(line), separator);
      AppendAssoc(before, TextLine(line) + separator, RenderText(diff[i + 1..], separator));
      i := i + 1;
    }
  }

  /** The classification a two-character marker stands for; anything else reads as unmodified. */
  function MarkerOp(c0: char, c1: char): Op {
    if c0 == '-' && c1 == ' ' then Deleted
    else if c0 == '+' && c1 == ' ' then Inserted
    else Unmodified
  }

  /** Reads one line of the text form back into an entry. */
  function ParseLine(line: string): Entry
  {
    if |line| < 2 then Entry("", Unmodified) else Entry(line[2..], MarkerOp(line[0], line[1]))
  }

  /** Reads the text form written with the separator "\n" back into entries, one per line. */
  function ParseText(s: string): seq<Entry>
    decreases |s|
  {
    if |s| == 0 then []
    else
      var i := Php.IndexOf(s, '\n');
      [ParseLine(s[..i])] + (if i < |s| then ParseText(s[i + 1..]) else [])
  }

  /** Every text fits on one line. */
  predicate SingleLineTexts(d: seq<Entry>) {
    forall k :: 0 <= k < |d| ==> '\n' !in d[k].text
  }

  /** One line of the text form, read back, gives its entry and then the rest. */
  lemma ParseTextStep(e: Entry, more: string)
    requires '\n' !in e.text
    ensures ParseText(TextLine(e) + "\n" + more) == [e] + ParseText(more)
  {
    var line := TextLine(e);
    var s := line + "\n" + more;
    assert ParseLine(line) == e by {
      assert line[0] == Marker(e.op)[0] && line[1] == Marker(e.op)[1] && line[2..] == e.text;
    }
    assert '\n' !in line by {
      forall k | 0 <= k < |line| ensures line[k] != '\n' {
        if k >= 2 {
          assert line[k] == e.text[k - 2];
        }
      }
    }
    IndexOfAfter(line, "\n" + more, '\n');
    assert s == line + ("\n" + more);
    var i := Php.IndexOf(s, '\n');
    assert i == |line| < |s|;
    assert s[..i] == line;
    assert s[i + 1..] == more;
    assert ParseText(s) == [ParseLine(s[..i])] + ParseText(s[i + 1..]);
  }

  /**
   * With the default separator "\n" and single-line texts, the text form
   * loses nothing: reading it back line by line gives the diff.
   */
  lemma {:induction false} TextRoundTrip(d: seq<Entry>)
    requires SingleLineTexts(d)
    ensures ParseText(RenderText(d, "\n")) == d
    decreases |d|
  {
    if |d| > 0 {
      ParseTextStep(d[0], RenderText(d[1..], "\n"));
      TextRoundTrip(d[1..]);
      assert [d[0]] + d[1..] == d;
    }
  }

  // ---------------------------------------------------------------------
  // HTML: to_html

  /** The element that wraps an entry: span, del or ins. */
  function Element(op: Op): string {
    match op
    case Unmodified => "span"
    case Deleted => "del"
    case Inserted => "ins"
  }

  function OpenTag(op: Op): string {
    "<" + Element(op) + ">"
  }

  function CloseTag(op: Op): string {
    "</" + Element(op) + ">"
  }

  function HtmlLine(e: Entry, separator: string): string {
    OpenTag(e.op) + Php.HtmlSpecialChars(e.text) + CloseTag(e.op) + separator
  }

  /** The HTML form: each entry escaped inside its element, followed by the separator. */
  function RenderHtml(d: seq<Entry>, separator: string): string
  {
    if |d| == 0 then "" else HtmlLine(d[0], separator) + RenderHtml(d[1..], separator)
  }

  /** `to_html`: the HTML form, built entry by entry. */
  method ToHtml(diff: seq<Entry>, separator: string) returns (html: string)
    ensures html == RenderHtml(diff, separator)
  {
    html := "";
    var i := 0;
    while i < |diff|
      invariant 0 <= i <= |diff|
      invariant html + RenderHtml(diff[i..], separator) == RenderHtml(diff, separator)
    {
      var line := diff[i];
      assert diff[i..][1..] == diff[i + 1..];
      var element;
      match line.op {
        case Unmodified => element := "span";
        case Deleted => element := "del";
        case Inserted => element := "ins";
      }
      ghost var before := html;
      html := html + ("<" + element + ">" + Php.HtmlSpecialChars(line.text) + "</" + element + ">");
      html := html + separator;
      HtmlPiece(line, element);
      ghost var piece := OpenTag(line.op) + Php.HtmlSpecialChars(line.text) + CloseTag(line.op);
      AppendAssoc(before, piece, separator);
      AppendAssoc(before, piece + separator, RenderHtml(diff[i + 1..], separator));
      i := i + 1;
    }
  }

  /** The element `to_html` builds for an entry is its opening tag, escaped text and closing tag. */
  lemma HtmlPiece(line: Entry, element: string)
    requires element == Element(line.op)
    ensures "<" + element + ">" + Php.HtmlSpecialChars(line.text) + "</" + element + ">" ==
      OpenTag(line.op) + Php.HtmlSpecialChars(line.text) + CloseTag(line.op)
  {
  }

  /** The classification whose opening tag `s` starts with, if any. */
  function TagAt(s: string): Option<Op> {
    if Php.StartsWith(s, "<span>") then Some(Unmodified)
    else if Php.StartsWith(s, "<del>") then Some(Deleted)
    else if Php.StartsWith(s, "<ins>") then Some(Inserted)
    else None
  }

  /**
   * Reads one element of the HTML form: an opening tag, the escaped text up
   * to the next '<', the matching closing tag and the separator. It gives
   * the entry and what follows.
   */
  function ReadElement(s: string, separator: string): (r: Option<(Entry, string)>)
    ensures r.Some? ==> |r.value.1| < |s|
  {
    match TagAt(s)
    case None => None
    case Some(op) =>
      var rest := s[|OpenTag(op)|..];
      var i := Php.IndexOf(rest, '<');
      var after := rest[i..];
      var tail := CloseTag(op) + separator;
      if Php.StartsWith(after, tail) then Some((Entry(Php.HtmlSpecialCharsDecode(rest[..i]), op), after[|tail|..]))
      else None
  }

  /** Reads the HTML form back, element by element. */
  function ParseHtml(s: string, separator: string): Option<seq<Entry>>
    decreases |s|
  {
    if |s| == 0 then Some([])
    else match ReadElement(s, separator)
      case None => None
      case Some((e, more)) =>
        match ParseHtml(more, separator)
        case None => None
        case Some(d) => Some([e] + d)
  }

  /** The first '<' of `x + y` is the first of `y` when `x` has none. */
  lemma {:induction false} IndexOfAfter(x: string, y: string, c: char)
    requires c !in x && |y| > 0 && y[0] == c
    ensures Php.IndexOf(x + y, c) == |x|
    decreases |x|
  {
    if |x| > 0 {
      assert (x + y)[1..] == x[1..] + y;
      IndexOfAfter(x[1..], y, c);
    }
  }

  /** A string that starts with an opening tag is read as that tag's classification. */
  lemma TagAtOpenTag(op: Op, rest: string)
    ensures TagAt(OpenTag(op) + rest) == Some(op)
  {
    var s := OpenTag(op) + rest;
    assert s[..|OpenTag(op)|] == OpenTag(op);
    assert s[1] == OpenTag(op)[1];
  }

  /** Escaped text contains no '<'. */
  lemma EscapedHasNoTag(t: string)
    ensures '<' !in Php.HtmlSpecialChars(t)
  {
    var esc := Php.HtmlSpecialChars(t);
    Php.HtmlSpecialCharsEscapesAll(t);
    forall k | 0 <= k < |esc| ensures esc[k] != '<' {
      assert !Php.IsSpecialChar(esc[k]);
    }
  }

  /** An element whose content has no '<' is read back as its decoded content. */
  lemma ReadElementBack(op: Op, esc: string, separator: string, more: string)
    requires '<' !in esc
    ensures ReadElement(OpenTag(op) + (esc + ((CloseTag(op) + separator) + more)), separator) ==
      Some((Entry(Php.HtmlSpecialCharsDecode(esc), op), more))
  {
    var open, tail := OpenTag(op), CloseTag(op) + separator;
    var after := tail + more;
    var rest := esc + after;
    var s := open + rest;
    assert TagAt(s) == Some(op) by {
      TagAtOpenTag(op, rest);
    }
    assert s[|open|..] == rest;
    assert Php.IndexOf(rest, '<') == |esc| by {
      IndexOfAfter(esc, after, '<');
    }
    assert rest[..|esc|] == esc && rest[|esc|..] == after;
    assert Php.StartsWith(after, tail) && after[|tail|..] == more;
  }

  /** Regrouping five concatenated strings to the right. */
  lemma RightGroup(a: string, b: string, c: string, d: string, e: string)
    ensures a + b + c + d + e == a + (b + ((c + d) + e))
  {
  }

  /** The HTML form of one entry, read back, gives the entry before what follows it. */
  lemma ParseHtmlStep(e: Entry, separator: string, more: string, d: seq<Entry>)
    requires ParseHtml(more, separator) == Some(d)
    ensures ParseHtml(HtmlLine(e, separator) + more, separator) == Some([e] + d)
  {
    EscapedHasNoTag(e.text);
    RightGroup(OpenTag(e.op), Php.HtmlSpecialChars(e.text), CloseTag(e.op), separator, more);
    ReadElementBack(e.op, Php.HtmlSpecialChars(e.text), separator, more);
    Php.HtmlSpecialCharsRoundTrip(e.text);
  }

  /** The HTML form loses nothing, whatever the separator: reading it back gives the diff. */
  lemma {:induction false} HtmlRoundTrip(d: seq<Entry>, separator: string)
    ensures ParseHtml(RenderHtml(d, separator), separator) == Some(d)
    decreases |d|
  {
    if |d| > 0 {
      var rest := RenderHtml(d[1..], separator);
      assert RenderHtml(d, separator) == HtmlLine(d[0], separator) + rest;
      HtmlRoundTrip(d[1..], separator);
      ParseHtmlStep(d[0], separator, rest, d[1..]);
      assert [d[0]] + d[1..] == d;
    }
  }

  // ---------------------------------------------------------------------
  // HTML table: to_table and get_cell_content

  /** Where the run of entries classified `op` that starts at `i` ends. */
  function RunEnd(d: seq<Entry>, i: nat, op: Op): (j: nat)
    requires i <= |d|
    ensures i <= j <= |d|
    ensures j == |d| || d[j].op != op
    decreases |d| - i
  {
    if i < |d| && d[i].op == op then RunEnd(d, i + 1, op) else i
  }

  /** Every entry of the run is classified `op`. */
  lemma {:induction false} RunEndCovers(d: seq<Entry>, i: nat, op: Op)
    requires i <= |d|
    ensures forall k :: i <= k < RunEnd(d, i, op) ==> d[k].op == op
    decreases |d| - i
  {
    if i < |d| && d[i].op == op {
      RunEndCovers(d, i + 1, op);
    }
  }

  lemma RunEndStop(d: seq<Entry>, i: nat, op: Op)
    requires i <= |d| && (i == |d| || d[i].op != op)
    ensures RunEnd(d, i, op) == i
  {
  }

  /** One element of a table cell: the escaped text in a span, then the separator. */
  function Span(text: string, separator: string): string {
    "<span>" + Php.HtmlSpecialChars(text) + "</span>" + separator
  }

  /** The content of a cell showing the entries d[i..j]. */
  function Cell(d: seq<Entry>, i: nat, j: nat, separator: string): string
    requires i <= j <= |d|
    decreases j - i
  {
    if i == j then "" else Span(d[i].text, separator) + Cell(d, i + 1, j, separator)
  }

  /**
   * `get_cell_content`: the spans of the run of `kind` entries that starts
   * at `index`, and (for the index passed by reference) where the run ends.
   */
  method GetCellContent(diff: seq<Entry>, separator: string, index: nat, kind: Op) returns (html: string, next: nat)
    requires index <= |diff|
    ensures next == RunEnd(diff, index, kind)
    ensures html == Cell(diff, index, next, separator)
  {
    html := "";
    next := index;
    ghost var end := RunEnd(diff, index, kind);
    while next < |diff| && diff[next].op == kind
      invariant index <= next <= end
      invariant RunEnd(diff, next, kind) == end
      invariant html + Cell(diff, next, end, separator) == Cell(diff, index, end, separator)
      decreases |diff| - next
    {
      RunEndStep(diff, next, kind);
      CellExtend(diff, index, next, end, html, separator);
      html := html + Span(diff[next].text, separator);
      next := next + 1;
    }
    RunEndStop(diff, next, kind);
    CellDone(diff, index, next, html, separator);
  }

  lemma RunEndStep(d: seq<Entry>, i: nat, op: Op)
    requires i < |d| && d[i].op == op
    ensures RunEnd(d, i, op) == RunEnd(d, i + 1, op)
  {
  }

  /** One more span moves from the cell still to build to the html built so far. */
  lemma CellExtend(d: seq<Entry>, index: nat, next: nat, end: nat, html: string, separator: string)
    requires index <= next < end <= |d|
    requires html + Cell(d, next, end, separator) == Cell(d, index, end, separator)
    ensures (html + Span(d[next].text, separator)) + Cell(d, next + 1, end, separator) == Cell(d, index, end, separator)
  {
    assert Cell(d, next, end, separator) == Span(d[next].text, separator) + Cell(d, next + 1, end, separator);
    AppendAssoc(html, Span(d[next].text, separator), Cell(d, next + 1, end, separator));
  }

  lemma CellDone(d: seq<Entry>, index: nat, next: nat, html: string, separator: string)
    requires index <= next <= |d|
    requires html + Cell(d, next, next, separator) == Cell(d, index, next, separator)
    ensures html == Cell(d, index, next, separator)
  {
    AppendEmpty(html);
  }

  /** The entries one table row shows: d[leftFrom..leftTo] on the left, d[rightFrom..rightTo] on the right. */
  datatype RowSpan = RowSpan(leftFrom: nat, leftTo: nat, rightFrom: nat, rightTo: nat)

  /**
   * The row that starts at entry `i`: a run of UNMODIFIED entries on both
   * sides; a run of DELETED entries on the left beside the run of INSERTED
   * entries that follows it on the right; or a run of INSERTED entries on
   * the right beside an empty left cell. The next row starts at rightTo.
   */
  function RowAt(d: seq<Entry>, i: nat): (r: RowSpan)
    requires i < |d|
    ensures i <= r.leftFrom <= r.leftTo <= r.rightTo <= |d| && r.rightFrom <= r.rightTo && i < r.rightTo
  {
    match d[i].op
    case Unmodified =>
      var j := RunEnd(d, i, Unmodified);
      RowSpan(i, j, i, j)
    case Deleted =>
      var j := RunEnd(d, i, Deleted);
      RowSpan(i, j, j, RunEnd(d, j, Inserted))
    case Inserted =>
      var j := RunEnd(d, i, Inserted);
      RowSpan(i, i, i, j)
  }

  /** The class of a cell beside `other`: the same content is unmodified, an empty cell is blank. */
  function CellClass(cell: string, other: string, changed: string): string {
    if cell == other then "Unmodified" else if cell == "" then "Blank" else changed
  }

  function RowHtml(left: string, right: string): string {
    "<tr>\n\t\t\t\t<td class=\"diff" + CellClass(left, right, "Deleted") + "\">" + left +
    "</td>\n\t\t\t\t<td class=\"diff" + CellClass(right, left, "Inserted") + "\">" + right +
    "</td>\n\t\t\t</tr>"
  }

  /** The rows of the table from entry `i` on. */
  function Rows(d: seq<Entry>, separator: string, i: nat): string
    requires i <= |d|
    decreases |d| - i
  {
    if i == |d| then ""
    else
      var r := RowAt(d, i);
      RowHtml(Cell(d, r.leftFrom, r.leftTo, separator), Cell(d, r.rightFrom, r.rightTo, separator)) +
      Rows(d, separator, r.rightTo)
  }

  function RenderTable(d: seq<Entry>, separator: string): string {
    "<table class=\"diff\">" + Rows(d, separator, 0) + "</table>\n"
  }

  /** `to_table`: the table, built row by row. */
  method ToTable(diff: seq<Entry>, separator: string) returns (table: string)
    ensures table == RenderTable(diff, separator)
  {
    var html := "<table class=\"diff\">";
    var index := 0;
    while index < |diff|
      invariant 0 <= index <= |diff|
      invariant html + Rows(diff, separator, index) == "<table class=\"diff\">" + Rows(diff, separator, 0)
      decreases |diff| - index
    {
      ghost var r := RowAt(diff, index);
      ghost var start := index;
      var leftCell, rightCell;
      match diff[index].op {
        case Unmodified =>
          leftCell, index := GetCellContent(diff, separator, index, Unmodified);
          rightCell := leftCell;
        case Deleted =>
          leftCell, index := GetCellContent(diff, separator, index, Deleted);
          rightCell, index := GetCellContent(diff, separator, index, Inserted);
        case Inserted =>
          leftCell := "";
          rightCell, index := GetCellContent(diff, separator, index, Inserted);
      }
      assert index == r.rightTo && leftCell == Cell(diff, r.leftFrom, r.leftTo, separator) &&
        rightCell == Cell(diff, r.rightFrom, r.rightTo, separator);
      var leftCellClass := if leftCell == rightCell then "Unmodified" else if "" == leftCell then "Blank" else "Deleted";
      var rightCellClass := if leftCell == rightCell then "Unmodified" else if "" == rightCell then "Blank" else "Inserted";
      RowPiece(leftCell, rightCell, leftCellClass, rightCellClass);
      AppendAssoc(html, RowHtml(leftCell, rightCell), Rows(diff, separator, index));
      html := html + ("<tr>\n\t\t\t\t<td class=\"diff" + leftCellClass + "\">" + leftCell +
                      "</td>\n\t\t\t\t<td class=\"diff" + rightCellClass + "\">" + rightCell +
                      "</td>\n\t\t\t</tr>");
    }
    AppendEmpty(html);
    table := html + "</table>\n";
  }

  /** The row `to_table` writes is `RowHtml` of its two cells. */
  lemma RowPiece(left: string, right: string, leftClass: string, rightClass: string)
    requires leftClass == (if left == right then "Unmodified" else if "" == left then "Blank" else "Deleted")
    requires rightClass == (if left == right then "Unmodified" else if "" == right then "Blank" else "Inserted")
    ensures "<tr>\n\t\t\t\t<td class=\"diff" + leftClass + "\">" + left +
            "</td>\n\t\t\t\t<td class=\"diff" + rightClass + "\">" + right +
            "</td>\n\t\t\t</tr>" == RowHtml(left, right)
  {
  }

  // ---------------------------------------------------------------------
  // What the table shows

  /** The texts of the entries d[i..j]. */
  function TextsOf(d: seq<Entry>, i: nat, j: nat): (t: seq<string>)
    requires i <= j <= |d|
    ensures |t| == j - i
    decreases j - i
  {
    if i == j then [] else TextsOf(d, i, j - 1) + [d[j - 1].text]
  }

  /** Read from the front: the text of d[i], then the texts of d[i + 1..j]. */
  lemma {:induction false} TextsOfFront(d: seq<Entry>, i: nat, j: nat)
    requires i < j <= |d|
    ensures TextsOf(d, i, j) == [d[i].text] + TextsOf(d, i + 1, j)
    decreases j - i
  {
    if i + 1 < j {
      TextsOfFront(d, i, j - 1);
      AppendAssoc([d[i].text], TextsOf(d, i + 1, j - 1), [d[j - 1].text]);
    }
  }

  /** The spans of a sequence of texts, one after the other. */
  function SpansOf(texts: seq<string>, separator: string): string
  {
    if |texts| == 0 then "" else Span(texts[0], separator) + SpansOf(texts[1..], separator)
  }

  /** A cell shows the texts of its entries, in order. */
  lemma {:induction false} CellIsSpans(d: seq<Entry>, i: nat, j: nat, separator: string)
    requires i <= j <= |d|
    ensures Cell(d, i, j, separator) == SpansOf(TextsOf(d, i, j), separator)
    decreases j - i
  {
    if i < j {
      var t, rest := TextsOf(d, i, j), TextsOf(d, i + 1, j);
      TextsOfFront(d, i, j);
      assert t[0] == d[i].text && t[1..] == rest;
      assert SpansOf(t, separator) == Span(d[i].text, separator) + SpansOf(rest, separator);
      CellIsSpans(d, i + 1, j, separator);
    } else {
      assert TextsOf(d, i, j) == [];
    }
  }

  lemma {:induction false} SpansAppend(x: seq<string>, y: seq<string>, separator: string)
    ensures SpansOf(x + y, separator) == SpansOf(x, separator) + SpansOf(y, separator)
    decreases |x|
  {
    if |x| > 0 {
      assert (x + y)[1..] == x[1..] + y;
      SpansAppend(x[1..], y, separator);
      AppendAssoc(Span(x[0], separator), SpansOf(x[1..], separator), SpansOf(y, separator));
    } else {
      assert x + y == y;
    }
  }

  /** A sequence of spans is the HTML form of the same texts, all unmodified. */
  lemma {:induction false} SpansAsHtml(texts: seq<string>, separator: string)
    ensures SpansOf(texts, separator) == RenderHtml(Unchanged(texts), separator)
    decreases |texts|
  {
    if |texts| > 0 {
      var u := Unchanged(texts);
      assert u[1..] == Unchanged(texts[1..]);
      SpanIsHtmlLine(texts[0], separator);
      assert HtmlLine(u[0], separator) == Span(texts[0], separator);
      SpansAsHtml(texts[1..], separator);
    }
  }

  lemma SpanIsHtmlLine(text: string, separator: string)
    ensures HtmlLine(Entry(text, Unmodified), separator) == Span(text, separator)
  {
    assert OpenTag(Unmodified) == "<span>";
    assert CloseTag(Unmodified) == "</span>";
  }

  /** Different texts give different cells. */
  lemma SpansInjective(x: seq<string>, y: seq<string>, separator: string)
    requires SpansOf(x, separator) == SpansOf(y, separator)
    ensures x == y
  {
    SpansAsHtml(x, separator);
    SpansAsHtml(y, separator);
    HtmlRoundTrip(Unchanged(x), separator);
    HtmlRoundTrip(Unchanged(y), separator);
    assert Unchanged(x) == Unchanged(y);
    assert forall k :: 0 <= k < |x| ==> x[k] == Unchanged(x)[k].text;
  }

  /** Olds and News of a run of entries that all share one classification. */
  lemma {:induction false} RunOldsNews(d: seq<Entry>, i: nat, j: nat, op: Op)
    requires i <= j <= |d|
    requires forall k :: i <= k < j ==> d[k].op == op
    ensures Olds(d[i..j]) == if op == Inserted then [] else TextsOf(d, i, j)
    ensures News(d[i..j]) == if op == Deleted then [] else TextsOf(d, i, j)
    decreases j - i
  {
    if i < j {
      var x, y := d[i..j], d[i..j - 1];
      RunOldsNews(d, i, j - 1, op);
      SliceLast(d, i, j);
      assert Olds(x) == Olds(y) + (if op == Inserted then [] else [d[j - 1].text]);
      assert News(x) == News(y) + (if op == Deleted then [] else [d[j - 1].text]);
      assert TextsOf(d, i, j) == TextsOf(d, i, j - 1) + [d[j - 1].text];
      AppendEmpty<string>([]);
    } else {
      assert TextsOf(d, i, j) == [];
    }
  }

  /** d[i..j] is d[i..j - 1] followed by d[j - 1]. */
  lemma SliceLast(d: seq<Entry>, i: nat, j: nat)
    requires i < j <= |d|
    ensures d[i..j][..j - 1 - i] == d[i..j - 1] && d[i..j][j - 1 - i] == d[j - 1]
  {
  }

  /** The entries of a row are split between its two cells: Olds on the left, News on the right. */
  lemma RowOldsNews(d: seq<Entry>, i: nat)
    requires i < |d|
    ensures var r := RowAt(d, i);
      Olds(d[i..r.rightTo]) == TextsOf(d, r.leftFrom, r.leftTo) &&
      News(d[i..r.rightTo]) == TextsOf(d, r.rightFrom, r.rightTo)
  {
    var r := RowAt(d, i);
    RunEndCovers(d, i, d[i].op);
    if d[i].op == Deleted {
      RunEndCovers(d, r.leftTo, Inserted);
      DeletedRowOldsNews(d, i, r.leftTo, r.rightTo);
    } else {
      RunOldsNews(d, i, r.rightTo, d[i].op);
      assert d[i].op == Inserted ==> TextsOf(d, i, i) == [];
    }
  }

  /** A row of DELETED entries d[i..j] beside INSERTED entries d[j..k]. */
  lemma DeletedRowOldsNews(d: seq<Entry>, i: nat, j: nat, k: nat)
    requires i <= j <= k <= |d|
    requires forall m :: i <= m < j ==> d[m].op == Deleted
    requires forall m :: j <= m < k ==> d[m].op == Inserted
    ensures Olds(d[i..k]) == TextsOf(d, i, j) && News(d[i..k]) == TextsOf(d, j, k)
  {
    var x, y := d[i..j], d[j..k];
    RunOldsNews(d, i, j, Deleted);
    RunOldsNews(d, j, k, Inserted);
    SliceSplit(d, i, j, k);
    AppendFacts(x, y);
    AppendEmpty(TextsOf(d, i, j));
    AppendEmpty(TextsOf(d, j, k));
  }

  lemma SliceSplit(d: seq<Entry>, i: nat, j: nat, k: nat)
    requires i <= j <= k <= |d|
    ensures d[i..k] == d[i..j] + d[j..k]
  {
  }

  /** The left cells of the rows from entry `i` on, one after the other. */
  function LeftColumn(d: seq<Entry>, separator: string, i: nat): string
    requires i <= |d|
    decreases |d| - i
  {
    if i == |d| then ""
    else var r := RowAt(d, i); Cell(d, r.leftFrom, r.leftTo, separator) + LeftColumn(d, separator, r.rightTo)
  }

  /** The right cells of the rows from entry `i` on, one after the other. */
  function RightColumn(d: seq<Entry>, separator: string, i: nat): string
    requires i <= |d|
    decreases |d| - i
  {
    if i == |d| then ""
    else var r := RowAt(d, i); Cell(d, r.rightFrom, r.rightTo, separator) + RightColumn(d, separator, r.rightTo)
  }

  /** Olds and News of d[i..] split at any later index. */
  lemma SplitOldsNews(d: seq<Entry>, i: nat, n: nat)
    requires i <= n <= |d|
    ensures Olds(d[i..]) == Olds(d[i..n]) + Olds(d[n..])
    ensures News(d[i..]) == News(d[i..n]) + News(d[n..])
  {
    assert d[i..] == d[i..n] + d[n..];
    AppendFacts(d[i..n], d[n..]);
  }

  lemma {:induction false} ColumnsFrom(d: seq<Entry>, separator: string, i: nat)
    requires i <= |d|
    ensures LeftColumn(d, separator, i) == SpansOf(Olds(d[i..]), separator)
    ensures RightColumn(d, separator, i) == SpansOf(News(d[i..]), separator)
    decreases |d| - i
  {
    if i == |d| {
      assert d[i..] == [];
    } else {
      var r := RowAt(d, i);
      var n := r.rightTo;
      ColumnsFrom(d, separator, n);
      SplitOldsNews(d, i, n);
      RowOldsNews(d, i);
      CellIsSpans(d, r.leftFrom, r.leftTo, separator);
      CellIsSpans(d, r.rightFrom, r.rightTo, separator);
      SpansAppend(Olds(d[i..n]), Olds(d[n..]), separator);
      SpansAppend(News(d[i..n]), News(d[n..]), separator);
    }
  }

  /**
   * Read down the table, the left column shows exactly the first sequence
   * (the UNMODIFIED and DELETED entries) and the right column exactly the
   * second (the UNMODIFIED and INSERTED entries), each entry once, in order.
   */
  lemma ColumnsShowBothSequences(d: seq<Entry>, separator: string)
    ensures LeftColumn(d, separator, 0) == SpansOf(Olds(d), separator)
    ensures RightColumn(d, separator, 0) == SpansOf(News(d), separator)
  {
    ColumnsFrom(d, separator, 0);
    assert d[0..] == d;
  }

  /** A cell with at least one entry is not empty. */
  lemma CellNotEmpty(d: seq<Entry>, i: nat, j: nat, separator: string)
    requires i < j <= |d|
    ensures Cell(d, i, j, separator) != ""
  {
    assert |Span(d[i].text, separator)| > 0;
  }

  /** Two cells are the same exactly when they show the same texts. */
  lemma CellsEqual(d: seq<Entry>, i: nat, j: nat, i': nat, j': nat, separator: string)
    requires i <= j <= |d| && i' <= j' <= |d|
    ensures Cell(d, i, j, separator) == Cell(d, i', j', separator) <==> TextsOf(d, i, j) == TextsOf(d, i', j')
  {
    CellIsSpans(d, i, j, separator);
    CellIsSpans(d, i', j', separator);
    if Cell(d, i, j, separator) == Cell(d, i', j', separator) {
      SpansInjective(TextsOf(d, i, j), TextsOf(d, i', j'), separator);
    }
  }

  /**
   * The cell classes of the row at entry `i`: an unmodified run is
   * Unmodified on both sides; an inserted run is Blank beside Inserted; a
   * deleted run is Deleted beside Inserted, or beside Blank when no
   * insertion follows it, unless both cells show the same texts.
   */
  lemma RowClasses(d: seq<Entry>, separator: string, i: nat)
    requires i < |d|
    ensures var r := RowAt(d, i);
      var left, right := Cell(d, r.leftFrom, r.leftTo, separator), Cell(d, r.rightFrom, r.rightTo, separator);
      var same := TextsOf(d, r.leftFrom, r.leftTo) == TextsOf(d, r.rightFrom, r.rightTo);
      (d[i].op == Unmodified ==>
        CellClass(left, right, "Deleted") == "Unmodified" && CellClass(right, left, "Inserted") == "Unmodified") &&
      (d[i].op == Inserted ==>
        CellClass(left, right, "Deleted") == "Blank" && CellClass(right, left, "Inserted") == "Inserted") &&
      (d[i].op == Deleted ==>
        CellClass(left, right, "Deleted") == (if same then "Unmodified" else "Deleted") &&
        CellClass(right, left, "Inserted") ==
          (if same then "Unmodified" else if r.rightFrom == r.rightTo then "Blank" else "Inserted"))
  {
    var r := RowAt(d, i);
    CellsEqual(d, r.leftFrom, r.leftTo, r.rightFrom, r.rightTo, separator);
    if r.leftFrom < r.leftTo {
      CellNotEmpty(d, r.leftFrom, r.leftTo, separator);
    }
    if r.rightFrom < r.rightTo {
      CellNotEmpty(d, r.rightFrom, r.rightTo, separator);
    }
  }
}
