/** The line-oriented conversion engine: classifies each line by its leading
    marker, groups runs of lines into headings, lists and paragraphs, and
    joins the resulting HTML fragments with newlines.

    Each handler is given twice: a specification function (used by the other
    functions and by the lemmas) and, where the original works by looping
    and updating local variables, a method with that loop, proved equal to
    the function. */
module Markdown2Html {
  import opened Text

  datatype Option<T> = None | Some(value: T)

  // ---------------------------------------------------------------------
  // Line classification

  /** A line (already stripped) that opens a heading or a list item. */
  predicate IsMarkdown(line: string) {
    StartsWith(line, "#") || StartsWith(line, "- ") || StartsWith(line, "* ")
  }

  /** The three marker tests, character by character. */
  lemma MarkersByChars(line: string)
    ensures StartsWith(line, "#") <==> |line| > 0 && line[0] == '#'
    ensures StartsWith(line, "- ") <==> |line| > 1 && line[0] == '-' && line[1] == ' '
    ensures StartsWith(line, "* ") <==> |line| > 1 && line[0] == '*' && line[1] == ' '
  {
    if |line| > 0 {
      assert line[..1][0] == line[0];
      if line[0] == '#' {
        assert line[..1] == "#";
      }
    }
    if |line| > 1 {
      assert line[..2][0] == line[0] && line[..2][1] == line[1];
      if line[1] == ' ' && line[0] == '-' {
        assert line[..2] == "- ";
      }
      if line[1] == ' ' && line[0] == '*' {
        assert line[..2] == "* ";
      }
    }
  }

  /** A line is a marker line exactly when it starts with `#`, `- ` or `* `,
      so at most one of the three tests holds. */
  lemma IsMarkdownByChars(line: string)
    ensures IsMarkdown(line)
            <==> (|line| > 0 && (line[0] == '#'
                                 || (|line| > 1 && line[1] == ' ' && (line[0] == '-' || line[0] == '*'))))
    ensures !(StartsWith(line, "#") && StartsWith(line, "- "))
    ensures !(StartsWith(line, "#") && StartsWith(line, "* "))
    ensures !(StartsWith(line, "- ") && StartsWith(line, "* "))
  {
    MarkersByChars(line);
  }

  // ---------------------------------------------------------------------
  // Headings

  /** The number of leading `#` characters: the longest all-`#` prefix. */
  function HeadingLevel(line: string): (level: nat)
    ensures level <= |line|
    ensures forall k :: 0 <= k < level ==> line[k] == '#'
    ensures level < |line| ==> line[level] != '#'
  {
    if |line| > 0 && line[0] == '#' then 1 + HeadingLevel(line[1..]) else 0
  }

  /** The character loop that counts the leading `#` characters. It stands
      beside HeadingLevel, which Heading uses, and is proved equal to it. */
  method GetHeadingLevel(line: string) returns (level: nat)
    ensures level == HeadingLevel(line)
  {
    level := 0;
    for i := 0 to |line|
      invariant level == i
      invariant forall k :: 0 <= k < i ==> line[k] == '#'
    {
      if line[i] == '#' {
        level := level + 1;
      } else {
        break;
      }
    }
    HeadingLevelUnique(line, level);
  }

  /** The three properties of HeadingLevel determine it. */
  lemma HeadingLevelUnique(line: string, n: nat)
    requires n <= |line|
    requires forall k :: 0 <= k < n ==> line[k] == '#'
    requires n < |line| ==> line[n] != '#'
    ensures n == HeadingLevel(line)
  {
  }

  function Hashes(n: nat): (s: string)
    ensures |s| == n && forall k :: 0 <= k < n ==> s[k] == '#'
  {
    seq(n, _ => '#')
  }

  /** `<hL>` + everything after the `L` hashes and one more character + `</hL>`.
      The content is not stripped. */
  function Heading(line: string): string {
    var level := HeadingLevel(line);
    var tag := NatToString(level);
    "<h" + tag + ">" + Drop(line, level + 1) + "</h" + tag + ">"
  }

  /** `L` hashes, one separating character and a text give a level-`L`
      heading of exactly that text, leading and trailing spaces of the text
      included. The separator is dropped whatever it is, so `#Title` gives
      `<h1>itle</h1>`. */
  lemma HeadingOfMarkdown(level: nat, sep: char, text: string)
    requires sep != '#'
    ensures Heading(Hashes(level) + [sep] + text)
            == "<h" + NatToString(level) + ">" + text + "</h" + NatToString(level) + ">"
  {
    var line := Hashes(level) + [sep] + text;
    HeadingLevelUnique(line, level);
    assert Drop(line, level + 1) == text;
  }

  /** A line of hashes only gives an empty heading rather than an error. */
  lemma HeadingOfHashes(n: nat)
    ensures Heading(Hashes(n)) == "<h" + NatToString(n) + "></h" + NatToString(n) + ">"
  {
    HeadingLevelUnique(Hashes(n), n);
    assert Drop(Hashes(n), n + 1) == "";
  }

  // ---------------------------------------------------------------------
  // Lists

  /** A line whose stripped form starts with the list marker `prefix`. */
  predicate IsListLine(line: string, prefix: string) {
    StartsWith(Strip(line), prefix)
  }

  /** The length of the run of list lines at the front of `rest`. */
  function ListRunLength(rest: seq<string>, prefix: string): (n: nat)
    ensures n <= |rest|
  {
    if |rest| > 0 && IsListLine(rest[0], prefix) then 1 + ListRunLength(rest[1..], prefix) else 0
  }

  /** The run is maximal: every counted line matches, and the line after it does not. */
  lemma {:induction false} ListRunLengthSpec(rest: seq<string>, prefix: string)
    ensures forall k :: 0 <= k < ListRunLength(rest, prefix) ==> IsListLine(rest[k], prefix)
    ensures ListRunLength(rest, prefix) < |rest|
            ==> !IsListLine(rest[ListRunLength(rest, prefix)], prefix)
  {
    if |rest| > 0 && IsListLine(rest[0], prefix) {
      var tail := rest[1..];
      ListRunLengthSpec(tail, prefix);
      forall k | 1 <= k < ListRunLength(rest, prefix)
        ensures IsListLine(rest[k], prefix)
      {
        assert rest[k] == tail[k - 1];
      }
      assert ListRunLength(rest, prefix) < |rest|
             ==> rest[ListRunLength(rest, prefix)] == tail[ListRunLength(tail, prefix)];
    }
  }

  /** Maximality determines the run length. */
  lemma ListRunLengthUnique(rest: seq<string>, prefix: string, n: nat)
    requires n <= |rest|
    requires forall k :: 0 <= k < n ==> IsListLine(rest[k], prefix)
    requires n < |rest| ==> !IsListLine(rest[n], prefix)
    ensures n == ListRunLength(rest, prefix)
  {
    ListRunLengthSpec(rest, prefix);
  }

  /** One `<li>` for a stripped list line: the two marker characters dropped,
      the rest kept as it is. */
  function ListItemHtml(line: string): string {
    "<li>" + Drop(line, 2) + "</li>"
  }

  /** A stripped list line loses exactly its two marker characters: the
      item text is not trimmed again, so `-   a` gives `<li>  a</li>`. */
  lemma ListItemOfMarker(marker: string, text: string)
    requires |marker| == 2
    ensures ListItemHtml(marker + text) == "<li>" + text + "</li>"
  {
    assert Drop(marker + text, 2) == text;
  }

  function ItemsHtml(items: seq<string>): seq<string> {
    seq(|items|, k requires 0 <= k < |items| => ListItemHtml(Strip(items[k])))
  }

  /** A list block: `<tag>`, the items, `</tag>`, as separate fragments. */
  function ListHtml(items: seq<string>, listType: string): seq<string> {
    ["<" + listType + ">"] + ItemsHtml(items) + ["</" + listType + ">"]
  }

  /** The list handler starting at `index`: the cursor after the run of list
      lines and the fragments `<tag>`, one `<li>` per consumed line, `</tag>`. */
  function ListBlock(lines: seq<string>, index: nat, prefix: string, listType: string)
    : (r: (nat, seq<string>))
    ensures index <= r.0 && |r.1| == r.0 - index + 2
  {
    var rest := Drop(lines, index);
    var n := ListRunLength(rest, prefix);
    (index + n, ListHtml(rest[..n], listType))
  }

  /** The list handler consumes the maximal run of list lines from `index`
      and brackets exactly one `<li>` per consumed line, in order, between
      `<tag>` and `</tag>`. */
  lemma ListBlockSpec(lines: seq<string>, index: nat, prefix: string, listType: string)
    ensures var (next, html) := ListBlock(lines, index, prefix, listType);
            && (forall k :: index <= k < next ==> k < |lines| && IsListLine(lines[k], prefix))
            && (next < |lines| ==> !IsListLine(lines[next], prefix))
            && html[0] == "<" + listType + ">"
            && html[|html| - 1] == "</" + listType + ">"
            && (forall k :: index <= k < next
                  ==> k < |lines| && html[k - index + 1] == ListItemHtml(Strip(lines[k])))
  {
    var rest := Drop(lines, index);
    ListRunLengthSpec(rest, prefix);
    var (next, html) := ListBlock(lines, index, prefix, listType);
    forall k | index <= k < next
      ensures k < |lines| && IsListLine(lines[k], prefix)
      ensures html[k - index + 1] == ListItemHtml(Strip(lines[k]))
    {
      assert rest[k - index] == lines[k];
    }
    if next < |lines| {
      assert rest[next - index] == lines[next];
    }
  }

  /** The list handler's loop: appends one `<li>` per matching line and stops
      at the first line that does not match. */
  method ListItem(lines: seq<string>, index: nat, prefix: string, listType: string)
    returns (next: nat, html: seq<string>)
    ensures (next, html) == ListBlock(lines, index, prefix, listType)
  {
    html := ["<" + listType + ">"];
    next := index;
    var i := index;
    while i < |lines|
      invariant next == i && index <= i
      invariant i == index || i <= |lines|
      invariant forall k :: index <= k < i ==> IsListLine(lines[k], prefix)
      invariant |html| == i - index + 1 && html[0] == "<" + listType + ">"
      invariant forall k :: index <= k < i ==> html[k - index + 1] == ListItemHtml(Strip(lines[k]))
      decreases |lines| - i
    {
      var line := Strip(lines[i]);
      if StartsWith(line, prefix) {
        html := html + [ListItemHtml(line)];
        next := next + 1;
      } else {
        break;
      }
      i := i + 1;
    }
    html := html + ["</" + listType + ">"];
    ListItemMatches(lines, index, prefix, listType, next, html);
  }

  /** What the loop has built, read against ListBlock. */
  lemma ListItemMatches(lines: seq<string>, index: nat, prefix: string, listType: string,
                        next: nat, html: seq<string>)
    requires index <= next && (next == index || next <= |lines|)
    requires forall k :: index <= k < next ==> IsListLine(lines[k], prefix)
    requires next < |lines| ==> !IsListLine(lines[next], prefix)
    requires |html| == next - index + 2
    requires html[0] == "<" + listType + ">" && html[|html| - 1] == "</" + listType + ">"
    requires forall k :: index <= k < next ==> html[k - index + 1] == ListItemHtml(Strip(lines[k]))
    ensures (next, html) == ListBlock(lines, index, prefix, listType)
  {
    var rest := Drop(lines, index);
    forall k | 0 <= k < next - index
      ensures IsListLine(rest[k], prefix)
    {
      assert rest[k] == lines[index + k];
    }
    if next < |lines| {
      assert rest[next - index] == lines[next];
    }
    ListRunLengthUnique(rest, prefix, next - index);
    var items := ItemsHtml(rest[..next - index]);
    var expected := ["<" + listType + ">"] + items + ["</" + listType + ">"];
    assert ListBlock(lines, index, prefix, listType) == (next, expected);
    forall k | 0 <= k < |html|
      ensures html[k] == expected[k]
    {
      if 0 < k < |html| - 1 {
        var line := index + k - 1;
        assert rest[k - 1] == lines[line];
        assert html[line - index + 1] == ListItemHtml(Strip(lines[line]));
        assert expected[k] == items[k - 1];
      }
    }
    assert html == expected;
  }

  // ---------------------------------------------------------------------
  // Paragraphs

  /** A stripped line that continues a paragraph: not blank and not a marker line. */
  predicate IsParagraphText(text: string) {
    text != "" && !IsMarkdown(text)
  }

  /** The length of the run of paragraph lines at the front of `rest`. */
  function ParagraphRunLength(rest: seq<string>): (n: nat)
    ensures n <= |rest|
  {
    if |rest| > 0 && IsParagraphText(Strip(rest[0])) then 1 + ParagraphRunLength(rest[1..]) else 0
  }

  /** The run is maximal: every counted line is paragraph text, the next is not. */
  lemma {:induction false} ParagraphRunLengthSpec(rest: seq<string>)
    ensures forall k :: 0 <= k < ParagraphRunLength(rest) ==> IsParagraphText(Strip(rest[k]))
    ensures ParagraphRunLength(rest) < |rest|
            ==> !IsParagraphText(Strip(rest[ParagraphRunLength(rest)]))
  {
    if |rest| > 0 && IsParagraphText(Strip(rest[0])) {
      var tail := rest[1..];
      ParagraphRunLengthSpec(tail);
      forall k | 1 <= k < ParagraphRunLength(rest)
        ensures IsParagraphText(Strip(rest[k]))
      {
        assert rest[k] == tail[k - 1];
      }
      assert ParagraphRunLength(rest) < |rest|
             ==> rest[ParagraphRunLength(rest)] == tail[ParagraphRunLength(tail)];
    }
  }

  /** Maximality determines the run length. */
  lemma ParagraphRunLengthUnique(rest: seq<string>, n: nat)
    requires n <= |rest|
    requires forall k :: 0 <= k < n ==> IsParagraphText(Strip(rest[k]))
    requires n < |rest| ==> !IsParagraphText(Strip(rest[n]))
    ensures n == ParagraphRunLength(rest)
  {
    ParagraphRunLengthSpec(rest);
  }

  function StripAll(lines: seq<string>): seq<string> {
    seq(|lines|, k requires 0 <= k < |lines| => Strip(lines[k]))
  }

  const LineBreak: string := "\n<br/>\n"

  /** `<p>`, the texts separated by line breaks, `</p>`, each on its own line. */
  function ParagraphHtml(texts: seq<string>): string {
    "<p>\n" + Join(texts, LineBreak) + "\n</p>"
  }

  /** The paragraph handler starting at `index`: the cursor after it and the
      paragraph, if any. */
  function ParagraphBlock(lines: seq<string>, index: nat): (r: (nat, Option<string>))
    ensures r.1.None? ==> r.0 == index + 1
    ensures r.1.Some? ==> index < r.0 <= |lines|
  {
    var rest := Drop(lines, index);
    var n := ParagraphRunLength(rest);
    if n == 0 then (index + 1, None)
    else (index + n, Some(ParagraphHtml(StripAll(rest[..n]))))
  }

  /** With no paragraph text at `index` the handler skips exactly one line and
      yields nothing; otherwise it consumes the maximal run of paragraph lines
      and yields their stripped forms joined by line breaks inside `<p>`. */
  lemma ParagraphBlockSpec(lines: seq<string>, index: nat)
    ensures var (next, p) := ParagraphBlock(lines, index);
            && (p.None? <==> index >= |lines| || !IsParagraphText(Strip(lines[index])))
            && (p.Some? ==> forall k :: index <= k < next ==> IsParagraphText(Strip(lines[k])))
            && (p.Some? && next < |lines| ==> !IsParagraphText(Strip(lines[next])))
            && (p.Some? ==> p.value == ParagraphHtml(StripAll(lines[index..next])))
  {
    var rest := Drop(lines, index);
    ParagraphRunLengthSpec(rest);
    var (next, p) := ParagraphBlock(lines, index);
    if index < |lines| {
      assert rest[0] == lines[index];
    }
    if p.Some? {
      forall k | index <= k < next
        ensures IsParagraphText(Strip(lines[k]))
      {
        assert rest[k - index] == lines[k];
      }
      if next < |lines| {
        assert rest[next - index] == lines[next];
      }
      assert rest[..next - index] == lines[index..next];
    }
  }

  /** The paragraph handler's loop: collects stripped lines until a blank or
      marker line, then either wraps them or skips one line. */
  method Paragraph(lines: seq<string>, index: nat) returns (next: nat, html: Option<string>)
    ensures (next, html) == ParagraphBlock(lines, index)
  {
    var originalIndex := index;
    var texts: seq<string> := [];
    next := index;
    var i := index;
    while i < |lines|
      invariant next == i && index <= i
      invariant i == index || i <= |lines|
      invariant |texts| == i - index
      invariant forall k :: index <= k < i ==> IsParagraphText(Strip(lines[k]))
      invariant forall k :: index <= k < i ==> texts[k - index] == Strip(lines[k])
      decreases |lines| - i
    {
      var line := Strip(lines[i]);
      if line == "" || IsMarkdown(line) {
        break;
      } else {
        texts := texts + [line];
        next := next + 1;
      }
      i := i + 1;
    }
    var htmlText := ParagraphHtml(texts);
    ParagraphMatches(lines, index, next, texts);
    if next != originalIndex {
      html := Some(htmlText);
    } else {
      next, html := originalIndex + 1, None;
    }
  }

  /** What the loop has collected, read against ParagraphBlock. */
  lemma ParagraphMatches(lines: seq<string>, index: nat, next: nat, texts: seq<string>)
    requires index <= next && (next == index || next <= |lines|)
    requires |texts| == next - index
    requires forall k :: index <= k < next ==> IsParagraphText(Strip(lines[k]))
    requires forall k :: index <= k < next ==> texts[k - index] == Strip(lines[k])
    requires next < |lines| ==> !IsParagraphText(Strip(lines[next]))
    ensures ParagraphBlock(lines, index)
            == if next == index then (index + 1, None) else (next, Some(ParagraphHtml(texts)))
  {
    ParagraphBlockSpec(lines, index);
    if next != index {
      var block := lines[index..next];
      forall k | 0 <= k < |texts|
        ensures texts[k] == StripAll(block)[k]
      {
        assert block[k] == lines[index + k];
      }
      assert texts == StripAll(block);
    }
  }

  // ---------------------------------------------------------------------
  // The cursor-driven conversion loop

  /** One iteration of the conversion loop at cursor `index`: the new cursor
      and the fragments it appends. The heading test comes first; then `- `
      opens a `ul` and `* ` an `ol`; anything else goes to the paragraph
      handler. */
  function Step(lines: seq<string>, index: nat): (r: (nat, seq<string>))
    requires index < |lines|
    ensures index < r.0 <= |lines|
  {
    var line := Strip(lines[index]);
    if StartsWith(line, "#") then
      (index + 1, [Heading(line)])
    else if StartsWith(line, "- ") || StartsWith(line, "* ") then
      var isUl := StartsWith(line, "- ");
      assert Drop(lines, index)[0] == lines[index];
      ListBlock(lines, index, if isUl then "- " else "* ", if isUl then "ul" else "ol")
    else
      var (next, p) := ParagraphBlock(lines, index);
      (next, if p.Some? then [p.value] else [])
  }

  lemma StepOfHeading(lines: seq<string>, index: nat)
    requires index < |lines| && StartsWith(Strip(lines[index]), "#")
    ensures Step(lines, index) == (index + 1, [Heading(Strip(lines[index]))])
  {
  }

  lemma StepOfList(lines: seq<string>, index: nat, prefix: string, listType: string)
    requires index < |lines| && !StartsWith(Strip(lines[index]), "#")
    requires StartsWith(Strip(lines[index]), prefix)
    requires (prefix, listType) == ("- ", "ul")
             || ((prefix, listType) == ("* ", "ol") && !StartsWith(Strip(lines[index]), "- "))
    ensures Step(lines, index) == ListBlock(lines, index, prefix, listType)
  {
  }

  lemma StepOfParagraph(lines: seq<string>, index: nat)
    requires index < |lines| && !IsMarkdown(Strip(lines[index]))
    ensures var (next, p) := ParagraphBlock(lines, index);
            Step(lines, index) == (next, if p.Some? then [p.value] else [])
  {
  }

  /** The fragments the loop collects from cursor `index` to the end. */
  function Fragments(lines: seq<string>, index: nat): seq<string>
    requires index <= |lines|
    decreases |lines| - index
  {
    if index == |lines| then []
    else
      var (next, fragments) := Step(lines, index);
      fragments + Fragments(lines, next)
  }

  /** Unfolding `Fragments` once: what the step at `index` appends, then the
      fragments from where it leaves the cursor. */
  lemma FragmentsStep(lines: seq<string>, index: nat, next: nat, added: seq<string>)
    requires index < |lines| && Step(lines, index) == (next, added)
    ensures next <= |lines| && Fragments(lines, index) == added + Fragments(lines, next)
  {
  }

  /** The converted document: all fragments joined by newlines. */
  function Converted(lines: seq<string>): string {
    Join(Fragments(lines, 0), "\n")
  }

  /** The conversion loop: the cursor only advances, each handler reports
      where the next block starts, and the fragments are joined at the end. */
  method Convert(lines: seq<string>) returns (out: string)
    ensures out == Converted(lines)
    ensures lines == [] ==> out == ""
  {
    var html: seq<string> := [];
    var index: nat := 0;
    while index < |lines|
      invariant index <= |lines|
      invariant html + Fragments(lines, index) == Fragments(lines, 0)
      decreases |lines| - index
    {
      var line := Strip(lines[index]);
      ghost var start, done := index, html;

      if StartsWith(line, "#") {
        StepOfHeading(lines, index);
        html := html + [Heading(line)];
        index := index + 1;
        Advance(lines, start, done, [Heading(line)], index);
        continue;
      }

      var isUlItem := StartsWith(line, "- ");
      var isOlItem := StartsWith(line, "* ");

      if isUlItem || isOlItem {
        var htmlList;
        StepOfList(lines, index, if isUlItem then "- " else "* ", if isUlItem then "ul" else "ol");
        index, htmlList := ListItem(lines, index, if isUlItem then "- " else "* ",
                                    if isUlItem then "ul" else "ol");
        html := html + htmlList;
        Advance(lines, start, done, htmlList, index);
        continue;
      }

      var htmlParagraph;
      StepOfParagraph(lines, index);
      index, htmlParagraph := Paragraph(lines, index);
      if htmlParagraph.Some? {
        html := html + [htmlParagraph.value];
        Advance(lines, start, done, [htmlParagraph.value], index);
      } else {
        Advance(lines, start, done, [], index);
        AppendEmpty(done);
      }
    }
    assert Fragments(lines, index) == [];
    AppendEmpty(html);
    out := Join(html, "\n");
  }

  /** One iteration of the loop keeps "collected so far + still to come"
      equal to the whole fragment sequence. */
  lemma Advance(lines: seq<string>, index: nat, done: seq<string>, added: seq<string>, next: nat)
    requires index < |lines| && Step(lines, index) == (next, added)
    requires done + Fragments(lines, index) == Fragments(lines, 0)
    ensures (done + added) + Fragments(lines, next) == Fragments(lines, 0)
  {
    FragmentsStep(lines, index, next, added);
  }

  // ---------------------------------------------------------------------
  // Properties of the conversion

  /** A stripped line starting with `#` always gives one heading fragment,
      whatever follows the hashes. */
  lemma HeadingLineGivesHeading(lines: seq<string>, index: nat)
    requires index < |lines| && StartsWith(Strip(lines[index]), "#")
    ensures Fragments(lines, index) == [Heading(Strip(lines[index]))] + Fragments(lines, index + 1)
  {
    StepOfHeading(lines, index);
    FragmentsStep(lines, index, index + 1, [Heading(Strip(lines[index]))]);
  }

  /** A blank line yields no fragment: the loop just moves past it. */
  lemma BlankLineSkipped(lines: seq<string>, index: nat)
    requires index < |lines| && Strip(lines[index]) == ""
    ensures Fragments(lines, index) == Fragments(lines, index + 1)
  {
    assert ParagraphBlock(lines, index) == (index + 1, None) by {
      assert Drop(lines, index)[0] == lines[index];
    }
    StepOfParagraph(lines, index);
    FragmentsStep(lines, index, index + 1, []);
  }

  /** When the paragraph handler is reached (no marker on the line), it
      yields nothing exactly for a blank line. */
  lemma ParagraphNoneOnlyWhenBlank(lines: seq<string>, index: nat)
    requires index < |lines| && !IsMarkdown(Strip(lines[index]))
    ensures ParagraphBlock(lines, index).1.None? <==> Strip(lines[index]) == ""
  {
    ParagraphBlockSpec(lines, index);
  }

  /** Every fragment is a non-empty piece of markup starting with `<`. */
  lemma {:induction false} FragmentsAreMarkup(lines: seq<string>, index: nat)
    requires index <= |lines|
    ensures forall f :: f in Fragments(lines, index) ==> |f| > 0 && f[0] == '<'
    decreases |lines| - index
  {
    if index < |lines| {
      var (next, fragments) := Step(lines, index);
      FragmentsAreMarkup(lines, next);
      StepIsMarkup(lines, index);
      FragmentsStep(lines, index, next, fragments);
    }
  }

  lemma StepIsMarkup(lines: seq<string>, index: nat)
    requires index < |lines|
    ensures forall f :: f in Step(lines, index).1 ==> |f| > 0 && f[0] == '<'
  {
    var line := Strip(lines[index]);
    if StartsWith(line, "#") {
      StepOfHeading(lines, index);
    } else if StartsWith(line, "- ") || StartsWith(line, "* ") {
      var isUl := StartsWith(line, "- ");
      var prefix, listType := if isUl then "- " else "* ", if isUl then "ul" else "ol";
      StepOfList(lines, index, prefix, listType);
      var rest := Drop(lines, index);
      ListHtmlIsMarkup(rest[..ListRunLength(rest, prefix)], listType);
    } else {
      IsMarkdownByChars(line);
      StepOfParagraph(lines, index);
    }
  }

  lemma ListHtmlIsMarkup(items: seq<string>, listType: string)
    ensures forall f :: f in ListHtml(items, listType) ==> |f| > 0 && f[0] == '<'
  {
    var html := ListHtml(items, listType);
    forall j | 0 <= j < |html|
      ensures |html[j]| > 0 && html[j][0] == '<'
    {
      if 0 < j < |html| - 1 {
        assert html[j] == ListItemHtml(Strip(items[j - 1]));
      }
    }
  }

  /** A run of `n` list lines of one marker from `start`, then the end of
      input or a line without that marker: one list block, then whatever
      comes next. */
  lemma ListRunThenRest(lines: seq<string>, start: nat, n: nat, marker: string, listType: string)
    requires (marker, listType) == ("- ", "ul") || (marker, listType) == ("* ", "ol")
    requires 0 < n && start + n <= |lines|
    requires forall k :: start <= k < start + n ==> IsListLine(lines[k], marker)
    requires start + n < |lines| ==> !IsListLine(lines[start + n], marker)
    ensures Fragments(lines, start) == ListHtml(lines[start..start + n], listType)
                                       + Fragments(lines, start + n)
  {
    IsMarkdownByChars(Strip(lines[start]));
    var rest := Drop(lines, start);
    forall k | 0 <= k < n
      ensures IsListLine(rest[k], marker)
    {
      assert rest[k] == lines[start + k];
    }
    if start + n < |lines| {
      assert rest[n] == lines[start + n];
    }
    ListRunLengthUnique(rest, marker, n);
    assert rest[..n] == lines[start..start + n];
    StepOfList(lines, start, marker, listType);
    FragmentsStep(lines, start, start + n, ListHtml(lines[start..start + n], listType));
  }

  /** List lines of one marker from `start` to the end: a single list block. */
  lemma ListRunToEnd(lines: seq<string>, start: nat, marker: string, listType: string)
    requires (marker, listType) == ("- ", "ul") || (marker, listType) == ("* ", "ol")
    requires start < |lines|
    requires forall k :: start <= k < |lines| ==> IsListLine(lines[k], marker)
    ensures Fragments(lines, start) == ListHtml(lines[start..], listType)
  {
    var n := |lines| - start;
    var run := lines[start..start + n];
    assert Fragments(lines, start) == ListHtml(run, listType) + Fragments(lines, start + n) by {
      ListRunThenRest(lines, start, n, marker, listType);
    }
    assert Fragments(lines, start + n) == [];
    assert run == lines[start..];
    AppendEmpty(ListHtml(run, listType));
  }

  /** A run of `n` paragraph lines from `start`, then the end of input or
      a line that is blank or carries a marker: one paragraph, then
      whatever comes next. */
  lemma ParagraphRunThenRest(lines: seq<string>, start: nat, n: nat)
    requires 0 < n && start + n <= |lines|
    requires forall k :: start <= k < start + n ==> IsParagraphText(Strip(lines[k]))
    requires start + n < |lines| ==> !IsParagraphText(Strip(lines[start + n]))
    ensures Fragments(lines, start) == [ParagraphHtml(StripAll(lines[start..start + n]))]
                                       + Fragments(lines, start + n)
  {
    var html := ParagraphHtml(StripAll(lines[start..start + n]));
    assert ParagraphBlock(lines, start) == (start + n, Some(html)) by {
      var rest := Drop(lines, start);
      forall k | 0 <= k < n
        ensures IsParagraphText(Strip(rest[k]))
      {
        assert rest[k] == lines[start + k];
      }
      if start + n < |lines| {
        assert rest[n] == lines[start + n];
      }
      ParagraphRunLengthUnique(rest, n);
      assert rest[..n] == lines[start..start + n];
    }
    assert !IsMarkdown(Strip(lines[start]));
    StepOfParagraph(lines, start);
    FragmentsStep(lines, start, start + n, [html]);
  }

  /** A `- ` run followed by a `* ` run gives two separate blocks, `<ul>`
      then `<ol>`: adjacent lists of different markers are never merged. */
  lemma AdjacentListsSeparate(a: seq<string>, b: seq<string>)
    requires |a| > 0 && |b| > 0
    requires forall k :: 0 <= k < |a| ==> IsListLine(a[k], "- ")
    requires forall k :: 0 <= k < |b| ==> IsListLine(b[k], "* ")
    ensures Fragments(a + b, 0) == ListHtml(a, "ul") + ListHtml(b, "ol")
  {
    var lines := a + b;
    forall k | 0 <= k < |a|
      ensures IsListLine(lines[k], "- ")
    {
      assert lines[k] == a[k];
    }
    forall k | |a| <= k < |lines|
      ensures IsListLine(lines[k], "* ")
    {
      assert lines[k] == b[k - |a|];
    }
    IsMarkdownByChars(Strip(lines[|a|]));
    ListRunThenRest(lines, 0, |a|, "- ", "ul");
    ListRunToEnd(lines, |a|, "* ", "ol");
    assert lines[0..|a|] == a && lines[|a|..] == b;
  }

  /** A document made only of list lines of one marker becomes one list
      block: `<tag>`, one `<li>` per line, `</tag>`, each on its own line. */
  lemma ListDocument(lines: seq<string>, marker: string, listType: string)
    requires (marker, listType) == ("- ", "ul") || (marker, listType) == ("* ", "ol")
    requires |lines| > 0
    requires forall k :: 0 <= k < |lines| ==> IsListLine(lines[k], marker)
    ensures Converted(lines)
            == ("<" + listType + ">") + "\n" + Join(ItemsHtml(lines), "\n") + "\n" + ("</" + listType + ">")
  {
    assert Fragments(lines, 0) == ListHtml(lines, listType) by {
      ListRunToEnd(lines, 0, marker, listType);
      assert lines[0..] == lines;
    }
    JoinBracketed("<" + listType + ">", ItemsHtml(lines), "</" + listType + ">", "\n");
  }

  /** A document made only of paragraph lines becomes one paragraph. */
  lemma ParagraphDocument(lines: seq<string>)
    requires |lines| > 0
    requires forall k :: 0 <= k < |lines| ==> IsParagraphText(Strip(lines[k]))
    ensures Converted(lines) == ParagraphHtml(StripAll(lines))
  {
    ParagraphRunThenRest(lines, 0, |lines|);
    assert lines[0..|lines|] == lines;
    assert Fragments(lines, |lines|) == [];
  }
}
