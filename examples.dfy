/** Example documents and what the conversion model gives for them: a
    heading, a bare run of hashes, a two-item list, a two-line paragraph
    and a mixed document, each stated for every text of that shape. */
module Markdown2HtmlExamples {
  import opened Text
  import opened Markdown2Html

  /** Zero lines give the empty string. */
  lemma EmptyDocument()
    ensures Converted([]) == ""
  {
  }

  /** Text that `strip` leaves alone. */
  predicate Trimmed(s: string) {
    s != [] && !IsSpace(s[0]) && !IsSpace(s[|s| - 1])
  }

  /** A one-line document whose line is a heading line. */
  lemma OneHeadingDocument(line: string)
    requires StartsWith(Strip(line), "#")
    ensures Converted([line]) == Heading(Strip(line))
  {
    HeadingLineGivesHeading([line], 0);
    assert Fragments([line], 1) == [];
  }

  /** `## Title` becomes `<h2>Title</h2>`. Only the one separating
      character after the hashes is dropped, so a text that itself starts
      with a space keeps it (`#  x` gives `<h1> x</h1>`). */
  lemma HeadingDocument(level: nat, text: string)
    requires level >= 1 && text != [] && !IsSpace(text[|text| - 1])
    ensures var tag := NatToString(level);
            Converted([Hashes(level) + " " + text]) == "<h" + tag + ">" + text + "</h" + tag + ">"
  {
    var line := Hashes(level) + " " + text;
    assert line[0] == '#' && line[|line| - 1] == text[|text| - 1];
    StripUnchanged(line);
    assert line[..1] == "#";
    OneHeadingDocument(line);
    HeadingOfMarkdown(level, ' ', text);
  }

  /** A bare `###` is an empty `<h3></h3>`, not an error. */
  lemma HashesOnlyDocument(level: nat)
    requires level >= 1
    ensures var tag := NatToString(level);
            Converted([Hashes(level)]) == "<h" + tag + "></h" + tag + ">"
  {
    var line := Hashes(level);
    assert line[0] == '#' && line[|line| - 1] == '#';
    StripUnchanged(line);
    assert line[..1] == "#";
    OneHeadingDocument(line);
    HeadingOfHashes(level);
  }

  /** The `<li>` of a list line `marker + text` whose text has no whitespace at its ends. */
  lemma ItemOf(marker: string, text: string)
    requires marker == "- " || marker == "* "
    requires Trimmed(text)
    ensures ItemsHtml([marker + text]) == ["<li>" + text + "</li>"]
    ensures IsListLine(marker + text, marker)
  {
    var line := marker + text;
    assert line[0] == marker[0] && line[|line| - 1] == text[|text| - 1];
    StripUnchanged(line);
    ListItemOfMarker(marker, text);
    assert line[..2] == marker;
  }

  /** `- a`, `- b` becomes `<ul>`, `<li>a</li>`, `<li>b</li>`, `</ul>`
      on four lines; with `* ` the tag is `ol`. */
  lemma TwoItemList(marker: string, listType: string, a: string, b: string)
    requires (marker, listType) == ("- ", "ul") || (marker, listType) == ("* ", "ol")
    requires Trimmed(a) && Trimmed(b)
    ensures Converted([marker + a, marker + b])
            == ("<" + listType + ">") + "\n" + (("<li>" + a + "</li>") + "\n" + ("<li>" + b + "</li>"))
               + "\n" + ("</" + listType + ">")
  {
    var lines := [marker + a, marker + b];
    ItemOf(marker, a);
    ItemOf(marker, b);
    var items := ["<li>" + a + "</li>", "<li>" + b + "</li>"];
    assert ItemsHtml(lines) == items by {
      assert ItemsHtml(lines)[0] == ItemsHtml([marker + a])[0];
      assert ItemsHtml(lines)[1] == ItemsHtml([marker + b])[0];
    }
    ListDocument(lines, marker, listType);
    assert Join(items, "\n") == items[0] + "\n" + items[1] by {
      assert items[1..] == [items[1]];
    }
  }

  /** Two consecutive text lines become one paragraph with a line break:
      `Hello`, `World` gives `<p>`, `Hello`, `<br/>`, `World`, `</p>`. */
  lemma TwoLineParagraph(a: string, b: string)
    requires Trimmed(a) && Trimmed(b) && !IsMarkdown(a) && !IsMarkdown(b)
    ensures Converted([a, b]) == "<p>\n" + (a + LineBreak + b) + "\n</p>"
  {
    var lines := [a, b];
    StripUnchanged(a);
    StripUnchanged(b);
    ParagraphDocument(lines);
    assert StripAll(lines) == [a, b];
    assert Join([a, b], LineBreak) == a + LineBreak + b by {
      assert [a, b][1..] == [b];
    }
  }

  /** A heading, a blank line, a paragraph line and a list: three blocks in
      order, and the blank line contributes nothing. */
  lemma MixedDocument(lines: seq<string>)
    requires |lines| > 3
    requires StartsWith(Strip(lines[0]), "#")
    requires AllSpace(lines[1])
    requires IsParagraphText(Strip(lines[2]))
    requires forall k :: 3 <= k < |lines| ==> IsListLine(lines[k], "- ")
    ensures Fragments(lines, 0)
            == [Heading(Strip(lines[0])), ParagraphHtml([Strip(lines[2])])] + ListHtml(lines[3..], "ul")
  {
    MixedHead(lines);
    MixedParagraph(lines);
    MixedList(lines);
    PrependTwo(Heading(Strip(lines[0])), ParagraphHtml([Strip(lines[2])]), ListHtml(lines[3..], "ul"));
  }

  lemma MixedHead(lines: seq<string>)
    requires |lines| > 3 && StartsWith(Strip(lines[0]), "#") && AllSpace(lines[1])
    ensures Fragments(lines, 0) == [Heading(Strip(lines[0]))] + Fragments(lines, 2)
  {
    HeadingLineGivesHeading(lines, 0);
    assert Strip(lines[1]) == [] by {
      StripPadded(lines[1], [], []);
      assert lines[1] + [] + [] == lines[1];
    }
    BlankLineSkipped(lines, 1);
  }

  lemma MixedParagraph(lines: seq<string>)
    requires |lines| > 3 && IsParagraphText(Strip(lines[2])) && IsListLine(lines[3], "- ")
    ensures Fragments(lines, 2) == [ParagraphHtml([Strip(lines[2])])] + Fragments(lines, 3)
  {
    IsMarkdownByChars(Strip(lines[3]));
    ParagraphRunThenRest(lines, 2, 1);
    assert StripAll(lines[2..3]) == [Strip(lines[2])];
  }

  lemma MixedList(lines: seq<string>)
    requires |lines| > 3 && forall k :: 3 <= k < |lines| ==> IsListLine(lines[k], "- ")
    ensures Fragments(lines, 3) == ListHtml(lines[3..], "ul")
  {
    ListRunToEnd(lines, 3, "- ", "ul");
  }
}
