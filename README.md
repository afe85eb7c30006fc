# markdown2html conversion engine in Dafny

This project models the conversion engine of `markdown2html.py`: the
functions `is_markdown`, `get_heading_level`, `heading`, `list_item`,
`paragraph` and `convert`. The engine takes the lines of a Markdown
document that are already in memory. It classifies each stripped line by
its leading marker (`#`, `- ` or `* `). A cursor-driven loop then groups
lines into headings, `<ul>`/`<ol>` lists and `<p>` paragraphs, and the HTML
fragments are joined with newlines.

Files:

- `text.dfy` (module `Text`) — the Python string built-ins the engine uses:
  - `str.strip()`, with Python's full `str.isspace()` set;
  - `str.startswith`;
  - the open-ended slice `s[n:]`;
  - `sep.join`;
  - `str(n)` for a non-negative integer.
- `markdown2html.dfy` (module `Markdown2Html`) — the engine.
  - Each handler is a specification function over the remaining lines.
  - Each handler whose source loops (`get_heading_level`, `list_item`,
    `paragraph`, `convert`) is also a `method` containing that loop. The
    method's postcondition says it returns exactly what the function
    returns.
  - The properties of the functions are proved as lemmas.
- `examples.dfy` (module `Markdown2HtmlExamples`) — example documents and
  what the conversion model gives for them, each stated for every text of
  that shape.

## Model

| member | source | states |
|---|---|---|
| Text.Strip | markdown2html.py:88 | `s.strip()`: removes Python `str.isspace()` characters one at a time, front first. It is characterised completely by StripEnds, StripSlice and StripPadded. The same call is made at lines 111 and 144. |
| Text.IsSpace | markdown2html.py:88 | Python's `str.isspace()` for one character: the 29 code points `strip` removes. StripEnds and StripPadded state `strip` in its terms. |
| Text.StripEnds | markdown2html.py:88 | The result of `strip` is empty or neither starts nor ends with whitespace. |
| Text.StripSlice | markdown2html.py:88 | The result of `strip` is a contiguous slice of the input, and everything cut before and after it is whitespace. |
| Text.StripPadded | markdown2html.py:144 | `strip` of whitespace + `s` + whitespace is exactly `s`, when `s` has no whitespace at its ends. |
| Text.StripIdempotent | markdown2html.py:111 | A stated fact about `strip`, not relied on elsewhere in the model: stripping a stripped line changes nothing. |
| Text.StripUnchanged | markdown2html.py:144 | A string with no whitespace at either end is its own strip. |
| Text.StartsWith | markdown2html.py:90 | `s.startswith(prefix)`: the prefix fits in `s` and `s` begins with it. Also used at lines 51-53, 146 and 152-153. |
| Text.Drop | markdown2html.py:76 | The slice `s[n:]`: its length is the remainder, or 0 once `n` passes the end, and element `k` is `s[n + k]`. It is never an error. |
| Text.Join | markdown2html.py:169 | `sep.join(parts)`: empty for no parts, the one part alone, otherwise the parts with `sep` between each adjacent pair. JoinConcat and JoinBracketed state its structure. The same call is made at line 121. |
| Text.JoinConcat | markdown2html.py:169 | Joining `a + b` puts exactly one separator between the join of `a` and the join of `b`. |
| Text.JoinBracketed | markdown2html.py:169 | Joining a bracketed list gives the opening part, the joined middle and the closing part, separated by the separator. |
| Text.JoinLength | markdown2html.py:121 | A stated fact about `sep.join`, not relied on elsewhere in the model: the length of a join is the total length of the parts plus one separator per adjacent pair. |
| Text.NatToString | markdown2html.py:78 | `str(n)` is a non-empty string of decimal digits with no leading zero. |
| Text.NatToStringRoundTrip | markdown2html.py:78 | Reading `str(n)` back as a decimal gives `n`, so distinct levels give distinct heading tags. |
| Markdown2Html.IsMarkdown | markdown2html.py:47-54 | `is_markdown`: the line starts with `#`, `- ` or `* `. IsMarkdownByChars characterises it. |
| Markdown2Html.MarkersByChars | markdown2html.py:51-53 | Each of the three `startswith` tests is equivalent to a test on the first one or two characters. |
| Markdown2Html.IsMarkdownByChars | markdown2html.py:47-54 | `is_markdown` holds exactly when the line starts with `#`, or with `-` or `*` followed by a space. At most one of the three markers matches. |
| Markdown2Html.HeadingLevel | markdown2html.py:57-67 | The level `L` is at most the line length, `line[..L]` is all `#`, and `line[L]` is not `#` when `L` is inside the line. |
| Markdown2Html.HeadingLevelUnique | markdown2html.py:57-67 | These three properties determine the level uniquely. |
| Markdown2Html.GetHeadingLevel | markdown2html.py:57-67 | The character loop with its early `break` returns exactly the level. |
| Markdown2Html.Heading | markdown2html.py:70-78 | `heading`: `<hL>` + the slice after the `L` hashes and one more character + `</hL>`, where `L` is HeadingLevel. HeadingOfMarkdown and HeadingOfHashes give its result for every line shape. |
| Markdown2Html.HeadingOfMarkdown | markdown2html.py:70-78 | `L` hashes, one separator character other than `#`, and a text give `<hL>` + the text, untrimmed, + `</hL>`. The separator is dropped whatever it is. |
| Markdown2Html.HeadingOfHashes | markdown2html.py:73-78 | A line of `n` hashes only gives the empty heading `<hn></hn>`, not an error. |
| Markdown2Html.IsListLine | markdown2html.py:88-90 | The loop test of `list_item`: the stripped line starts with the prefix. ListRunLengthSpec and ListBlockSpec state the run in its terms. |
| Markdown2Html.ListRunLength | markdown2html.py:87-96 | The number of lines the `for ... break` loop of `list_item` consumes, never more than the lines that remain. ListRunLengthSpec and ListRunLengthUnique characterise it. |
| Markdown2Html.ListRunLengthSpec | markdown2html.py:87-96 | The counted run is maximal: every counted line's strip starts with the marker, and the next line's does not. |
| Markdown2Html.ListRunLengthUnique | markdown2html.py:87-96 | The maximal run length is unique. |
| Markdown2Html.ListItemOfMarker | markdown2html.py:91-93 | A list item drops exactly the two marker characters; the rest is not trimmed again. |
| Markdown2Html.ListItemHtml | markdown2html.py:91-93 | One `<li>` for a stripped list line: `<li>` + the line with its first two characters dropped + `</li>`. ListItemOfMarker gives its result for every marker and text. |
| Markdown2Html.ItemsHtml | markdown2html.py:87-94 | The `<li>` items the loop of `list_item` appends, one per line in order, each of the stripped line. ListBlockSpec states them. |
| Markdown2Html.ListHtml | markdown2html.py:85-97 | A list block: `<tag>`, the items, `</tag>` as separate fragments. ListBlockSpec and ListHtmlIsMarkup state it. |
| Markdown2Html.ListBlock | markdown2html.py:81-98 | The list handler never moves the cursor back, and produces (consumed lines + 2) fragments. |
| Markdown2Html.ListBlockSpec | markdown2html.py:85-97 | The result is `<tag>`, then one `<li>` + the stripped line without its marker + `</li>` per consumed line in order, then `</tag>`. Every consumed line matches the marker and the first unconsumed line does not. |
| Markdown2Html.ListItem | markdown2html.py:81-98 | The loop over `range(index, len(lines))` with its `break` returns exactly ListBlock's cursor and fragments. |
| Markdown2Html.ListItemMatches | markdown2html.py:87-98 | The loop's final state (a maximal run of matching lines, and the items appended in order) is ListBlock's result. |
| Markdown2Html.IsParagraphText | markdown2html.py:113 | The negation of the break test of `paragraph`: the stripped line is neither blank nor a marker line. ParagraphRunLengthSpec and ParagraphBlockSpec state the run in its terms. |
| Markdown2Html.ParagraphRunLength | markdown2html.py:110-118 | The number of lines the `for ... break` loop of `paragraph` consumes, never more than the lines that remain. ParagraphRunLengthSpec and ParagraphRunLengthUnique characterise it. |
| Markdown2Html.ParagraphRunLengthSpec | markdown2html.py:110-118 | The counted run is maximal: every counted stripped line is non-blank and not a marker line, and the next one is blank or a marker line. |
| Markdown2Html.ParagraphRunLengthUnique | markdown2html.py:110-118 | The maximal paragraph run length is unique. |
| Markdown2Html.StripAll | markdown2html.py:111-117 | The stripped lines the loop of `paragraph` collects, in order. ParagraphBlockSpec and ParagraphMatches state them. |
| Markdown2Html.ParagraphHtml | markdown2html.py:121-122 | `<p>\n` + the texts joined by `\n<br/>\n` + `\n</p>`. ParagraphBlockSpec states the paragraph text in its terms. |
| Markdown2Html.ParagraphBlock | markdown2html.py:124-131 | With no paragraph, the cursor moves exactly one line. With a paragraph, it moves forward and stays within the input. |
| Markdown2Html.ParagraphBlockSpec | markdown2html.py:101-131 | There is no paragraph exactly when the cursor is past the end or the stripped line is blank or a marker line. Otherwise the paragraph consumes the maximal run, and its text is `<p>\n` + the stripped lines joined by `\n<br/>\n` + `\n</p>`. |
| Markdown2Html.Paragraph | markdown2html.py:101-131 | The loop that collects stripped lines, then either wraps them or falls back to `(original_index + 1, None)`, returns exactly ParagraphBlock's result. |
| Markdown2Html.ParagraphMatches | markdown2html.py:110-131 | The loop's final state (a maximal run, and the collected stripped lines) is ParagraphBlock's result. |
| Markdown2Html.Step | markdown2html.py:143-167 | Every loop iteration strictly advances the cursor and never passes the end of the input. |
| Markdown2Html.StepOfHeading | markdown2html.py:146-150 | Proof helper that unfolds the heading case of Step: a stripped line starting with `#` yields one heading fragment and advances the cursor by 1. |
| Markdown2Html.StepOfList | markdown2html.py:152-163 | Proof helper that unfolds the list case of Step: a `- ` line is handed to the list handler with `ul`. A `* ` line that is not also a `- ` line is handed to it with `* ` and `ol`. |
| Markdown2Html.StepOfParagraph | markdown2html.py:165-167 | Proof helper that unfolds the paragraph case of Step: a line with no marker goes to the paragraph handler, and the iteration appends its text only when there is one. |
| Markdown2Html.Fragments | markdown2html.py:143-167 | The fragments the `while` loop of `convert` collects from a cursor to the end: each iteration's Step output in order. FragmentsAreMarkup, ListRunThenRest, ParagraphRunThenRest, HeadingLineGivesHeading and BlankLineSkipped characterise it block by block. |
| Markdown2Html.FragmentsStep | markdown2html.py:143-167 | Proof helper that unfolds Fragments by one iteration: the fragments from a cursor are what this iteration appends, followed by the fragments from the cursor it leaves. |
| Markdown2Html.Converted | markdown2html.py:134-169 | `convert`: all fragments from cursor 0 joined by `\n`. ListDocument, ParagraphDocument and the example lemmas give its result for whole documents. |
| Markdown2Html.Convert | markdown2html.py:134-169 | The while loop returns the fragments joined by `\n`, and an empty input gives `""`. |
| Markdown2Html.Advance | markdown2html.py:143-167 | Proof helper for Convert's loop invariant: each iteration keeps (collected so far + still to come) equal to the whole fragment sequence. |
| Markdown2Html.HeadingLineGivesHeading | markdown2html.py:146-150 | A heading line always gives a heading fragment, because the heading test comes before the list tests. |
| Markdown2Html.BlankLineSkipped | markdown2html.py:165-167 | A blank line contributes no fragment; the loop just moves past it. |
| Markdown2Html.ParagraphNoneOnlyWhenBlank | markdown2html.py:113-131 | When the paragraph handler is reached, it gives no paragraph exactly when the line is blank. |
| Markdown2Html.FragmentsAreMarkup | markdown2html.py:143-169 | Every collected fragment is non-empty and starts with `<`. |
| Markdown2Html.StepIsMarkup | markdown2html.py:146-167 | Every fragment a single iteration appends is non-empty and starts with `<`. |
| Markdown2Html.ListHtmlIsMarkup | markdown2html.py:85-97 | Every fragment of a list block is non-empty and starts with `<`. |
| Markdown2Html.ListRunThenRest | markdown2html.py:152-163 | A maximal run of lines with one marker becomes a single list block, and conversion continues after it. |
| Markdown2Html.ListRunToEnd | markdown2html.py:152-169 | List lines of one marker up to the end of input give a single list block. |
| Markdown2Html.ParagraphRunThenRest | markdown2html.py:165-167 | A maximal run of paragraph lines becomes a single paragraph, and conversion continues after it. |
| Markdown2Html.AdjacentListsSeparate | markdown2html.py:152-163 | A `- ` run followed by a `* ` run gives a `<ul>` block then an `<ol>` block, never merged. |
| Markdown2Html.ListDocument | markdown2html.py:134-169 | A document of list lines with one marker converts to `<tag>`, one `<li>` per line, `</tag>`, separated by newlines. |
| Markdown2Html.ParagraphDocument | markdown2html.py:134-169 | A document of paragraph lines converts to a single paragraph. |
| Markdown2HtmlExamples.EmptyDocument | markdown2html.py:134-169 | No lines give the empty string. |
| Markdown2HtmlExamples.OneHeadingDocument | markdown2html.py:143-150 | A one-line heading document converts to that heading alone. |
| Markdown2HtmlExamples.HeadingDocument | markdown2html.py:70-78 | `## Title` gives `<h2>Title</h2>`; an extra space after the separator survives. |
| Markdown2HtmlExamples.HashesOnlyDocument | markdown2html.py:70-78 | A line of bare hashes gives an empty heading. |
| Markdown2HtmlExamples.ItemOf | markdown2html.py:88-93 | A marker followed by untrimmable text is a list line, and gives `<li>` + that text + `</li>`. |
| Markdown2HtmlExamples.TwoItemList | markdown2html.py:81-98 | `- a`, `- b` gives `<ul>\n<li>a</li>\n<li>b</li>\n</ul>`; with `* ` the tag is `ol`. |
| Markdown2HtmlExamples.TwoLineParagraph | markdown2html.py:101-131 | Two text lines give `<p>\n` + first + `\n<br/>\n` + second + `\n</p>`. |
| Markdown2HtmlExamples.MixedDocument | markdown2html.py:134-169 | A heading line, a blank line, a text line and a `- ` list give exactly three blocks in order: heading, paragraph, list. |
| Markdown2HtmlExamples.MixedHead | markdown2html.py:143-150 | The heading line gives its heading, and the blank line after it gives nothing. |
| Markdown2HtmlExamples.MixedParagraph | markdown2html.py:165-167 | A single text line followed by a list line is a one-line paragraph. |
| Markdown2HtmlExamples.MixedList | markdown2html.py:152-163 | List lines up to the end give one `<ul>` block. |

## Left out

- `open_file`, `save_file`, `markdown2html` and `main` (lines 26-44 and 172-200): reading and writing files, command-line arguments, exit codes and `stderr`. These are I/O and outside the conversion engine.
- `debug` and `debug_state` (lines 14-23), and every `debug(...)` call in the engine: diagnostic printing with no effect on the result.
- Negative cursor values: the cursor is a `nat`. The engine only ever starts it at 0 and moves it forward. A cursor past the end is modelled as Python treats it, as an empty range.
- Text is a sequence of Unicode code points (`seq<char>`). Byte encodings, line terminators as bytes, and surrogates are not modelled. Python's `strip()` whitespace set is reproduced exactly.
- HTML escaping: the engine performs none, and neither does the model.
- Heading and list-item text are not trimmed again. The comment at markdown2html.py:75 says the heading content is stripped, but `line[level + 1:]` (line 76) is not. List items (`line[2:]`, line 91) are not trimmed again either. The model follows the code (HeadingOfMarkdown, ListItemOfMarker).
- A line starting with `#` but with some other character after the hashes (`#Title`) still counts as a heading, and that character is dropped. This follows the code.
- The marker convention `- ` → `ul` and `* ` → `ol` is kept as the code has it.
