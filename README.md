# Arabic PDF translator: layout and upload handling in Dafny

The translator has two front ends, a Streamlit page (`streamlit_app.py`) and
a Flask route (`app.py`). Both read the text of an uploaded PDF and send it
to an online translation service. They then lay the Arabic translation out
right to left on A4 pages with `create_arabic_pdf`. This project models the
logic around those calls:

- `layout.dfy` (module `Layout`) models `create_arabic_pdf`, which is
  written the same way in both files. The text is split on newlines and
  blank lines are skipped. Each other line is shaped, then right-aligned
  at `x = width - 50 - stringWidth(line)`. It is drawn at the cursor `y`,
  which then moves down 20 units. A new page starts only when a line is
  about to be drawn with `y < 50`. The page break puts `y` back at
  `height - 50` and sets the font again.
  - The canvas is a class, `Canvas`. Its `showPage`, `setFont`, `drawString`
    and `save` methods change its page index, font and list of drawn
    strings.
  - `CreateArabicPdf` is the loop. It is proved equal to `Render`, the same
    loop written as a function of the lines.
  - The lemmas about `Render` state what the layout is: the skip rule, one
    draw per non-blank line in order, right alignment, and the page-break
    rule. They also give a closed form: line `k` lands on page `k / n` at
    `height - 50 - 20 * (k % n)`, where `n` is the number of lines per page
    (38 on A4). Finally they prove every line lies between the margins and
    count the pages.
- `streamlit_app.dfy` (module `StreamlitApp`) models the Streamlit pipeline.
  The pages' text is gathered, checked for blankness, and cut into slices
  of 4900 characters. The non-blank slices are translated and concatenated.
  The translation is checked for blankness and laid out. The download name
  replaces ".pdf" with "_AR.pdf".
- `flask_app.dfy` (module `FlaskApp`) models the `/translate` route. It
  checks the upload (status 400) and derives the output name
  `"translated_" + name.replace(".pdf", "_ar.pdf")`. Each non-blank page is
  translated and followed by `"\n\n"`. The result is laid out. A failure
  after the checks gives status 500.
- `translation.dfy` (module `Translation`) holds the accumulation shared by
  both translation loops. It is proved to be the in-order concatenation of
  the translations of the non-blank items.
- `text.dfy` (module `Text`) models the Python string operations used:
  `split("\n")`, `strip()` as a truth value, `lower()`, `endswith()` and
  `replace()`.

The environment enters as parameters. `Layout.Env` carries the page size,
the registered font name, `shape` and `measure`. `shape` stands for
`arabic_reshaper.reshape` followed by `bidi.get_display`. `measure` stands for
`canvas.stringWidth(text, font, size)`. The translation service is a
function that returns `None` when the call raises. The PDF reader delivers
the text of each page, or `None` when the file cannot be read.

Three properties of the code shape the model:
- The code does not wrap lines. A line wider than the page gets a negative
  `x`, and the model does the same.
- Only the Streamlit page stops when the extracted text is blank. The Flask
  route translates whatever non-blank pages there are and lays out the
  result. With no non-blank page, the model gives a single empty page.
- The page size is ReportLab's A4, 210 mm x 297 mm at 72 points per inch,
  taken exactly: 841.889... units high, so 38 lines fit on a page.

## Model

| member | source | states |
|---|---|---|
| Layout.Canvas.constructor | streamlit_app.py:35 | a new canvas is on page 0 with the initial font and nothing drawn |
| Layout.Canvas.ShowPage | streamlit_app.py:48 | showPage moves to the next page and the font starts over as the initial font; drawn strings are kept |
| Layout.Canvas.SetFont | streamlit_app.py:36 | setFont changes only the current font |
| Layout.Canvas.DrawString | streamlit_app.py:56 | drawString appends one string at (x, y) on the current page in the current font |
| Layout.Canvas.Save | streamlit_app.py:59-60 | the saved document has one page more than the number of page breaks and holds every drawn string |
| Layout.RenderLine | streamlit_app.py:40-57 | one turn of the loop: a blank line changes nothing; a page is started exactly when the line is not blank and y < 50; a non-blank line adds exactly one draw; y never rises above height - 50 |
| Layout.Render | streamlit_app.py:40-57 | the whole loop: no more draws than lines, no more page breaks than draws, and y ends at most at height - 50 |
| Layout.Start | streamlit_app.py:35-38 | before the first line: page 0, nothing drawn, font (font_name, 12), y = height - 50 |
| Layout.CreateArabicPdf | streamlit_app.py:31-60 | the document's pages and drawn strings are exactly those of `Render` over `text.split("\n")` |
| Layout.RenderSkipsBlank | streamlit_app.py:40-41 | empty and whitespace-only lines are skipped outright: the whole layout (draws, page, y) is that of the non-blank lines alone |
| Layout.TrailingBlankLines | app.py:47-48 | appending blank lines changes nothing: no draw, no extra page, same cursor |
| Layout.RenderDraws | streamlit_app.py:40-57 | one draw per non-blank line, in line order; draw k shows shape(line k) at x = width - 50 - stringWidth(shape(line k), font_name, 12), in font (font_name, 12), and that font is still current at the end |
| Layout.RenderPlacement | app.py:54-64 | the first line goes to the top of page 0 unless y < 50 there; each next line goes 20 below the previous one on the same page, unless that is below 50, when it goes to height - 50 on the next page; the final page is the last draw's page (0 if none) and y ends 20 below the last draw |
| Layout.DrawnWithinMargins | streamlit_app.py:47-57 | with height >= 100, every line is drawn with 50 <= y <= height - 50, and y never rises above height - 50 |
| Layout.LinesPerPage | app.py:54-57 | n lines fit on a page: the n-th slot from the top is not below 50, the (n+1)-th would be |
| Layout.RenderClosedForm | app.py:45-64 | line k (from 0) is drawn on page k / n at y = height - 50 - 20 * (k % n), n = LinesPerPage(height); before the first break line k is at height - 50 - 20k |
| Layout.PageCount | streamlit_app.py:47-59 | the document has 1 page when no line is drawn, otherwise (m - 1) / n + 1 pages for m non-blank lines |
| Layout.A4LinesPerPage | app.py:44 | on ReportLab's A4, 38 lines fit on a page |
| Layout.A4PageBreak | streamlit_app.py:37-50 | on A4 the 38th non-blank line is the last on page 0, at about 51.9, and the 39th starts page 1 at height - 50 |
| Layout.OneLine | streamlit_app.py:38-57 | a single non-blank line without newline is drawn once, on page 0, at y = height - 50, right-aligned |
| Layout.TwoLinesAndAGap | app.py:47-64 | "a\n\nb" with a, b non-blank is drawn as two lines on page 0 at height - 50 and height - 70; the empty line takes no room |
| Text.Split | streamlit_app.py:40 | split on "\n" gives one more piece than there are newlines, none containing a newline |
| Text.JoinSplit | streamlit_app.py:40 | joining the pieces of split with "\n" gives back the text |
| Text.SplitJoin | streamlit_app.py:40 | splitting the join of newline-free pieces gives back the pieces |
| Text.SplitAround | app.py:103 | split(a + "\n" + b) == split(a) + split(b) |
| Text.SplitGap | app.py:103 | split(a + "\n\n" + b) == split(a) + [""] + split(b): the separator adds exactly one empty line |
| Text.LowerEndsWithPdf | app.py:84 | `name.lower().endswith(".pdf")` holds exactly when the name ends in "." followed by p, d, f, each in either case |
| Text.LStrip | streamlit_app.py:41 | lstrip() leaves a suffix that starts with a non-space, and drops only whitespace |
| Text.RStrip | streamlit_app.py:41 | rstrip() leaves a prefix that ends with a non-space, and drops only whitespace |
| Text.BlankIffStripEmpty | streamlit_app.py:87 | strip() leaves nothing exactly when every character is whitespace, which is what `IsBlank` states |
| Text.Replace | app.py:89 | replace() scans from the start, so an occurrence at the very front is replaced; a replacement at least as long as the pattern never shortens the string |
| Text.ReplaceAbsent | app.py:89 | replace changes nothing when the pattern does not occur |
| Text.ReplaceSuffix | app.py:89 | for a pattern whose first character does not recur in it, a final occurrence is always replaced and the rest is replaced as before |
| Text.ReplacePdfSuffix | app.py:89 | replace(".pdf", r) on s + ".pdf" is replace on s followed by r: the final ".pdf" is always replaced |
| Translation.Accumulate | streamlit_app.py:104-109 | only a non-blank item whose call raises can make the accumulation fail; all-blank items accumulate to "" |
| Translation.AccumulateMeaning | streamlit_app.py:104-109 | the accumulation succeeds exactly when every non-blank item translates; then it is the in-order concatenation of translation + suffix over the non-blank items, and blank items contribute nothing |
| Translation.AccumulateStaysFailed | app.py:110-113 | a translation call that raises fails the whole accumulation |
| StreamlitApp.ExtractedText | streamlit_app.py:83-85 | every page adds at least its newline, and the text of a non-empty upload ends with a newline |
| StreamlitApp.ExtractText | streamlit_app.py:83-85 | text_content is the pages' text, each followed by "\n", in page order |
| StreamlitApp.ExtractedTextBlank | streamlit_app.py:87-89 | the extracted text is blank exactly when every page's text is blank |
| StreamlitApp.Chunks | streamlit_app.py:102 | every chunk has 1 to 4900 characters and all but the last exactly 4900 |
| StreamlitApp.ChunksConcat | streamlit_app.py:102 | the chunks concatenate back to the text |
| StreamlitApp.ChunksAt | streamlit_app.py:99-102 | there are ceil(len / 4900) chunks and chunk k is text[k*4900 : min((k+1)*4900, len)] |
| StreamlitApp.TranslateChunks | streamlit_app.py:104-109 | the loop's result is the accumulation of the chunks' translations with no separator, or failure once a call raises |
| StreamlitApp.UploadOutcomeMeaning | streamlit_app.py:81-117 | the upload ends with: unreadable file iff it cannot be read; no readable text iff every page is blank; translation failed iff some non-blank chunk's call raises; empty translation iff all translate and the result is blank; translated iff all translate and the result is not blank, the text then being the in-order concatenation of the translations of the non-blank chunks |
| StreamlitApp.TranslateUpload | streamlit_app.py:81-117 | the page's steps give exactly `UploadOutcome`, whose meaning `UploadOutcomeMeaning` states |
| StreamlitApp.DownloadName | streamlit_app.py:130 | a name ending in ".pdf" gives a download name ending in "_AR.pdf", and the name never gets shorter |
| StreamlitApp.DownloadNameOfPdf | streamlit_app.py:130 | a name ending in ".pdf" gives a download name ending in "_AR.pdf" |
| StreamlitApp.ProcessUpload | streamlit_app.py:77-132 | the outcome is `UploadOutcome` of the pages and the translator; a document is produced exactly when the outcome is a translation, and it is the layout of the translated text |
| FlaskApp.CheckUpload | app.py:80-85 | accepted iff a "file" part exists, its name is non-empty and its lower-cased name ends in ".pdf"; otherwise status 400, NoFilePart exactly when the part is missing |
| FlaskApp.OutputName | app.py:89 | the output name starts with "translated_", is at least 11 characters longer than the upload's name, and ends with "_ar.pdf" when the upload's name ends with ".pdf" |
| FlaskApp.OutputNameOfPdf | app.py:89 | the output name of a name ending in ".pdf" starts with "translated_" and ends with "_ar.pdf" |
| FlaskApp.UpperCaseExtension | app.py:84-89 | a name "X.PDF" passes the check yet is sent back as "translated_X.PDF" |
| FlaskApp.TranslatePages | app.py:98-103 | the loop's result is the accumulation of the non-blank pages' translations each followed by "\n\n", or failure once a call raises |
| FlaskApp.SeparatorsAreBlank | app.py:103 | the "\n\n" separators only add blank lines: the non-blank lines of the accumulated text are those of each translation, page after page |
| FlaskApp.TranslatedLayout | app.py:98-105 | what is drawn depends only on the non-blank lines of the page translations, in page order |
| FlaskApp.HandleTranslate | app.py:79-113 | status 400 exactly for a rejected upload, with the check's reason (no file part, or not a PDF); 500 exactly when an accepted file cannot be read or a translation call raises; otherwise the file is sent under the output name and holds the layout of the accumulated translation |

## Left out

- PDF serialisation, font registration and the fallback to Helvetica in
  `app.py` (streamlit_app.py:20-25, app.py:30-35). These are library calls.
  The font name is a parameter of the layout. The document is its page
  count and its list of drawn strings, not bytes.
- Arabic reshaping and the bidirectional algorithm. They are one opaque
  parameter, `shape`, and nothing is claimed about its output.
- Font metrics. `stringWidth` is an opaque parameter, `measure`.
- Floating point. Coordinates are exact reals, so float rounding of the A4
  size and of `x` is not modelled.
- The translation service, PDF text extraction, the Streamlit widgets and
  messages, Flask routing, `send_file`, temporary files, `uuid` and port
  handling. These are network, I/O and UI code; their results enter as
  parameters.
- StreamlitApp.ProcessUpload: does not model an exception raised inside
  `create_arabic_pdf` (for example, a font that failed to register). The
  page reports that with `st.error`.
- FlaskApp.HandleTranslate: does not model an exception raised inside
  `create_arabic_pdf`, which the route also answers with status 500.
- FlaskApp.CheckUpload: `lower()` is modelled for ASCII letters only.
  Unicode case mappings beyond A-Z are not modelled.
- Text.LowerEndsWithPdf: covers ASCII letters only, for the same reason.
- Layout.Canvas.Save: ReportLab's `save()` only closes a page that holds
  content. The model always counts the current page, so a text with no
  non-blank line gives one empty page. ReportLab's own handling of that
  case is not modelled.
- Page text that PyPDF2 returns as `None` is modelled as a string. The Flask
  route treats `None` like a blank page.
