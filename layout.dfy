/** `create_arabic_pdf`: lays the translated text out right to left on A4
    pages, one text line per drawn string, 20 units apart, right-aligned to
    a 50-unit margin, starting a new page when the cursor has gone below the
    50-unit bottom margin.

    The canvas is a class whose methods append to the page and draw lists;
    `Render` is the same loop stated as a function of the lines, and the
    lemmas below state what that layout is. */
module Layout {
  import opened Text

  /** Margin kept on the right and at the top and bottom of every page. */
  const Margin: real := 50.0
  /** Distance between two drawn lines, whatever the font metrics. */
  const LineHeight: real := 20.0
  /** Font size used for every `setFont` and every width measurement. */
  const FontSize: nat := 12

  /** ReportLab's A4, 210 mm by 297 mm at 72 points per inch, exactly. */
  const A4Width: real := 210.0 * 72.0 / 25.4
  const A4Height: real := 297.0 * 72.0 / 25.4

  datatype Font = Font(name: string, size: nat)

  /** The font a fresh page starts with before any `setFont`. */
  const InitialFont: Font := Font("Helvetica", 12)

  /** One `drawString` call: the page it landed on, where, what, in which font. */
  datatype Draw = Draw(page: nat, x: real, y: real, text: string, font: Font)

  /** What the canvas holds: the index of the current page (0 for the
      first), the current font, and every string drawn so far. */
  datatype Sheet = Sheet(page: nat, font: Font, draws: seq<Draw>) {

    /** `showPage`: closes the current page and opens the next one, whose
        graphics state starts over with the initial font. */
    function ShowPage(): Sheet {
      Sheet(page + 1, InitialFont, draws)
    }

    /** `setFont`. */
    function SetFont(f: Font): Sheet {
      this.(font := f)
    }

    /** `drawString`: records the string on the current page in the current font. */
    function DrawString(x: real, y: real, text: string): Sheet {
      this.(draws := draws + [Draw(page, x, y, text, font)])
    }
  }

  /** The finished document: its page size, number of pages and drawn strings. */
  datatype Document = Document(width: real, height: real, pages: nat, draws: seq<Draw>)

  /** The PDF canvas that `create_arabic_pdf` draws on. */
  class Canvas {
    const width: real
    const height: real
    var page: nat
    var font: Font
    var draws: seq<Draw>

    function State(): Sheet
      reads this
    {
      Sheet(page, font, draws)
    }

    constructor (width: real, height: real)
      ensures this.width == width && this.height == height
      ensures State() == Sheet(0, InitialFont, [])
    {
      this.width, this.height := width, height;
      page, font, draws := 0, InitialFont, [];
    }

    method ShowPage()
      modifies this
      ensures State() == old(State()).ShowPage()
    {
      page, font := page + 1, InitialFont;
    }

    method SetFont(f: Font)
      modifies this
      ensures State() == old(State()).SetFont(f)
    {
      font := f;
    }

    method DrawString(x: real, y: real, text: string)
      modifies this
      ensures State() == old(State()).DrawString(x, y, text)
    {
      draws := draws + [Draw(page, x, y, text, font)];
    }

    /** `save`: seals the current page, so the document has one page more
        than the number of `showPage` calls. */
    method Save() returns (doc: Document)
      ensures doc.pages == page + 1 && doc.draws == draws
      ensures doc.width == width && doc.height == height
    {
      doc := Document(width, height, page + 1, draws);
    }
  }

  /** What the layout depends on besides the text: the page size, the
      registered font's name, the shaping step (`arabic_reshaper.reshape`
      followed by `get_display`) and `stringWidth`. */
  datatype Env = Env(
    width: real,
    height: real,
    fontName: string,
    shape: string -> string,
    measure: (string, string, nat) -> real)

  /** The font every line is drawn and measured in. */
  function TextFont(env: Env): Font {
    Font(env.fontName, FontSize)
  }

  /** The canvas and the vertical cursor `y` between two lines. */
  datatype Cursor = Cursor(sheet: Sheet, y: real)

  /** The state before the first line: the font set on the first page and
      `y` at the top margin. */
  function Start(env: Env): (c: Cursor)
    ensures c.sheet.page == 0 && c.sheet.draws == [] && c.sheet.font == TextFont(env)
    ensures c.y == env.height - Margin
  {
    Cursor(Sheet(0, InitialFont, []).SetFont(TextFont(env)), env.height - Margin)
  }

  /** One turn of the loop: a blank line changes nothing; any other line
      first breaks the page if `y` is below the margin, then is drawn
      right-aligned at `y`, and `y` moves down one line. */
  function RenderLine(env: Env, c: Cursor, line: string): (r: Cursor)
    ensures IsBlank(line) ==> r == c
    ensures r.sheet.page == if !IsBlank(line) && c.y < Margin then c.sheet.page + 1 else c.sheet.page
    ensures |r.sheet.draws| == |c.sheet.draws| + (if IsBlank(line) then 0 else 1)
    ensures c.y <= env.height - Margin ==> r.y <= env.height - Margin
  {
    if IsBlank(line) then c
    else
      var shaped := env.shape(line);
      var top := if c.y < Margin
                 then Cursor(c.sheet.ShowPage().SetFont(TextFont(env)), env.height - Margin)
                 else c;
      var x := env.width - Margin - env.measure(shaped, env.fontName, FontSize);
      Cursor(top.sheet.DrawString(x, top.y, shaped), top.y - LineHeight)
  }

  /** The loop over `lines`, one `RenderLine` per line, in order. */
  function Render(env: Env, lines: seq<string>): (r: Cursor)
    ensures r.sheet.page <= |r.sheet.draws| <= |lines|
    ensures r.y <= env.height - Margin
    decreases |lines|
  {
    if |lines| == 0 then Start(env)
    else RenderLine(env, Render(env, lines[..|lines| - 1]), lines[|lines| - 1])
  }

  /** The layout of a whole text: `Render` over `text.split("\n")`. */
  function LayoutText(env: Env, text: string): Cursor {
    Render(env, Split(text))
  }

  /** `create_arabic_pdf`: draws every line of the text on a fresh canvas and
      returns the saved document. */
  method CreateArabicPdf(env: Env, translatedText: string) returns (doc: Document)
    ensures doc.width == env.width && doc.height == env.height
    ensures doc.pages == LayoutText(env, translatedText).sheet.page + 1
    ensures doc.draws == LayoutText(env, translatedText).sheet.draws
  {
    var c := new Canvas(env.width, env.height);
    c.SetFont(TextFont(env));
    var y := env.height - Margin;
    var lines := Split(translatedText);
    for i := 0 to |lines|
      invariant c.width == env.width && c.height == env.height
      invariant Cursor(c.State(), y) == Render(env, lines[..i])
    {
      var line := lines[i];
      if !IsBlank(line) {
        var shaped := env.shape(line);
        if y < Margin {
          c.ShowPage();
          c.SetFont(TextFont(env));
          y := env.height - Margin;
        }
        var textWidth := env.measure(shaped, env.fontName, FontSize);
        var x := env.width - Margin - textWidth;
        c.DrawString(x, y, shaped);
        y := y - LineHeight;
      }
      assert lines[..i + 1][..i] == lines[..i];
    }
    assert lines[..|lines|] == lines;
    doc := c.Save();
  }

  // ---------------------------------------------------------------------
  // What the layout is
  // ---------------------------------------------------------------------

  /** The last line of `lines` and everything before it. */
  lemma LastSplit(lines: seq<string>)
    requires |lines| > 0
    ensures lines == lines[..|lines| - 1] + [lines[|lines| - 1]]
  {
  }

  /** Blank lines are skipped outright: the layout of the text is the
      layout of its non-blank lines alone, page count and cursor included. */
  lemma {:induction false} RenderSkipsBlank(env: Env, lines: seq<string>)
    ensures Render(env, lines) == Render(env, NonBlank(lines))
    decreases |lines|
  {
    if |lines| > 0 {
      var init, last := lines[..|lines| - 1], lines[|lines| - 1];
      LastSplit(lines);
      NonBlankAppend(init, [last]);
      assert NonBlank([last]) == if IsBlank(last) then [] else [last];
      RenderSkipsBlank(env, init);
      if !IsBlank(last) {
        var kept := NonBlank(init) + [last];
        assert kept[..|kept| - 1] == NonBlank(init) && kept[|kept| - 1] == last;
        assert NonBlank(lines) == kept;
      } else {
        assert NonBlank(lines) == NonBlank(init) + [];
        assert NonBlank(init) + [] == NonBlank(init);
      }
    }
  }

  /** Blank lines after the text change nothing: no draw, no new page. */
  lemma {:induction false} TrailingBlankLines(env: Env, lines: seq<string>, blanks: seq<string>)
    requires forall k :: 0 <= k < |blanks| ==> IsBlank(blanks[k])
    ensures Render(env, lines + blanks) == Render(env, lines)
  {
    NoneNonBlank(blanks);
    NonBlankAppend(lines, blanks);
    assert NonBlank(lines) + [] == NonBlank(lines);
    RenderSkipsBlank(env, lines + blanks);
    RenderSkipsBlank(env, lines);
  }

  lemma {:induction false} NoneNonBlank(blanks: seq<string>)
    requires forall k :: 0 <= k < |blanks| ==> IsBlank(blanks[k])
    ensures NonBlank(blanks) == []
  {
    if |blanks| > 0 {
      NoneNonBlank(blanks[1..]);
    }
  }

  /** One draw per non-blank line, in the order of the lines: the k-th
      drawn string is the shaped k-th non-blank line, right-aligned so that
      it ends 50 units from the right edge, in the registered font at size
      12, which is also the canvas font after the last line. */
  lemma {:induction false} RenderDraws(env: Env, lines: seq<string>)
    ensures var d, ls := Render(env, lines).sheet.draws, NonBlank(lines);
      |d| == |ls| &&
      forall k :: 0 <= k < |d| ==>
        d[k].text == env.shape(ls[k]) &&
        d[k].x == env.width - Margin - env.measure(env.shape(ls[k]), env.fontName, FontSize) &&
        d[k].font == TextFont(env)
    ensures Render(env, lines).sheet.font == TextFont(env)
    decreases |lines|
  {
    if |lines| > 0 {
      var init, last := lines[..|lines| - 1], lines[|lines| - 1];
      LastSplit(lines);
      NonBlankAppend(init, [last]);
      assert NonBlank([last]) == if IsBlank(last) then [] else [last];
      RenderDraws(env, init);
    }
  }

  /** Where the next line goes from cursor `y` on page `page`: on the same
      page at `y` while `y` is not below the bottom margin, otherwise at the
      top margin of the next page. */
  function NextSlot(env: Env, page: nat, y: real): (nat, real) {
    if y < Margin then (page + 1, env.height - Margin) else (page, y)
  }

  /** The page-break rule, stated on the drawn strings: the first line goes
      in the slot after the top of page 0, and each following line in the
      slot 20 units below the previous one. A page is started only for a
      line that is drawn: after the last line the canvas is still on the
      page of the last drawn string (page 0 if nothing was drawn), and the
      cursor sits 20 units below it (at the top margin if nothing was drawn). */
  lemma {:induction false} RenderPlacement(env: Env, lines: seq<string>)
    ensures var c := Render(env, lines); var d := c.sheet.draws;
      (|d| == 0 ==> c.sheet.page == 0 && c.y == env.height - Margin) &&
      (|d| > 0 ==>
        c.sheet.page == d[|d| - 1].page && c.y == d[|d| - 1].y - LineHeight &&
        (d[0].page, d[0].y) == NextSlot(env, 0, env.height - Margin)) &&
      forall k :: 0 <= k < |d| - 1 ==>
        (d[k + 1].page, d[k + 1].y) == NextSlot(env, d[k].page, d[k].y - LineHeight)
    decreases |lines|
  {
    if |lines| > 0 {
      RenderPlacement(env, lines[..|lines| - 1]);
    }
  }

  /** While the page is at least 100 units high, every line is drawn between
      the bottom and the top margin, and the cursor never rises above the top
      margin. */
  lemma {:induction false} DrawnWithinMargins(env: Env, lines: seq<string>)
    requires env.height >= 2.0 * Margin
    ensures Render(env, lines).y <= env.height - Margin
    ensures var d := Render(env, lines).sheet.draws;
      forall k :: 0 <= k < |d| ==> Margin <= d[k].y <= env.height - Margin
    decreases |lines|
  {
    if |lines| > 0 {
      DrawnWithinMargins(env, lines[..|lines| - 1]);
    }
  }

  /** How many lines fit on one page: the lines at `height - 50`,
      `height - 70`, ... that are not below the bottom margin. */
  function LinesPerPage(height: real): (n: int)
    requires height >= 2.0 * Margin
    ensures n >= 1
    ensures height - Margin - LineHeight * (n - 1) as real >= Margin
    ensures height - Margin - LineHeight * n as real < Margin
  {
    ((height - 2.0 * Margin) / LineHeight).Floor + 1
  }

  /** Quotient and remainder are the only pair with `a == n * q + r` and `0 <= r < n`. */
  lemma DivModUnique(a: int, n: int, q: int, r: int)
    requires n >= 1 && 0 <= r < n && a == n * q + r
    ensures a / n == q && a % n == r
  {
    var q0, r0 := a / n, a % n;
    assert a == n * q0 + r0 && 0 <= r0 < n;
    assert n * (q - q0) == r0 - r;
    if q > q0 {
      MulAtLeast(n, q - q0);
    } else if q < q0 {
      MulAtLeast(n, q0 - q);
    }
  }

  lemma MulAtLeast(n: int, m: int)
    requires n >= 1 && m >= 1
    ensures n * m >= n
  {
  }

  /** Stepping an index by one: either the remainder grows by one, or it
      wraps to 0 and the quotient grows by one. */
  lemma DivModStep(j: nat, n: int)
    requires n >= 1
    ensures j % n == n - 1 ==> (j + 1) / n == j / n + 1 && (j + 1) % n == 0
    ensures j % n != n - 1 ==> (j + 1) / n == j / n && (j + 1) % n == j % n + 1
  {
    var q, r := j / n, j % n;
    assert j == n * q + r;
    if r == n - 1 {
      DivModUnique(j + 1, n, q + 1, 0);
    } else {
      DivModUnique(j + 1, n, q, r + 1);
    }
  }

  /** Draw positions that follow the page-break rule fill each page with
      `LinesPerPage` lines from the top margin down, then move on. */
  lemma {:induction false} SlotsClosedForm(env: Env, d: seq<Draw>, k: nat)
    requires env.height >= 2.0 * Margin
    requires k < |d|
    requires (d[0].page, d[0].y) == NextSlot(env, 0, env.height - Margin)
    requires forall j :: 0 <= j < |d| - 1 ==>
      (d[j + 1].page, d[j + 1].y) == NextSlot(env, d[j].page, d[j].y - LineHeight)
    ensures var n := LinesPerPage(env.height);
      d[k].page == k / n && d[k].y == env.height - Margin - LineHeight * (k % n) as real
  {
    var n := LinesPerPage(env.height);
    if k > 0 {
      SlotsClosedForm(env, d, k - 1);
      DivModStep(k - 1, n);
      assert (d[k].page, d[k].y) == NextSlot(env, d[k - 1].page, d[k - 1].y - LineHeight);
      if (k - 1) % n == n - 1 {
        assert d[k - 1].y - LineHeight == env.height - Margin - LineHeight * n as real;
      } else {
        assert (k - 1) % n + 1 <= n - 1;
        assert d[k - 1].y - LineHeight == env.height - Margin - LineHeight * ((k - 1) % n + 1) as real;
      }
    }
  }

  /** Closed form of the layout: with `n = LinesPerPage(height)`, the k-th
      drawn line (counting from 0) is on page `k / n`, at
      `height - 50 - 20 * (k % n)`. In particular, as long as no page has
      filled up, the k-th line is at `height - 50 - 20 * k`. */
  lemma RenderClosedForm(env: Env, lines: seq<string>)
    requires env.height >= 2.0 * Margin
    ensures var d, n := Render(env, lines).sheet.draws, LinesPerPage(env.height);
      forall k :: 0 <= k < |d| ==>
        d[k].page == k / n && d[k].y == env.height - Margin - LineHeight * (k % n) as real
  {
    RenderPlacement(env, lines);
    var d := Render(env, lines).sheet.draws;
    forall k | 0 <= k < |d|
      ensures var n := LinesPerPage(env.height);
        d[k].page == k / n && d[k].y == env.height - Margin - LineHeight * (k % n) as real
    {
      SlotsClosedForm(env, d, k);
    }
  }

  /** The number of pages of the finished layout: one page when no line is
      drawn, otherwise as many as the drawn lines need at `LinesPerPage`
      lines a page. */
  lemma PageCount(env: Env, lines: seq<string>)
    requires env.height >= 2.0 * Margin
    ensures var m, n := |NonBlank(lines)|, LinesPerPage(env.height);
      Render(env, lines).sheet.page + 1 == if m == 0 then 1 else (m - 1) / n + 1
  {
    RenderPlacement(env, lines);
    RenderDraws(env, lines);
    RenderClosedForm(env, lines);
  }

  /** On A4 paper 38 lines fit on a page. */
  lemma A4LinesPerPage()
    ensures LinesPerPage(A4Height) == 38
  {
    assert 37.0 <= (A4Height - 2.0 * Margin) / LineHeight < 38.0;
  }

  /** On A4 paper the 38th non-blank line is the last on the first page
      (about 51.9 units up) and the 39th opens the second page at the top
      margin. */
  lemma A4PageBreak(env: Env, lines: seq<string>)
    requires env.height == A4Height
    requires |NonBlank(lines)| >= 39
    ensures var d := Render(env, lines).sheet.draws;
      |d| >= 39 &&
      d[37].page == 0 && d[37].y == A4Height - Margin - LineHeight * 37.0 &&
      d[37].y >= Margin &&
      d[38].page == 1 && d[38].y == A4Height - Margin
  {
    RenderDraws(env, lines);
    RenderClosedForm(env, lines);
    A4LinesPerPage();
  }

  /** A text of one non-blank line is drawn once, on the first page, at the
      top margin. */
  lemma OneLine(env: Env, line: string)
    requires env.height >= 2.0 * Margin
    requires '\n' !in line && !IsBlank(line)
    ensures var c := LayoutText(env, line);
      c.sheet.page == 0 &&
      c.sheet.draws == [Draw(0, env.width - Margin - env.measure(env.shape(line), env.fontName, FontSize),
                             env.height - Margin, env.shape(line), TextFont(env))]
  {
    SplitNoNewline(line);
    assert [line][..0] == [];
    assert Render(env, [line]) == RenderLine(env, Render(env, []), line);
  }

  /** Two non-blank lines with an empty line between them are drawn on the
      first page, 20 units apart: the empty line takes no room. */
  lemma TwoLinesAndAGap(env: Env, first: string, second: string)
    requires env.height >= 2.0 * Margin + LineHeight
    requires '\n' !in first && !IsBlank(first)
    requires '\n' !in second && !IsBlank(second)
    ensures var d := LayoutText(env, first + "\n\n" + second).sheet.draws;
      |d| == 2 &&
      d[0].page == 0 && d[0].y == env.height - Margin && d[0].text == env.shape(first) &&
      d[1].page == 0 && d[1].y == env.height - Margin - LineHeight && d[1].text == env.shape(second)
  {
    var text := first + "\n\n" + second;
    var lines := [first, "", second];
    SplitGap(first, second);
    SplitNoNewline(first);
    SplitNoNewline(second);
    assert Split(text) == lines;
    NonBlankAroundEmpty(first, second);
    RenderDraws(env, lines);
    RenderPlacement(env, lines);
  }

  /** An empty line between two non-blank lines is dropped by the filter. */
  lemma NonBlankAroundEmpty(first: string, second: string)
    requires !IsBlank(first) && !IsBlank(second)
    ensures NonBlank([first, "", second]) == [first, second]
  {
    var lines := [first, "", second];
    assert lines[1..] == ["", second] && lines[1..][1..] == [second] && [second][1..] == [];
    assert IsBlank("");
    assert NonBlank([second]) == [second];
    assert NonBlank(["", second]) == [second];
  }
}
