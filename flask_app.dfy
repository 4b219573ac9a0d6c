/** The Flask front end: the `/translate` route checks the upload, names
    the output after it, translates every non-blank page separately,
    separates the translations with blank lines and lays the result out
    with `create_arabic_pdf`. */
module FlaskApp {
  import opened Text
  import opened Translation
  import Layout

  /** Why an upload is turned away. */
  datatype Rejection = NoFilePart | NotAPdf

  /** The outcome of the checks on an upload: a 400 response, or the name
      of the uploaded file together with the name the result is sent under. */
  datatype Upload =
    | Rejected(status: nat, reason: Rejection)
    | Accepted(filename: string, outputName: string)

  /** The name the translated file is sent under:
      "translated_" followed by the upload's name with every ".pdf"
      (matched case-sensitively) replaced by "_ar.pdf". */
  function OutputName(filename: string): (r: string)
    ensures StartsWith(r, "translated_")
    ensures EndsWith(filename, PdfExtension) ==> EndsWith(r, "_ar.pdf")
    ensures |r| >= |filename| + 11
  {
    ReplacePdfEnding(filename, "_ar.pdf");
    "translated_" + Replace(filename, PdfExtension, "_ar.pdf")
  }

  /** The checks on the form data, `files` mapping each part name to the
      name of the file sent in it: a missing "file" part, an empty name, or a
      name that does not end in ".pdf" once lower-cased, is answered with
      status 400; nothing else is done for such a request. */
  function CheckUpload(files: map<string, string>): (r: Upload)
    ensures r.Accepted? <==>
      "file" in files && files["file"] != "" && EndsWith(Lower(files["file"]), PdfExtension)
    ensures r.Rejected? ==> r.status == 400 && (r.reason == NoFilePart <==> "file" !in files)
    ensures r.Accepted? ==> r.filename == files["file"] && r.outputName == OutputName(r.filename)
  {
    if "file" !in files then Rejected(400, NoFilePart)
    else
      var name := files["file"];
      if name == "" || !EndsWith(Lower(name), PdfExtension) then Rejected(400, NotAPdf)
      else Accepted(name, OutputName(name))
  }

  /** A name ending in ".pdf" is sent back under a name that starts with
      "translated_" and ends with "_ar.pdf". */
  lemma OutputNameOfPdf(stem: string)
    ensures OutputName(stem + PdfExtension) == "translated_" + Replace(stem, PdfExtension, "_ar.pdf") + "_ar.pdf"
    ensures StartsWith(OutputName(stem + PdfExtension), "translated_")
    ensures EndsWith(OutputName(stem + PdfExtension), "_ar.pdf")
  {
    ReplacePdfSuffix(stem, "_ar.pdf");
  }

  /** The check ignores case but the renaming does not: "X.PDF" is accepted
      and sent back as "translated_X.PDF", without "_ar". */
  lemma UpperCaseExtension(stem: string)
    requires '.' !in stem
    ensures CheckUpload(map["file" := stem + ".PDF"]) == Accepted(stem + ".PDF", "translated_" + stem + ".PDF")
  {
    UpperNamePasses(stem + ".PDF");
    NoLowerPdfIn(stem);
    ReplaceAbsent(stem + ".PDF", PdfExtension, "_ar.pdf");
  }

  /** A name ending in ".PDF" passes the extension check. */
  lemma UpperNamePasses(name: string)
    requires |name| >= 4 && name[|name| - 4..] == ".PDF"
    ensures EndsWith(Lower(name), PdfExtension)
  {
    var n := |name|;
    assert name[n - 4] == '.' && name[n - 3] == 'P' && name[n - 2] == 'D' && name[n - 1] == 'F' by {
      assert name[n - 4..][0] == '.' && name[n - 4..][1] == 'P';
      assert name[n - 4..][2] == 'D' && name[n - 4..][3] == 'F';
    }
    LowerEndsWithPdf(name);
  }

  /** ".pdf" does not occur in a dot-free stem followed by ".PDF". */
  lemma NoLowerPdfIn(stem: string)
    requires '.' !in stem
    ensures !Occurs(stem + ".PDF", PdfExtension)
  {
    var name := stem + ".PDF";
    forall i | 0 <= i <= |name| ensures !MatchAt(name, PdfExtension, i) {
      if i <= |name| - 4 {
        if i < |stem| {
          assert name[i..i + 4][0] == stem[i] != '.' == PdfExtension[0];
        } else {
          assert name[i..i + 4][1] == 'P' != 'p' == PdfExtension[1];
        }
      }
    }
  }

  /** The page loop: each page whose text is not blank is translated and
      appended followed by an empty line; a call that raises ends the loop. */
  method TranslatePages(pageTexts: seq<string>, translate: Translator) returns (r: Option<string>)
    ensures r == Accumulate(pageTexts, translate, "\n\n")
  {
    var translatedText := "";
    for i := 0 to |pageTexts|
      invariant Accumulate(pageTexts[..i], translate, "\n\n") == Some(translatedText)
    {
      assert pageTexts[..i + 1][..i] == pageTexts[..i];
      var text := pageTexts[i];
      if !IsBlank(text) {
        var translated := translate(text);
        if translated.None? {
          AccumulateStaysFailed(pageTexts, i + 1, translate, "\n\n");
          return None;
        }
        translatedText := translatedText + translated.value + "\n\n";
      }
    }
    assert pageTexts[..|pageTexts|] == pageTexts;
    r := Some(translatedText);
  }

  /** The non-blank lines of each translation, one list per translated page. */
  function TranslatedLines(items: seq<string>, translate: Translator): (r: seq<seq<string>>)
    requires AllTranslate(items, translate)
    ensures |r| == |items|
    ensures forall k :: 0 <= k < |items| ==> r[k] == NonBlank(Split(translate(items[k]).value))
  {
    seq(|items|, k requires 0 <= k < |items| => NonBlank(Split(translate(items[k]).value)))
  }

  /** The "\n\n" after each translation only adds blank lines: the non-blank
      lines of the accumulated text are those of the translations, page
      after page. */
  lemma {:induction false} SeparatorsAreBlank(items: seq<string>, translate: Translator)
    requires AllTranslate(items, translate)
    ensures NonBlank(Split(Flatten(Pieces(items, translate, "\n\n"))))
         == Flatten(TranslatedLines(items, translate))
    decreases |items|
  {
    if |items| > 0 {
      var rest := items[1..];
      assert AllTranslate(rest, translate) by {
        forall k | 0 <= k < |rest| ensures translate(rest[k]).Some? { assert rest[k] == items[k + 1]; }
      }
      SeparatorsAreBlank(rest, translate);
      var ps, t := Pieces(items, translate, "\n\n"), translate(items[0]).value;
      var tail := Flatten(Pieces(rest, translate, "\n\n"));
      assert ps[1..] == Pieces(rest, translate, "\n\n");
      assert Flatten(ps) == t + "\n\n" + tail;
      SplitGap(t, tail);
      NonBlankAppend(Split(t) + [""], Split(tail));
      NonBlankAppend(Split(t), [""]);
      assert NonBlank([""]) == [];
      assert NonBlank(Split(t)) + [] == NonBlank(Split(t));
      assert TranslatedLines(items, translate)[1..] == TranslatedLines(rest, translate);
    }
  }

  /** What gets drawn for an upload depends only on the non-blank lines of
      the page translations: laying out the accumulated text is laying out
      those lines, in page order, with no separator in between. */
  lemma TranslatedLayout(env: Layout.Env, pageTexts: seq<string>, translate: Translator)
    requires Accumulate(pageTexts, translate, "\n\n").Some?
    ensures AllTranslate(NonBlank(pageTexts), translate)
    ensures Layout.LayoutText(env, Accumulate(pageTexts, translate, "\n\n").value)
         == Layout.Render(env, Flatten(TranslatedLines(NonBlank(pageTexts), translate)))
  {
    AccumulateMeaning(pageTexts, translate, "\n\n");
    var items := NonBlank(pageTexts);
    var text := Accumulate(pageTexts, translate, "\n\n").value;
    SeparatorsAreBlank(items, translate);
    Layout.RenderSkipsBlank(env, Split(text));
    NonBlankIdempotent(Flatten(TranslatedLines(items, translate)));
    Layout.RenderSkipsBlank(env, Flatten(TranslatedLines(items, translate)));
  }

  /** Filtering twice is filtering once. */
  lemma {:induction false} NonBlankIdempotent(lines: seq<string>)
    ensures NonBlank(NonBlank(lines)) == NonBlank(lines)
  {
    if |lines| > 0 {
      NonBlankIdempotent(lines[1..]);
      if !IsBlank(lines[0]) {
        assert ([lines[0]] + NonBlank(lines[1..]))[1..] == NonBlank(lines[1..]);
      }
    }
  }

  /** The reply to a POST on `/translate`. */
  datatype Response =
    | BadRequest(reason: Rejection)
    | SendFile(downloadName: string, doc: Layout.Document)
    | ServerError

  /** The HTTP status of a reply. */
  function Status(r: Response): nat {
    match r
    case BadRequest(_) => 400
    case SendFile(_, _) => 200
    case ServerError => 500
  }

  /** The route: the upload checks, then reading the pages (`None` when the
      file cannot be read as a PDF), the page loop and the layout. Any
      failure after the checks is answered with status 500. */
  method HandleTranslate(files: map<string, string>, pages: Option<seq<string>>,
                         translate: Translator, env: Layout.Env)
    returns (resp: Response)
    ensures Status(resp) == 400 <==> CheckUpload(files).Rejected?
    ensures resp.BadRequest? ==> resp.reason == CheckUpload(files).reason
    ensures Status(resp) == 500 <==>
      CheckUpload(files).Accepted? &&
      (pages.None? || Accumulate(pages.value, translate, "\n\n").None?)
    ensures resp.SendFile? ==>
      pages.Some? && Accumulate(pages.value, translate, "\n\n").Some? &&
      resp.downloadName == OutputName(files["file"]) &&
      resp.doc.draws == Layout.LayoutText(env, Accumulate(pages.value, translate, "\n\n").value).sheet.draws &&
      resp.doc.pages == Layout.LayoutText(env, Accumulate(pages.value, translate, "\n\n").value).sheet.page + 1
  {
    var upload := CheckUpload(files);
    if upload.Rejected? {
      return BadRequest(upload.reason);
    }
    if pages.None? {
      return ServerError;
    }
    var translatedText := TranslatePages(pages.value, translate);
    if translatedText.None? {
      return ServerError;
    }
    var doc := Layout.CreateArabicPdf(env, translatedText.value);
    resp := SendFile(upload.outputName, doc);
  }
}
