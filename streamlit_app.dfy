/** The Streamlit front end: the text of every page is gathered into one
    string, cut into slices of at most 4900 characters, the non-blank slices
    are translated one by one and concatenated, and the download is named
    after the upload with ".pdf" replaced by "_AR.pdf". */
module StreamlitApp {
  import opened Text
  import opened Translation
  import Layout

  /** Longest slice sent to the translation service in one call. */
  const ChunkSize: nat := 4900

  /** What the upload comes to: the translated text, or the message the
      page shows before it stops. */
  datatype Outcome =
    | Translated(text: string)
    | UnreadableFile
    | NoReadableText
    | TranslationFailed
    | EmptyTranslation

  /** The gathered text of the upload: the pages' text, each followed by
      a newline, in page order. Every page adds at least its newline, and
      the text of a non-empty upload ends with one. */
  function ExtractedText(pages: seq<string>): (r: string)
    ensures |r| >= |pages|
    ensures |pages| > 0 ==> r[|r| - 1] == '\n'
    decreases |pages|
  {
    if |pages| == 0 then ""
    else ExtractedText(pages[..|pages| - 1]) + (pages[|pages| - 1] + "\n")
  }

  /** The extraction loop: appends each page's text and a newline, page by page. */
  method ExtractText(pages: seq<string>) returns (textContent: string)
    ensures textContent == ExtractedText(pages)
  {
    textContent := "";
    for i := 0 to |pages|
      invariant textContent == ExtractedText(pages[..i])
    {
      assert pages[..i + 1][..i] == pages[..i];
      textContent := textContent + (pages[i] + "\n");
    }
    assert pages[..|pages|] == pages;
  }

  /** The extracted text is blank exactly when every page's text is. */
  lemma {:induction false} ExtractedTextBlank(pages: seq<string>)
    ensures IsBlank(ExtractedText(pages)) <==> forall k :: 0 <= k < |pages| ==> IsBlank(pages[k])
    decreases |pages|
  {
    if |pages| > 0 {
      var init, last := pages[..|pages| - 1], pages[|pages| - 1];
      ExtractedTextBlank(init);
      BlankAppend(ExtractedText(init), last + "\n");
      BlankAppend(last, "\n");
      assert IsBlank("\n");
      assert forall k :: 0 <= k < |init| ==> init[k] == pages[k];
    }
  }

  /** The slices of the text taken every 4900 characters from the start,
      the last one cut at the end of the text. */
  function Chunks(text: string): (r: seq<string>)
    ensures forall k :: 0 <= k < |r| ==> 0 < |r[k]| <= ChunkSize
    ensures forall k :: 0 <= k < |r| - 1 ==> |r[k]| == ChunkSize
    decreases |text|
  {
    if |text| == 0 then []
    else if |text| <= ChunkSize then [text]
    else [text[..ChunkSize]] + Chunks(text[ChunkSize..])
  }

  /** The chunks put back together are the text. */
  lemma {:induction false} ChunksConcat(text: string)
    ensures Flatten(Chunks(text)) == text
    decreases |text|
  {
    if |text| > ChunkSize {
      ChunksConcat(text[ChunkSize..]);
      assert text == text[..ChunkSize] + text[ChunkSize..];
    } else if |text| > 0 {
      assert Flatten([text]) == text + [];
    }
  }

  /** There are ceil(len / 4900) chunks, and chunk `k` is the slice that
      starts at `k * 4900`, cut at the end of the text. */
  lemma {:induction false} ChunksAt(text: string)
    ensures |Chunks(text)| == (|text| + ChunkSize - 1) / ChunkSize
    ensures forall k :: 0 <= k < |Chunks(text)| ==>
      k * ChunkSize < |text| &&
      Chunks(text)[k] == text[k * ChunkSize .. Min((k + 1) * ChunkSize, |text|)]
    decreases |text|
  {
    if |text| > ChunkSize {
      var rest := text[ChunkSize..];
      ChunksAt(rest);
      var r := Chunks(text);
      assert r == [text[..ChunkSize]] + Chunks(rest);
      forall k | 0 <= k < |r|
        ensures k * ChunkSize < |text|
        ensures r[k] == text[k * ChunkSize .. Min((k + 1) * ChunkSize, |text|)]
      {
        if k > 0 {
          assert r[k] == Chunks(rest)[k - 1];
          assert rest[(k - 1) * ChunkSize .. Min(k * ChunkSize, |rest|)]
              == text[k * ChunkSize .. Min((k + 1) * ChunkSize, |text|)];
        }
      }
    }
  }

  function Min(a: int, b: int): int {
    if a <= b then a else b
  }

  /** The translation loop: each non-blank chunk is translated and appended;
      a call that raises ends the loop. */
  method TranslateChunks(chunks: seq<string>, translate: Translator) returns (r: Option<string>)
    ensures r == Accumulate(chunks, translate, "")
  {
    var translatedText := "";
    for i := 0 to |chunks|
      invariant Accumulate(chunks[..i], translate, "") == Some(translatedText)
    {
      assert chunks[..i + 1][..i] == chunks[..i];
      var chunk := chunks[i];
      if !IsBlank(chunk) {
        var translatedChunk := translate(chunk);
        if translatedChunk.None? {
          AccumulateStaysFailed(chunks, i + 1, translate, "");
          return None;
        }
        assert Accumulate(chunks[..i + 1], translate, "")
            == Some(translatedText + translatedChunk.value + "");
        assert translatedText + translatedChunk.value + "" == translatedText + translatedChunk.value;
        translatedText := translatedText + translatedChunk.value;
      }
    }
    assert chunks[..|chunks|] == chunks;
    r := Some(translatedText);
  }

  /** What one upload comes to: reading, extraction, the check for blank
      text, the chunked translation and the check for a blank translation,
      in the order the page runs them; `pages` is `None` when the upload
      cannot be read as a PDF. */
  function UploadOutcome(pages: Option<seq<string>>, translate: Translator): Outcome {
    if pages.None? then UnreadableFile
    else
      var textContent := ExtractedText(pages.value);
      if IsBlank(textContent) then NoReadableText
      else match Accumulate(Chunks(textContent), translate, "")
        case None => TranslationFailed
        case Some(t) => if IsBlank(t) then EmptyTranslation else Translated(t)
  }

  /** Which message an upload ends with, in terms of the pages and the
      translation service: an unreadable file; no page with any text; a
      non-blank chunk whose translation call raises; a translation that is
      blank; and otherwise the translated text, which is the in-order
      concatenation of the translations of the non-blank chunks. */
  lemma UploadOutcomeMeaning(pages: Option<seq<string>>, translate: Translator)
    ensures UploadOutcome(pages, translate) == UnreadableFile <==> pages.None?
    ensures pages.Some? ==>
      var r, cs := UploadOutcome(pages, translate), NonBlank(Chunks(ExtractedText(pages.value)));
      var readable := exists k :: 0 <= k < |pages.value| && !IsBlank(pages.value[k]);
      (r == NoReadableText <==> !readable) &&
      (r == TranslationFailed <==> readable && !AllTranslate(cs, translate)) &&
      (r == EmptyTranslation <==>
        readable && AllTranslate(cs, translate) && IsBlank(Flatten(Pieces(cs, translate, "")))) &&
      (r.Translated? <==>
        readable && AllTranslate(cs, translate) && !IsBlank(Flatten(Pieces(cs, translate, "")))) &&
      (r.Translated? ==> r.text == Flatten(Pieces(cs, translate, "")))
  {
    if pages.Some? {
      ExtractedTextBlank(pages.value);
      AccumulateMeaning(Chunks(ExtractedText(pages.value)), translate, "");
    }
  }

  /** The page's code for one upload, step by step. */
  method TranslateUpload(pages: Option<seq<string>>, translate: Translator) returns (r: Outcome)
    ensures r == UploadOutcome(pages, translate)
  {
    if pages.None? {
      return UnreadableFile;
    }
    var textContent := ExtractText(pages.value);
    if IsBlank(textContent) {
      return NoReadableText;
    }
    var chunks := Chunks(textContent);
    var translated := TranslateChunks(chunks, translate);
    if translated.None? {
      return TranslationFailed;
    }
    if IsBlank(translated.value) {
      return EmptyTranslation;
    }
    r := Translated(translated.value);
  }

  /** The download name: the upload's name with every ".pdf" replaced by "_AR.pdf". */
  function DownloadName(name: string): (r: string)
    ensures EndsWith(name, PdfExtension) ==> EndsWith(r, "_AR.pdf")
    ensures |r| >= |name|
  {
    ReplacePdfEnding(name, "_AR.pdf");
    Replace(name, PdfExtension, "_AR.pdf")
  }

  /** A name ending in ".pdf" gives a download name ending in "_AR.pdf",
      with the rest of the name treated the same way. */
  lemma DownloadNameOfPdf(stem: string)
    ensures DownloadName(stem + PdfExtension) == DownloadName(stem) + "_AR.pdf"
    ensures EndsWith(DownloadName(stem + PdfExtension), "_AR.pdf")
  {
    ReplacePdfSuffix(stem, "_AR.pdf");
  }

  /** The whole page for one upload: the translated text is laid out by
      `create_arabic_pdf`, or the upload stops with its message. */
  method ProcessUpload(pages: Option<seq<string>>, translate: Translator, env: Layout.Env)
    returns (outcome: Outcome, doc: Option<Layout.Document>)
    ensures outcome == UploadOutcome(pages, translate)
    ensures outcome.Translated? <==> doc.Some?
    ensures outcome.Translated? ==>
      doc.value.pages == Layout.LayoutText(env, outcome.text).sheet.page + 1 &&
      doc.value.draws == Layout.LayoutText(env, outcome.text).sheet.draws
  {
    outcome := TranslateUpload(pages, translate);
    if outcome.Translated? {
      var d := Layout.CreateArabicPdf(env, outcome.text);
      doc := Some(d);
    } else {
      doc := None;
    }
  }
}
