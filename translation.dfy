/** The accumulation both front ends perform around the translation
    service: walk a list of texts in order, skip the blank ones, translate
    each of the others and append the translation, followed by a fixed
    suffix, to the result. A call to the service that raises aborts the
    whole accumulation. */
module Translation {
  import opened Text

  /** The translation service (`GoogleTranslator(...).translate`): `None`
      stands for a call that raises. */
  type Translator = string -> Option<string>

  /** The accumulated text after the items, or `None` once a call raised.
      Only a non-blank item whose call raises can make it fail, and items
      that are all blank accumulate nothing. */
  function Accumulate(items: seq<string>, translate: Translator, suffix: string): (r: Option<string>)
    ensures r.None? ==> exists k :: 0 <= k < |items| && !IsBlank(items[k]) && translate(items[k]).None?
    ensures (forall k :: 0 <= k < |items| ==> IsBlank(items[k])) ==> r == Some("")
    decreases |items|
  {
    if |items| == 0 then Some("")
    else
      var last := items[|items| - 1];
      match Accumulate(items[..|items| - 1], translate, suffix)
      case None => None
      case Some(acc) =>
        if IsBlank(last) then Some(acc)
        else match translate(last)
          case None => None
          case Some(t) => Some(acc + t + suffix)
  }

  /** Every item has a translation. */
  predicate AllTranslate(items: seq<string>, translate: Translator) {
    forall k :: 0 <= k < |items| ==> translate(items[k]).Some?
  }

  /** The translation of each item followed by the suffix. */
  function Pieces(items: seq<string>, translate: Translator, suffix: string): (r: seq<string>)
    requires AllTranslate(items, translate)
    ensures |r| == |items|
    ensures forall k :: 0 <= k < |items| ==> r[k] == translate(items[k]).value + suffix
  {
    seq(|items|, k requires 0 <= k < |items| => translate(items[k]).value + suffix)
  }

  /** The accumulation succeeds exactly when every non-blank item has a
      translation; its result is then the translations of the non-blank
      items, each followed by the suffix, concatenated in order. Blank items
      contribute nothing. */
  lemma {:induction false} AccumulateMeaning(items: seq<string>, translate: Translator, suffix: string)
    ensures Accumulate(items, translate, suffix).Some? <==> AllTranslate(NonBlank(items), translate)
    ensures Accumulate(items, translate, suffix).Some? ==>
      Accumulate(items, translate, suffix).value == Flatten(Pieces(NonBlank(items), translate, suffix))
    decreases |items|
  {
    if |items| > 0 {
      var init, last := items[..|items| - 1], items[|items| - 1];
      assert items == init + [last];
      AccumulateMeaning(init, translate, suffix);
      NonBlankAppend(init, [last]);
      if IsBlank(last) {
        assert NonBlank([last]) == [];
        assert NonBlank(items) == NonBlank(init) + [] == NonBlank(init);
      } else {
        assert NonBlank([last]) == [last];
        PiecesSnoc(NonBlank(init), last, translate, suffix);
      }
    }
  }

  /** One more item to translate: all translate iff the earlier ones do and
      it does, and its piece comes last. */
  lemma PiecesSnoc(xs: seq<string>, x: string, translate: Translator, suffix: string)
    ensures AllTranslate(xs + [x], translate) <==> AllTranslate(xs, translate) && translate(x).Some?
    ensures AllTranslate(xs + [x], translate) ==>
      Flatten(Pieces(xs + [x], translate, suffix))
        == Flatten(Pieces(xs, translate, suffix)) + (translate(x).value + suffix)
  {
    var ys := xs + [x];
    assert forall k :: 0 <= k < |xs| ==> ys[k] == xs[k];
    assert ys[|xs|] == x;
    if AllTranslate(ys, translate) {
      var p := translate(x).value + suffix;
      assert Pieces(ys, translate, suffix) == Pieces(xs, translate, suffix) + [p];
      FlattenAppend(Pieces(xs, translate, suffix), [p]);
      assert Flatten([p]) == p + [];
    }
  }

  /** Once the accumulation has failed on a prefix it fails on the whole. */
  lemma {:induction false} AccumulateStaysFailed(items: seq<string>, i: nat, translate: Translator, suffix: string)
    requires i <= |items|
    requires Accumulate(items[..i], translate, suffix).None?
    ensures Accumulate(items, translate, suffix).None?
    decreases |items| - i
  {
    if i < |items| {
      assert items[..i + 1][..i] == items[..i];
      AccumulateStaysFailed(items, i + 1, translate, suffix);
    } else {
      assert items[..i] == items;
    }
  }
}
