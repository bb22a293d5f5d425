/**
 The configuration resolver: `merge_replacements` layers the page- or
 article-specific replacements over the site-wide ones.
 */
module Merge {
  import opened Results
  import opened Dicts

  const PELICAN_PAGE: string := "pelican_page"
  const PELICAN_ARTICLE: string := "pelican_article"

  /** The message of the `ValueError` raised for an unknown content type. */
  const ContentTypeMessage: string :=
    "content_type must be \"" + PELICAN_PAGE + "\" or \"" + PELICAN_ARTICLE + "\"."

  /** A selector → classes configuration, in the order it was written. */
  type Replacements = Dict<string, seq<string>>

  /** Python truthiness of an optional dict: present and non-empty. */
  predicate Truthy(o: Option<Replacements>) {
    o.Some? && |o.value| > 0
  }

  /** The override a content type selects; the other one is never consulted. */
  function SelectedOverride(page: Option<Replacements>, article: Option<Replacements>, contentType: string)
    : Option<Replacements>
  {
    if contentType == PELICAN_PAGE then page
    else if contentType == PELICAN_ARTICLE then article
    else None
  }

  /** `base` with the entries of `o`, if any, written over it key by key. */
  function Overlay(base: Replacements, o: Option<Replacements>): Replacements {
    if o.Some? then Update(base, o.value) else base
  }

  /** `s` holds `t` as a contiguous piece. */
  predicate Mentions(s: string, t: string) {
    exists i | 0 <= i <= |s| :: t <= s[i..]
  }

  /**
   `merge_replacements`: an unknown content type is refused whatever the
   mappings; otherwise the result is the base overlaid with the override of
   that content type alone.
   */
  function MergeReplacements(
    replacements: Replacements,
    pageReplacements: Option<Replacements>,
    articleReplacements: Option<Replacements>,
    contentType: string
  ): (r: Result<Replacements>)
    ensures r.Err? <==> contentType != PELICAN_PAGE && contentType != PELICAN_ARTICLE
    ensures r.Err? ==> r.error == ValueError(ContentTypeMessage)
    ensures r.Ok? ==> r.value == Overlay(replacements, SelectedOverride(pageReplacements, articleReplacements, contentType))
  {
    if contentType != PELICAN_PAGE && contentType != PELICAN_ARTICLE then
      Err(ValueError(ContentTypeMessage))
    else
      var result := replacements;
      var result := if Truthy(pageReplacements) && contentType == PELICAN_PAGE
        then Update(result, pageReplacements.value) else result;
      var result := if Truthy(articleReplacements) && contentType == PELICAN_ARTICLE
        then Update(result, articleReplacements.value) else result;
      Ok(result)
  }

  /**
   The site-wide `ADD_CSS_CLASSES` value as the settings hand it over: a
   dict, a list (of selector/classes pairs, say) or `None` when the setting
   is missing. A list has `copy` but no `update`; `None` has neither.
   */
  datatype SiteValue = DictValue(entries: Replacements) | ListValue(items: seq<(string, seq<string>)>) | NoValue

  /** Python truthiness of a site-wide value. */
  predicate SiteTruthy(v: SiteValue) {
    match v
    case DictValue(d) => |d| > 0
    case ListValue(items) => |items| > 0
    case NoValue => false
  }

  /**
   `merge_replacements` on whatever the settings hold: the content type is
   checked first; then `None` fails on `copy`, and a list is copied but
   fails on `update` exactly when the override of the content type is
   truthy; a dict is merged as `MergeReplacements` does.
   */
  function MergeSiteValue(
    value: SiteValue,
    pageReplacements: Option<Replacements>,
    articleReplacements: Option<Replacements>,
    contentType: string
  ): (r: Result<SiteValue>)
    ensures contentType != PELICAN_PAGE && contentType != PELICAN_ARTICLE ==>
      r == Err(ValueError(ContentTypeMessage))
    ensures contentType == PELICAN_PAGE || contentType == PELICAN_ARTICLE ==>
      var o := SelectedOverride(pageReplacements, articleReplacements, contentType);
      r == match value
        case NoValue => Err(AttributeError("copy"))
        case ListValue(_) => if Truthy(o) then Err(AttributeError("update")) else Ok(value)
        case DictValue(d) => Ok(DictValue(Overlay(d, o)))
  {
    if value.DictValue? then
      var merged := MergeReplacements(value.entries, pageReplacements, articleReplacements, contentType);
      if merged.Ok? then Ok(DictValue(merged.value)) else Err(merged.error)
    else if contentType != PELICAN_PAGE && contentType != PELICAN_ARTICLE then
      Err(ValueError(ContentTypeMessage))
    else if value.NoValue? then
      Err(AttributeError("copy"))
    else if Truthy(pageReplacements) && contentType == PELICAN_PAGE then
      Err(AttributeError("update"))
    else if Truthy(articleReplacements) && contentType == PELICAN_ARTICLE then
      Err(AttributeError("update"))
    else
      Ok(value)
  }

  /** The error message names both accepted content types. */
  lemma ContentTypeMessageNamesBoth()
    ensures Mentions(ContentTypeMessage, PELICAN_PAGE)
    ensures Mentions(ContentTypeMessage, PELICAN_ARTICLE)
  {
    // 22 is |"content_type must be \""|, and 40 adds |PELICAN_PAGE + "\" or \""|.
    assert PELICAN_PAGE <= ContentTypeMessage[22..];
    assert PELICAN_ARTICLE <= ContentTypeMessage[40..];
  }

  /** A page never sees the article override, and an article never sees the page override. */
  lemma MergeIgnoresOtherOverride(
    base: Replacements,
    page: Option<Replacements>, page': Option<Replacements>,
    article: Option<Replacements>, article': Option<Replacements>
  )
    ensures MergeReplacements(base, page, article, PELICAN_PAGE)
         == MergeReplacements(base, page, article', PELICAN_PAGE)
         == Ok(Overlay(base, page))
    ensures MergeReplacements(base, page, article, PELICAN_ARTICLE)
         == MergeReplacements(base, page', article, PELICAN_ARTICLE)
         == Ok(Overlay(base, article))
  {
  }

  /** Without a usable override (absent or empty) the result is the base itself. */
  lemma MergeWithoutOverrides(
    base: Replacements, page: Option<Replacements>, article: Option<Replacements>, contentType: string
  )
    requires contentType == PELICAN_PAGE || contentType == PELICAN_ARTICLE
    requires !Truthy(page) && !Truthy(article)
    ensures MergeReplacements(base, page, article, contentType) == Ok(base)
  {
  }

  /**
   Replace, never concatenate: a selector the applied override names maps to
   the override's classes, any other selector keeps the base's, and the
   selectors of the result are those of the base and of the override.
   */
  lemma MergeLookup(
    base: Replacements, page: Option<Replacements>, article: Option<Replacements>, contentType: string
  )
    requires contentType == PELICAN_PAGE || contentType == PELICAN_ARTICLE
    ensures var o := SelectedOverride(page, article, contentType);
      var r := MergeReplacements(base, page, article, contentType).value;
      forall k ::
        && (k in Keys(r) <==> k in Keys(base) || (o.Some? && k in Keys(o.value)))
        && Get(r, k) == if o.Some? && k in Keys(o.value) then Get(o.value, k) else Get(base, k)
  {
  }

  /**
   Iteration order of the result: the base's selectors in their own order,
   then the override's new selectors in the override's order.
   */
  lemma MergeKeyOrder(
    base: Replacements, page: Option<Replacements>, article: Option<Replacements>, contentType: string
  )
    requires contentType == PELICAN_PAGE || contentType == PELICAN_ARTICLE
    ensures var o := SelectedOverride(page, article, contentType);
      var r := MergeReplacements(base, page, article, contentType).value;
      Keys(r) == Keys(base) + (if o.Some? then Fresh(Keys(o.value), Keys(base)) else [])
  {
    var o := SelectedOverride(page, article, contentType);
    if o.Some? {
      UpdateKeyOrder(base, o.value);
    }
  }

  /** As plain maps, the merge is the union in which the override wins. */
  lemma MergeAsMap(
    base: Replacements, page: Option<Replacements>, article: Option<Replacements>, contentType: string
  )
    requires contentType == PELICAN_PAGE || contentType == PELICAN_ARTICLE
    ensures var o := SelectedOverride(page, article, contentType);
      var r := MergeReplacements(base, page, article, contentType).value;
      ToMap(r) == ToMap(base) + (if o.Some? then ToMap(o.value) else map[])
  {
    var o := SelectedOverride(page, article, contentType);
    if o.Some? {
      UpdateAsMap(base, o.value);
    } else {
      assert ToMap(base) + map[] == ToMap(base);
    }
  }

  /** The merged mapping is empty exactly when the base and the selected override both are. */
  lemma MergeEmptyIff(
    base: Replacements, page: Option<Replacements>, article: Option<Replacements>, contentType: string
  )
    requires contentType == PELICAN_PAGE || contentType == PELICAN_ARTICLE
    ensures |MergeReplacements(base, page, article, contentType).value| == 0
        <==> |base| == 0 && !Truthy(SelectedOverride(page, article, contentType))
  {
    var o := SelectedOverride(page, article, contentType);
    if o.Some? {
      UpdateEmptyIff(base, o.value);
    }
  }

  /** Test scenario: an unknown content type raises with the exact message. */
  lemma InvalidContentTypeScenario()
    ensures MergeReplacements([("table", ["table", "table-fluid"])], None, None, "foo")
         == Err(ValueError("content_type must be \"pelican_page\" or \"pelican_article\"."))
  {
    assert |"foo"| != |PELICAN_PAGE| && |"foo"| != |PELICAN_ARTICLE|;
    ContentTypeMessageText();
  }

  /** The content-type message spelled out. */
  lemma ContentTypeMessageText()
    ensures ContentTypeMessage == "content_type must be \"pelican_page\" or \"pelican_article\"."
  {
  }

  /** Test scenario: no overrides, the base comes back. */
  lemma FlatScenario()
    ensures MergeReplacements([("table", ["table", "table-fluid"])], None, None, PELICAN_PAGE)
         == Ok([("table", ["table", "table-fluid"])])
  {
  }

  /** Test scenario: a page takes the `div` rule and not the `p` rule. */
  lemma PageScenario()
    ensures MergeReplacements(
              [("table", ["table", "table-fluid"])],
              Some([("div", ["page_div_class"])]),
              Some([("p", ["article_p_class"])]),
              PELICAN_PAGE)
         == Ok([("table", ["table", "table-fluid"]), ("div", ["page_div_class"])])
  {
    var base: Replacements := [("table", ["table", "table-fluid"])];
    var page: Replacements := [("div", ["page_div_class"])];
    var article: Replacements := [("p", ["article_p_class"])];
    var o := page;
    OverlayOneNewKey(base, o);
    assert SelectedOverride(Some(page), Some(article), PELICAN_PAGE) == Some(o);
    assert base + o == [("table", ["table", "table-fluid"]), ("div", ["page_div_class"])];
  }

  /** Test scenario: an article takes the `p` rule and not the `div` rule. */
  lemma ArticleScenario()
    ensures MergeReplacements(
              [("table", ["table", "table-fluid"])],
              Some([("div", ["page_div_class"])]),
              Some([("p", ["article_p_class"])]),
              PELICAN_ARTICLE)
         == Ok([("table", ["table", "table-fluid"]), ("p", ["article_p_class"])])
  {
    var base: Replacements := [("table", ["table", "table-fluid"])];
    var page: Replacements := [("div", ["page_div_class"])];
    var article: Replacements := [("p", ["article_p_class"])];
    var o := article;
    OverlayOneNewKey(base, o);
    assert SelectedOverride(Some(page), Some(article), PELICAN_ARTICLE) == Some(o);
    assert base + o == [("table", ["table", "table-fluid"]), ("p", ["article_p_class"])];
  }

  /** Overlaying a one-entry override whose selector is new appends that entry. */
  lemma OverlayOneNewKey(base: Replacements, o: Replacements)
    requires |o| == 1 && o[0].0 !in Keys(base)
    ensures Overlay(base, Some(o)) == base + o
  {
    assert o[1..] == [];
    assert Update(base, o) == Update(Set(base, o[0].0, o[0].1), []);
    SetNewKey(base, o[0].0, o[0].1);
    assert o == [(o[0].0, o[0].1)];
  }
}
