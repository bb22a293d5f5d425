/**
 The fragment transformer and the content hook: `add_css_classes` applies
 every configured selector, in iteration order, to one parsed document, and
 `pelican_add_css_classes` runs it on a content item only when the merged
 configuration has entries. Parsing and serialising belong to the HTML
 library and are passed in as `parse` and `decode`.
 */
module Plugin {
  import opened Results
  import opened Dicts
  import opened Documents
  import opened Merge

  const ADD_CSS_CLASSES_KEY: string := "ADD_CSS_CLASSES"

  /** The message of the `ValueError` raised for a configuration that is not a dict. */
  const NotADictMessage: string := ADD_CSS_CLASSES_KEY + " must be a dict"

  /** A configuration value as Python hands it over: a dict, or any other value. */
  datatype Setting = Mapping(entries: Replacements) | NotMapping

  /**
   The loop of `add_css_classes`: `add_css_classes_for_selector` once per
   entry, in order, each on the document the previous entries left.
   */
  function ApplyAll(doc: Document, matcher: Matcher, entries: seq<(string, seq<string>)>): (r: Document)
    ensures SameShape(r, doc)
    decreases |entries|
  {
    if |entries| == 0 then doc
    else ApplyAll(ApplySelector(doc, matcher, entries[0].0, entries[0].1), matcher, entries[1..])
  }

  /**
   The classes the entries add to element `i`, in entry order, where each
   entry's selector is matched against the document the entries before it
   produced.
   */
  function AddedAlong(doc: Document, matcher: Matcher, entries: seq<(string, seq<string>)>, i: nat): seq<string>
    decreases |entries|
  {
    if |entries| == 0 then []
    else
      var before := entries[..|entries| - 1];
      var last := entries[|entries| - 1];
      AddedAlong(doc, matcher, before, i)
        + (if matcher(last.0, ApplyAll(doc, matcher, before), i) then last.1 else [])
  }

  /** The classes of the entries whose selector matches element `i` of `doc` itself, in entry order. */
  function Added(doc: Document, matcher: Matcher, entries: seq<(string, seq<string>)>, i: nat): seq<string>
    decreases |entries|
  {
    if |entries| == 0 then []
    else
      var before := entries[..|entries| - 1];
      var last := entries[|entries| - 1];
      Added(doc, matcher, before, i) + (if matcher(last.0, doc, i) then last.1 else [])
  }

  /** Folding one more entry is applying that entry to the result of the others. */
  lemma {:induction false} ApplyAllSnoc(
    doc: Document, matcher: Matcher, entries: seq<(string, seq<string>)>, e: (string, seq<string>)
  )
    ensures ApplyAll(doc, matcher, entries + [e]) == ApplySelector(ApplyAll(doc, matcher, entries), matcher, e.0, e.1)
    decreases |entries|
  {
    if |entries| > 0 {
      var next := ApplySelector(doc, matcher, entries[0].0, entries[0].1);
      assert (entries + [e])[0] == entries[0];
      assert (entries + [e])[1..] == entries[1..] + [e];
      ApplyAllSnoc(next, matcher, entries[1..], e);
    } else {
      assert [e][1..] == [];
    }
  }

  /**
   Each element ends with its original classes followed by the classes of
   every entry whose selector matched it when that entry was applied, in
   entry order.
   */
  lemma {:induction false} ApplyAllClasses(
    doc: Document, matcher: Matcher, entries: seq<(string, seq<string>)>, i: nat
  )
    requires i < |doc|
    ensures ClassList(ApplyAll(doc, matcher, entries)[i]) == ClassList(doc[i]) + AddedAlong(doc, matcher, entries, i)
    decreases |entries|
  {
    if |entries| == 0 {
      assert ClassList(doc[i]) + [] == ClassList(doc[i]);
    } else {
      var before := entries[..|entries| - 1];
      var last := entries[|entries| - 1];
      assert entries == before + [last];
      ApplyAllSnoc(doc, matcher, before, last);
      ApplyAllClasses(doc, matcher, before, i);
      var mid := ApplyAll(doc, matcher, before);
      assert ApplySelector(mid, matcher, last.0, last.1)[i] == ApplyAt(mid, matcher, last.0, last.1, i);
    }
  }

  /** When matching ignores classes, what each entry matches is fixed by the original document. */
  lemma {:induction false} AddedAlongInsensitive(
    doc: Document, matcher: Matcher, entries: seq<(string, seq<string>)>, i: nat
  )
    requires ClassInsensitive(matcher)
    ensures AddedAlong(doc, matcher, entries, i) == Added(doc, matcher, entries, i)
    decreases |entries|
  {
    if |entries| > 0 {
      var before := entries[..|entries| - 1];
      AddedAlongInsensitive(doc, matcher, before, i);
      var mid := ApplyAll(doc, matcher, before);
      assert SameShape(mid, doc);
      assert matcher(entries[|entries| - 1].0, mid, i) == matcher(entries[|entries| - 1].0, doc, i);
    }
  }

  /**
   For a matcher that ignores classes, each element ends with its original
   classes followed by the classes of every entry whose selector matches it,
   in entry order.
   */
  lemma ApplyAllClassesInsensitive(
    doc: Document, matcher: Matcher, entries: seq<(string, seq<string>)>, i: nat
  )
    requires ClassInsensitive(matcher)
    requires i < |doc|
    ensures ClassList(ApplyAll(doc, matcher, entries)[i]) == ClassList(doc[i]) + Added(doc, matcher, entries, i)
  {
    ApplyAllClasses(doc, matcher, entries, i);
    AddedAlongInsensitive(doc, matcher, entries, i);
  }

  /**
   `add_css_classes`: a configuration that is not a dict is refused;
   otherwise the content is parsed once, every entry is applied in order and
   the document is serialised.
   */
  function AddCssClasses(
    content: string, replacements: Setting,
    parse: string -> Document, decode: Document -> string, matcher: Matcher
  ): (r: Result<string>)
    ensures r.Err? <==> replacements.NotMapping?
    ensures r.Err? ==> r.error == ValueError(NotADictMessage)
    ensures r.Ok? ==> r.value == decode(ApplyAll(parse(content), matcher, replacements.entries))
  {
    if !replacements.Mapping? then Err(ValueError(NotADictMessage))
    else
      var soup := parse(content);
      var soup := ApplyAll(soup, matcher, replacements.entries);
      Ok(decode(soup))
  }

  /** The content type of an item that is not static: a page or otherwise an article. */
  function ContentTypeOf(isPage: bool): (t: string)
    ensures t == PELICAN_PAGE || t == PELICAN_ARTICLE
    ensures t == PELICAN_PAGE <==> isPage
  {
    if isPage then PELICAN_PAGE else PELICAN_ARTICLE
  }

  /** The value `add_css_classes` receives: a dict, or something that is not one. */
  function AsSetting(v: SiteValue): Setting {
    if v.DictValue? then Mapping(v.entries) else NotMapping
  }

  /**
   `pelican_add_css_classes` for a page or article. With a dict as the
   site-wide value it never raises: the content is returned untouched (and
   never parsed) when neither that dict nor the item's own override has
   entries, and is otherwise transformed with the merged mapping. A missing
   site-wide value fails on `copy`; a list fails on `update` when the override
   is applied, and otherwise, when non-empty, reaches `add_css_classes`, which
   refuses it.
   */
  function PelicanAddCssClasses(
    content: string,
    replacements: SiteValue, pageReplacements: Option<Replacements>, articleReplacements: Option<Replacements>,
    isPage: bool,
    parse: string -> Document, decode: Document -> string, matcher: Matcher
  ): (r: Result<string>)
    ensures var o := if isPage then pageReplacements else articleReplacements;
      match replacements
      case NoValue => r == Err(AttributeError("copy"))
      case ListValue(items) =>
        r == if Truthy(o) then Err(AttributeError("update"))
             else if |items| > 0 then Err(ValueError(NotADictMessage))
             else Ok(content)
      case DictValue(d) =>
        && r.Ok?
        && (|d| == 0 && !Truthy(o) ==> r.value == content)
        && (|d| > 0 || Truthy(o) ==>
              r == AddCssClasses(content, Mapping(Overlay(d, o)), parse, decode, matcher))
    ensures var o := if isPage then pageReplacements else articleReplacements;
      r == Err(ValueError(NotADictMessage)) <==>
      replacements.ListValue? && |replacements.items| > 0 && !Truthy(o)
  {
    var contentType := ContentTypeOf(isPage);
    var merged := MergeSiteValue(replacements, pageReplacements, articleReplacements, contentType);
    if merged.Err? then Err(merged.error)
    // Lines 79-80: only a truthy merged value is handed to the transform.
    else if SiteTruthy(merged.value) then AddCssClasses(content, AsSetting(merged.value), parse, decode, matcher)
    else Ok(content)
  }

  /**
   Test scenario: with `{"table": ["table", "table-fluid"]}` a class-less
   table element ends with exactly those classes.
   */
  lemma TableConfigurationScenario(doc: Document, matcher: Matcher, i: nat)
    requires i < |doc| && doc[i].classAttr == None && matcher("table", doc, i)
    ensures ApplyAll(doc, matcher, [("table", ["table", "table-fluid"])])[i].classAttr
            == Some(["table", "table-fluid"])
  {
    var entries := [("table", ["table", "table-fluid"])];
    assert entries[1..] == [];
    TableScenario(doc, matcher, i);
  }
}
