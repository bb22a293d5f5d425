/**
 The selector-match mutator: appending CSS classes to every element a
 selector matches. The parsed document is kept abstract as the sequence of
 its elements in document order, and selector matching (delegated to the
 HTML library in the plugin) is an uninterpreted `Matcher`.
 */
module Documents {
  import opened Results

  /**
   One parsed element. `name` is its tag name, `parent` the position in the
   document of the element that encloses it (`None` at the top level),
   `classAttr` its `class` attribute (`None` when the element has none),
   `attrs` its other attributes and `text` its own text content. Its
   children are the later entries of the document whose `parent` is its
   position.
   */
  datatype Element = Element(
    name: string, parent: Option<nat>, classAttr: Option<seq<string>>, attrs: map<string, string>, text: string
  )

  type Document = seq<Element>

  /**
   `matcher(selector, doc, i)` holds when element `i` of `doc` is among the
   elements `doc.select(selector)` returns. Matching sees the whole
   document, with each element's enclosing element, so descendant and class
   selectors can be expressed.
   */
  type Matcher = (string, Document, nat) -> bool

  /** `item.attrs.get("class", [])`: the element's classes, an absent attribute read as empty. */
  function ClassList(e: Element): seq<string> {
    e.classAttr.GetOr([])
  }

  /** `a` and `b` agree on everything except their `class` attribute. */
  predicate SameExceptClass(a: Element, b: Element) {
    a.name == b.name && a.parent == b.parent && a.attrs == b.attrs && a.text == b.text
  }

  /** Two documents differ at most in the `class` attributes of their elements. */
  ghost predicate SameShape(d1: Document, d2: Document) {
    |d1| == |d2| && forall i | 0 <= i < |d1| :: SameExceptClass(d1[i], d2[i])
  }

  /**
   A matcher whose selectors never look at `class` attributes (tag, id and
   structural selectors, and attribute selectors on attributes other than
   `class`): what it matches cannot be changed by adding classes.
   */
  ghost predicate ClassInsensitive(matcher: Matcher) {
    forall s, d1, d2, i | SameShape(d1, d2) :: matcher(s, d1, i) == matcher(s, d2, i)
  }

  /** The element with `classes` written after its existing classes. */
  function AppendClasses(e: Element, classes: seq<string>): Element {
    e.(classAttr := Some(ClassList(e) + classes))
  }

  /**
   The indices, in document order, of the elements `selector` matches at or
   after `start`: the list `doc.select(selector)` returns, taken in full
   before any element is changed.
   */
  function SelectFrom(doc: Document, matcher: Matcher, selector: string, start: nat): (r: seq<nat>)
    requires start <= |doc|
    ensures forall k | 0 <= k < |r| :: start <= r[k] < |doc| && matcher(selector, doc, r[k])
    ensures forall i | start <= i < |doc| && matcher(selector, doc, i) :: i in r
    ensures forall j, k | 0 <= j < k < |r| :: r[j] < r[k]
    decreases |doc| - start
  {
    if start == |doc| then []
    else (if matcher(selector, doc, start) then [start] else []) + SelectFrom(doc, matcher, selector, start + 1)
  }

  function Select(doc: Document, matcher: Matcher, selector: string): (r: seq<nat>)
    ensures forall k | 0 <= k < |r| :: r[k] < |doc| && matcher(selector, doc, r[k])
    ensures forall i | 0 <= i < |doc| && matcher(selector, doc, i) :: i in r
    ensures forall j, k | 0 <= j < k < |r| :: r[j] < r[k]
  {
    SelectFrom(doc, matcher, selector, 0)
  }

  /** Element `i` after `add_css_classes_for_selector(doc, selector, classes)`. */
  function ApplyAt(doc: Document, matcher: Matcher, selector: string, classes: seq<string>, i: nat): (e: Element)
    requires i < |doc|
    ensures SameExceptClass(e, doc[i])
  {
    if matcher(selector, doc, i) then AppendClasses(doc[i], classes) else doc[i]
  }

  /** The document after `add_css_classes_for_selector(doc, selector, classes)`. */
  function ApplySelector(doc: Document, matcher: Matcher, selector: string, classes: seq<string>): (r: Document)
    ensures SameShape(r, doc)
  {
    seq(|doc|, i requires 0 <= i < |doc| => ApplyAt(doc, matcher, selector, classes, i))
  }

  /**
   The loop of `add_css_classes_for_selector`: every element the selector
   matches gets its old class list followed by `classes`; every other
   element, and everything but the class attribute, is left as it was.
   */
  method AddCssClassesForSelector(doc: Document, matcher: Matcher, selector: string, classes: seq<string>)
    returns (r: Document)
    ensures |r| == |doc|
    ensures forall i | 0 <= i < |doc| :: SameExceptClass(r[i], doc[i])
    ensures forall i | 0 <= i < |doc| && matcher(selector, doc, i) ::
      r[i].classAttr == Some(ClassList(doc[i]) + classes)
    ensures forall i | 0 <= i < |doc| && !matcher(selector, doc, i) :: r[i] == doc[i]
    ensures r == ApplySelector(doc, matcher, selector, classes)
  {
    var items := Select(doc, matcher, selector);
    r := doc;
    var k := 0;
    AppendedAtNothing(doc, classes);
    while k < |items|
      invariant k <= |items|
      invariant r == AppendedAt(doc, items[..k], classes)
    {
      var item := items[k];
      AppendedAtStep(doc, items, k, classes);
      var attributeSet := ClassList(r[item]) + classes;
      r := r[item := r[item].(classAttr := Some(attributeSet))];
      k := k + 1;
    }
    assert items[..k] == items;
    AppendedAtSelected(doc, matcher, selector, classes);
  }

  /** The document with the elements at the indices `done` given `classes`, the others as they were. */
  function AppendedAt(doc: Document, done: seq<nat>, classes: seq<string>): (r: Document)
    ensures |r| == |doc|
  {
    seq(|doc|, i requires 0 <= i < |doc| => AppendedAtOne(doc, done, classes, i))
  }

  function AppendedAtOne(doc: Document, done: seq<nat>, classes: seq<string>, i: nat): Element
    requires i < |doc|
  {
    if i in done then AppendClasses(doc[i], classes) else doc[i]
  }

  lemma AppendedAtNothing(doc: Document, classes: seq<string>)
    ensures AppendedAt(doc, [], classes) == doc
  {
    var r := AppendedAt(doc, [], classes);
    forall i | 0 <= i < |doc|
      ensures r[i] == doc[i]
    {
      assert r[i] == AppendedAtOne(doc, [], classes, i);
    }
  }

  /** One more index of a strictly increasing list: that element, still untouched, gets the classes. */
  lemma AppendedAtStep(doc: Document, items: seq<nat>, k: nat, classes: seq<string>)
    requires k < |items| && items[k] < |doc|
    requires forall j, l | 0 <= j < l < |items| :: items[j] < items[l]
    ensures AppendedAt(doc, items[..k], classes)[items[k]] == doc[items[k]]
    ensures AppendedAt(doc, items[..k + 1], classes)
         == AppendedAt(doc, items[..k], classes)[items[k] := AppendClasses(doc[items[k]], classes)]
  {
    var before := AppendedAt(doc, items[..k], classes);
    var after := AppendedAt(doc, items[..k + 1], classes);
    assert items[..k + 1] == items[..k] + [items[k]];
    assert items[k] !in items[..k];
    assert before[items[k]] == AppendedAtOne(doc, items[..k], classes, items[k]);
    forall i | 0 <= i < |doc|
      ensures after[i] == before[items[k] := AppendClasses(doc[items[k]], classes)][i]
    {
      assert after[i] == AppendedAtOne(doc, items[..k + 1], classes, i);
      assert before[i] == AppendedAtOne(doc, items[..k], classes, i);
    }
  }

  /** Giving the classes to every selected element is applying the selector. */
  lemma AppendedAtSelected(doc: Document, matcher: Matcher, selector: string, classes: seq<string>)
    ensures var r := AppendedAt(doc, Select(doc, matcher, selector), classes);
      && r == ApplySelector(doc, matcher, selector, classes)
      && (forall i | 0 <= i < |doc| && matcher(selector, doc, i) ::
            r[i].classAttr == Some(ClassList(doc[i]) + classes))
      && (forall i | 0 <= i < |doc| && !matcher(selector, doc, i) :: r[i] == doc[i])
  {
    var items := Select(doc, matcher, selector);
    var r := AppendedAt(doc, items, classes);
    var a := ApplySelector(doc, matcher, selector, classes);
    forall i | 0 <= i < |doc|
      ensures r[i] == a[i] == ApplyAt(doc, matcher, selector, classes, i)
    {
      assert r[i] == AppendedAtOne(doc, items, classes, i);
      assert a[i] == ApplyAt(doc, matcher, selector, classes, i);
    }
  }

  /** A selector that matches nothing leaves the document exactly as it was. */
  lemma NoMatchIsIdentity(doc: Document, matcher: Matcher, selector: string, classes: seq<string>)
    requires forall i | 0 <= i < |doc| :: !matcher(selector, doc, i)
    ensures ApplySelector(doc, matcher, selector, classes) == doc
  {
  }

  /**
   Appending no classes keeps every class list, but a matched element that
   had no `class` attribute now carries an empty one.
   */
  lemma AppendNothing(doc: Document, matcher: Matcher, selector: string)
    ensures var r := ApplySelector(doc, matcher, selector, []);
      forall i | 0 <= i < |doc| ::
        && ClassList(r[i]) == ClassList(doc[i])
        && r[i] == if matcher(selector, doc, i) && doc[i].classAttr.None?
                   then doc[i].(classAttr := Some([])) else doc[i]
  {
    var r := ApplySelector(doc, matcher, selector, []);
    forall i | 0 <= i < |doc|
      ensures ClassList(r[i]) == ClassList(doc[i])
    {
      assert ClassList(doc[i]) + [] == ClassList(doc[i]);
    }
  }

  /**
   Appending is not idempotent: applying the same selector and classes
   twice leaves the classes twice on every matched element, so with a
   non-empty class list the second application changes the document again.
   */
  lemma AppendTwice(doc: Document, matcher: Matcher, selector: string, classes: seq<string>)
    requires ClassInsensitive(matcher)
    ensures var once := ApplySelector(doc, matcher, selector, classes);
      var twice := ApplySelector(once, matcher, selector, classes);
      && (forall i | 0 <= i < |doc| && matcher(selector, doc, i) ::
            ClassList(twice[i]) == ClassList(doc[i]) + classes + classes)
      && (|classes| > 0 && (exists i | 0 <= i < |doc| :: matcher(selector, doc, i)) ==> twice != once)
  {
    var once := ApplySelector(doc, matcher, selector, classes);
    var twice := ApplySelector(once, matcher, selector, classes);
    forall i | 0 <= i < |doc| && matcher(selector, doc, i)
      ensures ClassList(twice[i]) == ClassList(doc[i]) + classes + classes
    {
      assert matcher(selector, once, i);
    }
    if |classes| > 0 && exists i | 0 <= i < |doc| :: matcher(selector, doc, i) {
      var i :| 0 <= i < |doc| && matcher(selector, doc, i);
      assert matcher(selector, once, i);
      assert |ClassList(twice[i])| > |ClassList(once[i])|;
    }
  }

  /** The scenario of the plugin's tests: a class-less `<table>` receives exactly the configured classes. */
  lemma TableScenario(doc: Document, matcher: Matcher, i: nat)
    requires i < |doc| && doc[i].classAttr == None && matcher("table", doc, i)
    ensures ApplySelector(doc, matcher, "table", ["table", "table-fluid"])[i].classAttr
            == Some(["table", "table-fluid"])
  {
    assert ClassList(doc[i]) + ["table", "table-fluid"] == ["table", "table-fluid"];
  }
}
