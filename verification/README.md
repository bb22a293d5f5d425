# pelican-add-css-classes, modelled in Dafny

The Pelican plugin `add_css_classes` adds CSS classes to the HTML of generated pages and articles.
The site configuration maps CSS selectors to lists of class names. A site-wide mapping
(`ADD_CSS_CLASSES`) can be overridden per selector for pages (`ADD_CSS_CLASSES_TO_PAGE`) and for
articles (`ADD_CSS_CLASSES_TO_ARTICLE`).

The model covers the three pieces of `pelican/plugins/add_css_classes/add_css_classes.py` that
carry logic, plus the guard of the content hook:

- `merge_replacements` (module `Merge`): an unknown content type raises `ValueError`. Otherwise
  the site-wide mapping is copied and the override of that content type is applied with
  `dict.update`.
- `add_css_classes_for_selector` (module `Documents`): every element the selector matches gets
  its old class list (empty when the attribute is absent) followed by the configured classes.
- `add_css_classes` (module `Plugin`): a configuration that is not a dict raises `ValueError`.
  Otherwise the content is parsed once, the previous step runs once per entry in iteration order,
  and the document is serialised.
- `pelican_add_css_classes` (module `Plugin`): the transform runs only when the merged mapping has
  entries.

Representation choices:

- A Python dict is an insertion-ordered association list with distinct keys (`Dicts.Dict`).
  `add_css_classes` iterates the dict in that order, and the order decides in which order classes
  are appended. `Dicts.Update` follows `dict.update`: an existing key keeps its position, and a
  new key is appended. `Dicts.ToMap` gives the order-free view.
- A parsed document is the sequence of its elements in document order (`Documents.Document`).
  Each element has its tag name, the position of its enclosing element, an optional class
  attribute, its other attributes and its own text. Everything but the class attribute is kept
  unchanged and is not interpreted.
- Selector matching is the uninterpreted parameter `Matcher`: `matcher(selector, doc, i)` says
  whether element `i` of `doc` is among those `doc.select(selector)` returns. Matching is
  evaluated on the document as it stands before the selector is applied, because `select`
  returns its whole list before the loop changes anything. A later entry therefore sees the
  classes added by earlier entries. `Plugin.ApplyAllClasses` states the result in that general
  form. `Plugin.ApplyAllClassesInsensitive` gives the closed form for matchers that ignore class
  attributes (`ClassInsensitive`): original classes followed by the classes of every matching
  entry, in entry order.
- Parsing (`BeautifulSoup(content, "html.parser")`) and serialising (`soup.decode()`) are the
  function parameters `parse` and `decode`.
- The plugin's own exceptions are `ValueError(message)`. The messages are built from the same
  constants as the source's f-strings. A settings value without the dict method the code calls
  (`copy` on `None`, `update` on a list) gives `AttributeError(attribute)`.

Behaviour of the code worth knowing, all of it modelled as written:

- With an empty class list, a matched element without a class attribute still gets an empty one,
  because line 21 assigns `item.attrs["class"] = []` (`Documents.AppendNothing`).
- `add_css_classes` has no empty-configuration short-cut. Called with an empty dict, it still
  parses and re-serialises (`Plugin.AddCssClasses`). The guard that skips parsing is in
  `pelican_add_css_classes` (line 79).
- `merge_replacements` checks only the content type. The only dict check is the one in
  `add_css_classes` (line 35). A non-empty site-wide list, when no override applies, is refused
  there, after the merge. With a truthy override, any site-wide list, empty or not, fails
  earlier, on `update` inside the merge. With no truthy override, an empty list is skipped by the
  guard at line 79.
- Appending classes is not idempotent. For selectors that ignore class attributes, applying the
  same selector twice appends the classes twice (`Documents.AppendTwice`).

## Model

| member | source | states |
|---|---|---|
| `Dicts.Set` | pelican/plugins/add_css_classes/add_css_classes.py:60 | storing one entry, as `dict.update` does for each entry of the override: an existing key keeps its position, a new key is appended; that key now maps to the new value and every other key keeps its old one |
| `Dicts.Update` | pelican/plugins/add_css_classes/add_css_classes.py:60 | after `dict.update`, the key set is the union of both key sets; a key of the override maps to the override's value, and any other key keeps its old value |
| `Dicts.UpdateKeyOrder` | pelican/plugins/add_css_classes/add_css_classes.py:60 | `dict.update` keeps every existing key in its position and appends the new keys in the override's order |
| `Dicts.UpdateAsMap` | pelican/plugins/add_css_classes/add_css_classes.py:57-63 | seen as plain maps, copying and then updating is the union in which the override wins |
| `Merge.MergeReplacements` | pelican/plugins/add_css_classes/add_css_classes.py:46-65 | fails exactly when the content type is neither `pelican_page` nor `pelican_article`, with the fixed message, whatever the mappings; otherwise returns the base overlaid with the override of that content type only |
| `Merge.MergeSiteValue` | pelican/plugins/add_css_classes/add_css_classes.py:52-65 | for any site-wide value: an unknown content type fails with the content-type message first; then `None` fails on `copy`, a list fails on `update` exactly when the content type's override is truthy and is otherwise returned as it is, and a dict is overlaid with that override |
| `Merge.ContentTypeMessageNamesBoth` | pelican/plugins/add_css_classes/add_css_classes.py:52-55 | the content-type error message names both accepted values |
| `Merge.MergeIgnoresOtherOverride` | pelican/plugins/add_css_classes/add_css_classes.py:59-63 | for a page the article override never changes the result, and for an article the page override never does |
| `Merge.MergeWithoutOverrides` | pelican/plugins/add_css_classes/add_css_classes.py:57-65 | with both overrides absent or empty, the result is the base mapping |
| `Merge.MergeLookup` | pelican/plugins/add_css_classes/add_css_classes.py:57-63 | replace, not concatenate: a selector in the applied override maps to the override's classes, other selectors keep the base's, and the selectors are the union |
| `Merge.MergeKeyOrder` | pelican/plugins/add_css_classes/add_css_classes.py:57-63 | the merged mapping iterates the base's selectors in their order, then the override's new selectors in the override's order |
| `Merge.MergeAsMap` | pelican/plugins/add_css_classes/add_css_classes.py:57-63 | as plain maps, the merge is the base joined with the applied override, the override winning |
| `Merge.MergeEmptyIff` | pelican/plugins/add_css_classes/add_css_classes.py:57-65 | the merged mapping is empty exactly when the base is empty and the applied override is absent or empty |
| `Merge.InvalidContentTypeScenario` | pelican/plugins/add_css_classes/test_add_css_classes.py:63-67 | content type `"foo"` raises with the message `content_type must be "pelican_page" or "pelican_article".` |
| `Merge.FlatScenario` | pelican/plugins/add_css_classes/test_add_css_classes.py:70-76 | the `table` mapping with no overrides comes back unchanged |
| `Merge.PageScenario` | pelican/plugins/add_css_classes/test_add_css_classes.py:79-92 | for a page the result holds the `table` and `div` rules, in that order, and no `p` rule |
| `Merge.ArticleScenario` | pelican/plugins/add_css_classes/test_add_css_classes.py:95-108 | for an article the result holds the `table` and `p` rules, in that order, and no `div` rule |
| `Documents.Select` | pelican/plugins/add_css_classes/add_css_classes.py:19 | the matched elements are listed once each, in document order, all of them and only them |
| `Documents.ApplySelector` | pelican/plugins/add_css_classes/add_css_classes.py:16-21 | applying one selector changes nothing but class attributes and keeps the element count |
| `Documents.AddCssClassesForSelector` | pelican/plugins/add_css_classes/add_css_classes.py:16-21 | each matched element's class attribute becomes its old list (empty if absent) followed by `classes`; unmatched elements and all non-class data are unchanged |
| `Documents.NoMatchIsIdentity` | pelican/plugins/add_css_classes/add_css_classes.py:19-21 | a selector that matches nothing leaves the document unchanged |
| `Documents.AppendNothing` | pelican/plugins/add_css_classes/add_css_classes.py:20-21 | an empty `classes` keeps every class list; the only change is an empty class attribute on matched elements that had none |
| `Documents.AppendTwice` | pelican/plugins/add_css_classes/add_css_classes.py:20-21 | for selectors that ignore class attributes, applying the same selector and classes twice gives `old ++ classes ++ classes`, so with non-empty classes the second application changes the document again |
| `Documents.TableScenario` | pelican/plugins/add_css_classes/test_add_css_classes.py:49-51 | a class-less table matched by `table` ends with classes exactly `["table", "table-fluid"]` |
| `Plugin.ApplyAll` | pelican/plugins/add_css_classes/add_css_classes.py:40-41 | applying all entries in turn changes nothing but class attributes and keeps the element count |
| `Plugin.ApplyAllSnoc` | pelican/plugins/add_css_classes/add_css_classes.py:40-41 | the entries are applied in iteration order: one more entry acts on the document the earlier entries left |
| `Plugin.ApplyAllClasses` | pelican/plugins/add_css_classes/add_css_classes.py:38-41 | each element ends with its original classes followed by the classes of every entry whose selector matched it when that entry ran, in entry order |
| `Plugin.ApplyAllClassesInsensitive` | pelican/plugins/add_css_classes/add_css_classes.py:38-41 | for selectors that ignore classes, each element ends with its original classes followed by the classes of every entry whose selector matches it in the original document, in entry order |
| `Plugin.AddCssClasses` | pelican/plugins/add_css_classes/add_css_classes.py:24-43 | fails exactly when the configuration is not a dict, with the message `ADD_CSS_CLASSES must be a dict`; otherwise it returns the serialisation of the parsed content with every entry applied in order |
| `Plugin.PelicanAddCssClasses` | pelican/plugins/add_css_classes/add_css_classes.py:68-80 | for a page or article with a dict as the site-wide value, it never fails: the content is returned untouched when that dict and the item's own override have no entries, and is otherwise transformed with the dict overlaid by that override. A missing site-wide value fails on `copy`. A list fails on `update` when the override is truthy; otherwise, if non-empty, it raises `ADD_CSS_CLASSES must be a dict`, which, among these three kinds of value, is the only way the hook raises that error |
| `Plugin.TableConfigurationScenario` | pelican/plugins/add_css_classes/test_add_css_classes.py:54-60 | with configuration `{"table": ["table", "table-fluid"]}`, a class-less table ends with exactly those classes |

## Left out

- HTML parsing and serialisation (`BeautifulSoup(..., "html.parser")`, `soup.decode()`) belong to an external library. They are the uninterpreted parameters `parse` and `decode`. Nothing is proved about lenient parsing or about reparsing the output, which the tests do.
- Where an element's text sits among its children is not represented: `text` is the element's own text as one string. So `decode` is an uninterpreted function of the elements, and no claim is made that it reproduces the library's serialisation.
- CSS selector syntax and matching (`content.select`) belong to the HTML library. Matching is the uninterpreted `Matcher`. A malformed selector, which makes the library raise, is not modelled: the matcher is total.
- Pelican glue is not modelled: `register`, the `content_object_init` signal, the `isinstance` test that skips `Static` items, `content.settings.get`, and writing the result back to `content._content`. The page/article decision enters as the flag `isPage`, and the result is returned instead of stored.
- Overrides are typed `Option<Replacements>`, so only a dict or `None` can be expressed. `dict.update` also accepts a list of `(selector, classes)` pairs, which would be merged like the dict of its pairs (the last pair winning on a repeated selector). Values that are not pairs would make `update` raise. Neither case is modelled.
- Plugin.PelicanAddCssClasses: a site-wide value other than a dict, a list or `None` is not modelled. A string, for example, has no `copy`. A non-empty set has `copy` and `update`, so it would also reach line 80 and raise the not-a-dict `ValueError`. The contract's "only way" claim therefore covers dicts, lists and `None` only.
- `classes` is any iterable in the source; a bare string, for example, would be split into characters by `list(classes)`. The model takes a sequence of class names.
- `Dicts.Dict` models the dict behaviour the plugin relies on: `copy` (a value copy), `update`, iteration order of `items()`, and truthiness through the length. `Get` and `Set` are the single-entry lookup and store used to define and characterise `update`.
