# UI catalogue logic, in Dafny

This project models the logic of a React component catalogue ("Ocean UI"). Most of
the catalogue is markup. The parts with behaviour are these four:

- **The table demos** (`TablesDemo.jsx`):
  - the HTML escaper for code snippets and the `<section>` snippet builder;
  - the sortable table: a header click chooses the column or flips the direction, and a stable, case-insensitive sort follows;
  - the search table: the query is trimmed and lower-cased, and rows match on a substring of the name or e-mail;
  - the paginated table: page arithmetic, Prev/Next, the clamp after a page-size change, and the set of selected row ids.
- **The component catalogue** (`uiCatalog.js`): six groups of items.
  - The sidebar's copy of them.
  - The flat anchor list, whose hrefs read `prefix + groupKey + "__" + slug`.
- **The button** (`Button.jsx`): from props to the class string and the `disabled`, `aria-disabled` and `aria-busy` flags.
- **The UI Blocks page** (`BlocksLibrary.js`):
  - the `<section>` wrapper every block snippet goes through;
  - the registry of 21 blocks and the demos map keyed by slug;
  - the default slug and the `?item=` query fallback;
  - the selection handler, and what the page shows for a slug.

Layout:

- `text.dfy` holds module `Text` and module `Optional`.
  - `Text` models the JavaScript string built-ins the code relies on: `replace` with a global pattern, `join`, `includes`, `trim`, ASCII `toLowerCase` and `<` on strings. It also defines `split`, which no page calls; it serves only to state `TablesMarkup.BuildSectionHtmlLines`, reading a snippet back into its lines.
  - `Optional` holds an `Option` type. `GetOr` on it models a parameter default or `||` fallback.
- `jsobject.dfy` models property lookup on a plain object literal. A lookup also finds the members of `Object.prototype` (ECMAScript 2023, section 20.1.3 and Annex B.2.2).
- `tables_markup.dfy`, `tables_sort.dfy`, `tables_filter.dfy` and `tables_pagination.dfy` hold the table demos. The state holders become classes: `SortableTable`, `FilterTable` and `PaginatedTable`.
- `uicatalog.dfy` holds the catalogue. `getAllComponentAnchors` is a method with the nested loops, proved against a recursive specification function.
- `button.dfy` holds the button.
- `blocks.dfy` holds the blocks page. The demos map is built by a loop; the selection lives in the class `BlocksPage`.

`wrapInSection` (BlocksLibrary.js:16-20) wraps unconditionally; `BlocksLibrary.WrapShape` proves that wrapping twice nests a second section.

## Model

| member | source | states |
|---|---|---|
| TablesMarkup.EscapeHtmlPerChar | ui_library_frontend/src/pages/Components/TablesDemo.jsx:29-34 | `&` is replaced first. So the three chained replacements map each input character to exactly one unit: its entity for `&`, `<`, `>`, the character itself otherwise. |
| TablesMarkup.EscapeHtmlRoundTrip | ui_library_frontend/src/pages/Components/TablesDemo.jsx:29-34 | Decoding `&lt;`, then `&gt;`, then `&amp;` gives back exactly the escaped text. |
| TablesMarkup.EscapeHtmlNoAngleBrackets | ui_library_frontend/src/pages/Components/TablesDemo.jsx:29-34 | The escaped text contains no `<` and no `>`. |
| TablesMarkup.EscapeHtmlLength | ui_library_frontend/src/pages/Components/TablesDemo.jsx:29-34 | Output length is the input length plus 4 per `&` and 3 per `<` and per `>`. |
| TablesMarkup.EscapeHtmlKeepsQuotes | ui_library_frontend/src/pages/Components/TablesDemo.jsx:29-34 | `"` and `'` occur as often after escaping as before. Text without `&`, `<`, `>` is returned unchanged. |
| TablesMarkup.BuildSectionHtmlShape | ui_library_frontend/src/pages/Components/TablesDemo.jsx:40-42 | The snippet is `<section>`, each line indented by two spaces, then `</section>`, all joined by newlines. No lines give `<section>\n</section>`. |
| TablesMarkup.BuildSectionHtmlLines | ui_library_frontend/src/pages/Components/TablesDemo.jsx:40-42 | When no line holds a newline, splitting the snippet on newlines gives the frame and each indented line back, in order. The page's own snippets pass lines that already hold newlines, so for them this reads lines back only up to those. |
| TablesMarkup.NoResultsExactlyWhenEmpty | ui_library_frontend/src/pages/Components/TablesDemo.jsx:296-310 | The filter snippet's rows are the "No results" row exactly when no row matched. |
| Text.TrimBlank | ui_library_frontend/src/pages/Components/TablesDemo.jsx:243-244 | `trim()` gives the empty string exactly when every character is white space. |
| Text.TrimIsSlice | ui_library_frontend/src/pages/Components/TablesDemo.jsx:243 | `trim()` returns a slice of its input that neither starts nor ends with white space. |
| Text.LowerIdempotent | ui_library_frontend/src/pages/Components/TablesDemo.jsx:243 | `toLowerCase()` leaves no upper-case letter. Applying it twice changes nothing. |
| Text.LessTrichotomy | ui_library_frontend/src/pages/Components/TablesDemo.jsx:117-118 | String `<` is a strict total order: exactly one of `a < b`, `a == b`, `b < a` holds. |
| Text.LessTransitive | ui_library_frontend/src/pages/Components/TablesDemo.jsx:117-118 | String `<` is transitive. |
| TablesSort.CompareConsistent | ui_library_frontend/src/pages/Components/TablesDemo.jsx:114-120 | The comparator is antisymmetric and returns 0 exactly on equal lower-cased keys. Ascending it is negative exactly when the first key sorts first. Descending is ascending with its arguments swapped. |
| TablesSort.CompareTransitive | ui_library_frontend/src/pages/Components/TablesDemo.jsx:114-120 | "May come first" under the comparator is transitive, so it is a valid sort order. |
| TablesSort.SortRowsSorted | ui_library_frontend/src/pages/Components/TablesDemo.jsx:112-122 | The sorted rows are in comparator order for the chosen column and direction. |
| TablesSort.SortRowsPermutation | ui_library_frontend/src/pages/Components/TablesDemo.jsx:112-122 | The sorted rows are a permutation of the input rows. |
| TablesSort.InsertStableSame | ui_library_frontend/src/pages/Components/TablesDemo.jsx:112-122 | Inserting a row puts it in front of the rows that have its key, which keep their order. |
| TablesSort.InsertStableOther | ui_library_frontend/src/pages/Components/TablesDemo.jsx:112-122 | Inserting a row leaves the rows of every other key as they were, in order. |
| TablesSort.SortRowsStable | ui_library_frontend/src/pages/Components/TablesDemo.jsx:112-122 | Rows with equal keys keep their relative order, as `Array.prototype.sort` guarantees. |
| TablesSort.NextSortSpec | ui_library_frontend/src/pages/Components/TablesDemo.jsx:124-131 | A click selects the clicked column. A new column resets the direction to ascending. The current column flips asc/desc, so two clicks on it restore the previous state. |
| TablesSort.SortableTable.ToggleSort | ui_library_frontend/src/pages/Components/TablesDemo.jsx:124-131 | The new `(sortBy, direction)` is the `NextSort` transition of the old state. |
| TablesSort.SortableTable.constructor | ui_library_frontend/src/pages/Components/TablesDemo.jsx:109-110 | The table starts sorted by name, ascending. |
| TablesFilter.FilterRowsSpec | ui_library_frontend/src/pages/Components/TablesDemo.jsx:245 | The filter keeps exactly the rows whose lower-cased name or e-mail contains the query. The result is a subsequence of the input, in the original order, and each matching row is kept as often as it occurs in the input. |
| TablesFilter.BlankQueryShowsAll | ui_library_frontend/src/pages/Components/TablesDemo.jsx:242-244 | A query of only white space shows all six rows. |
| TablesFilter.NonBlankQueryFilters | ui_library_frontend/src/pages/Components/TablesDemo.jsx:242-246 | Any other query normalises to a non-empty string and filters the data by it. |
| TablesFilter.FilterIgnoresCase | ui_library_frontend/src/pages/Components/TablesDemo.jsx:243-245 | A query and its lower-cased form show the same rows. |
| TablesFilter.TrimLower | ui_library_frontend/src/pages/Components/TablesDemo.jsx:243 | `trim` and `toLowerCase` commute. |
| TablesFilter.InitialRowsHtml | ui_library_frontend/src/pages/Components/TablesDemo.jsx:233-307 | With the empty query, `highlight` only escapes. The snippet then lists all six rows with names and e-mails escaped. |
| TablesFilter.FilterTable.SetQuery | ui_library_frontend/src/pages/Components/TablesDemo.jsx:255 | The search box's `onChange` stores the typed text as the query. |
| TablesFilter.FilterTable.constructor | ui_library_frontend/src/pages/Components/TablesDemo.jsx:240 | The query starts empty. |
| TablesPagination.TotalPagesSpec | ui_library_frontend/src/pages/Components/TablesDemo.jsx:346-347 | There is always at least one page. With rows, the pages hold them all and the last page is not empty. |
| TablesPagination.PageRowsSpec | ui_library_frontend/src/pages/Components/TablesDemo.jsx:348-349 | A page holds at most `size` rows: those from `start` up to `min(start + size, total)`. A page past the end is empty. Every page up to `totalPages` has a row. |
| TablesPagination.RowOnItsPage | ui_library_frontend/src/pages/Components/TablesDemo.jsx:347-349 | Row `i` is item `i % size` of page `i / size + 1`, and that page is within `totalPages`. |
| TablesPagination.PrevNextSpec | ui_library_frontend/src/pages/Components/TablesDemo.jsx:401-412 | Prev never goes below 1 and Next never beyond the last page. Each moves by one page unless at the edge, and they undo each other. |
| TablesPagination.ClampPageSpec | ui_library_frontend/src/pages/Components/TablesDemo.jsx:351-354 | After the clamp the page is in range. A page in range is kept, a page past the end becomes the last page, and the clamp is idempotent. |
| TablesPagination.ToggledSpec | ui_library_frontend/src/pages/Components/TablesDemo.jsx:356-363 | Toggling a row flips its id and keeps every other id. Toggling twice restores the set. |
| TablesPagination.ToggleAllUpdate | ui_library_frontend/src/pages/Components/TablesDemo.jsx:366-376 | The copy-then-`forEach` updater's result is the set with the page's ids all removed, or all added. |
| TablesPagination.ToggledAllSpec | ui_library_frontend/src/pages/Components/TablesDemo.jsx:365-376 | If every id on the page was selected, afterwards none is. Otherwise afterwards all are. Ids off the page keep their state. On an empty page nothing changes. |
| TablesPagination.PaginatedTable.constructor | ui_library_frontend/src/pages/Components/TablesDemo.jsx:342-344 | The table starts on page 1, with 3 rows per page and nothing selected. |
| TablesPagination.PaginatedTable.Prev | ui_library_frontend/src/pages/Components/TablesDemo.jsx:401 | The page becomes `max(1, page - 1)`. Size and selection are unchanged. |
| TablesPagination.PaginatedTable.Next | ui_library_frontend/src/pages/Components/TablesDemo.jsx:412 | The page becomes `min(totalPages, page + 1)`. Size and selection are unchanged. |
| TablesPagination.PaginatedTable.SetSize | ui_library_frontend/src/pages/Components/TablesDemo.jsx:388-394 | The size becomes the chosen option. Page and selection are unchanged. |
| TablesPagination.PaginatedTable.SyncPage | ui_library_frontend/src/pages/Components/TablesDemo.jsx:351-354 | The effect clamps the page to `totalPages`. Size and selection are unchanged. |
| TablesPagination.PaginatedTable.ToggleRow | ui_library_frontend/src/pages/Components/TablesDemo.jsx:356-363 | The selection becomes the toggled set. Page and size are unchanged. |
| TablesPagination.PaginatedTable.ToggleAllOnPage | ui_library_frontend/src/pages/Components/TablesDemo.jsx:365-376 | The selection becomes `ToggledAll` of the current page's ids. `allOnPageSelected` is read from the state before the update. Page and size are unchanged. |
| UiCatalog.SidebarGroupsSpec | ui_library_frontend/src/components/uiCatalog.js:129-135 | One sidebar group per catalogue group, in order, with the same key, label and items. |
| UiCatalog.GetAllComponentAnchors | ui_library_frontend/src/components/uiCatalog.js:142-156 | The nested loops yield the group-major anchor list. The prefix defaults to `#`. |
| UiCatalog.CollectAnchors | ui_library_frontend/src/components/uiCatalog.js:143-155 | The loops over any catalogue yield `AnchorsOf(prefix, catalog)`. |
| UiCatalog.AnchorCount | ui_library_frontend/src/components/uiCatalog.js:143-155 | There are exactly as many anchors as items. |
| UiCatalog.AnchorAt | ui_library_frontend/src/components/uiCatalog.js:143-155 | Item `j` of group `g` is anchor number `items before g + j`. Its fields come from the group and the item, and its href is `prefix + key + "__" + slug`. |
| UiCatalog.AnchorOrigin | ui_library_frontend/src/components/uiCatalog.js:143-155 | Every anchor comes from some item of some group. |
| UiCatalog.HrefInjective | ui_library_frontend/src/components/uiCatalog.js:151 | With no `_` in group keys, an href determines its group key and slug. |
| UiCatalog.AnchorHrefsDistinct | ui_library_frontend/src/components/uiCatalog.js:143-155 | In a well-formed catalogue no two anchors share an href. Well-formed means distinct, `_`-free keys and distinct slugs within each group. |
| UiCatalog.AnchorSlugsDistinct | ui_library_frontend/src/components/uiCatalog.js:143-155 | In a catalogue with distinct slugs no two anchors share a slug. |
| UiCatalog.CatalogSize | ui_library_frontend/src/components/uiCatalog.js:9-122 | The catalogue has six groups and 76 items. |
| UiCatalog.CatalogWellFormed | ui_library_frontend/src/components/uiCatalog.js:9-122 | The catalogue's keys are distinct and `_`-free, and its slugs are distinct within each group. |
| UiCatalog.CatalogSlugsDistinct | ui_library_frontend/src/components/uiCatalog.js:9-122 | All 76 slugs are distinct, across groups too. |
| UiCatalog.CatalogAnchorsDistinct | ui_library_frontend/src/components/uiCatalog.js:9-156 | The catalogue yields 76 anchors with pairwise distinct slugs and hrefs. |
| JsObjects.Get | ui_library_frontend/src/components/ui/Button.jsx:60-61 | `obj[key]` finds an own value exactly for own keys, and that value is `own[key]`. Any other key of `Object.prototype` finds that inherited member. It is `undefined` exactly for keys that are neither own nor inherited from `Object.prototype`. |
| JsObjects.GetAgreesWithGetOwn | ui_library_frontend/src/pages/BlocksLibrary.js:906 | Prototype lookup and own-key lookup differ exactly on inherited names the object does not own. |
| ButtonStyles.FallbackSpec | ui_library_frontend/src/components/ui/Button.jsx:39-61 | A known size or variant finds its own classes. Any other value falls back to the `md` and `primary` classes. The result is never empty. |
| ButtonStyles.ClassNameShape | ui_library_frontend/src/components/ui/Button.jsx:55-66 | The class string is base, size, variant, then ` w-full` exactly when `fullWidth`, then `className` when it is not empty, separated by single spaces. It always begins with the base classes. |
| ButtonStyles.DefaultClassName | ui_library_frontend/src/components/ui/Button.jsx:20-66 | With no props, the class string is base, `md` and `primary`. |
| ButtonStyles.RenderFlags | ui_library_frontend/src/components/ui/Button.jsx:32-87 | A loading button is disabled. `aria-disabled` equals `disabled`. A button is enabled only when neither disabled nor loading. `aria-busy` and the spinner follow `loading`. |
| ButtonStyles.RenderDefaults | ui_library_frontend/src/components/ui/Button.jsx:19-75 | With no props: `type="button"`, enabled, not busy, `md` and `primary` classes. |
| ButtonStyles.SizeConstructorAsWritten | ui_library_frontend/src/components/ui/Button.jsx:60 | As written, `size="constructor"` puts the inherited `Object` constructor's text where the size classes go. The corrected lookup uses `md`. |
| ButtonStyles.SizeConstructorFallsBack | ui_library_frontend/src/components/ui/Button.jsx:60 | With the own-key lookup, `size="constructor"` gives the `md` classes like any other unknown size. |
| ButtonStyles.AsWrittenAgreesOffPrototype | ui_library_frontend/src/components/ui/Button.jsx:60-61 | The written and corrected class strings agree on every size and variant that is not an `Object.prototype` name. |
| BlocksLibrary.WrapShape | ui_library_frontend/src/pages/BlocksLibrary.js:16-20 | The wrapper opens `<section class="…">` with the given class, or the default one, and a newline. Then come the markup, a newline and `</section>`. It always wraps, so wrapping twice nests a second section: it is not idempotent. |
| BlocksLibrary.UnwrapWrap | ui_library_frontend/src/pages/BlocksLibrary.js:16-20 | Reading a wrapped snippet back gives its class and markup, for any class without `"`. |
| BlocksLibrary.WrapInjective | ui_library_frontend/src/pages/BlocksLibrary.js:16-20 | Two snippets wrapped with the default class are equal only if their markup is. |
| BlocksLibrary.BlocksListWellFormed | ui_library_frontend/src/pages/BlocksLibrary.js:712-734 | The registry has 21 blocks with pairwise distinct, non-empty slugs and non-empty labels. |
| BlocksLibrary.BlocksSidebarGroups | ui_library_frontend/src/pages/BlocksLibrary.js:737-748 | One "ui-blocks"/"UI Blocks" group listing every block's label and slug, in order. |
| BlocksLibrary.BuildDemosMap | ui_library_frontend/src/pages/BlocksLibrary.js:750-759 | The `forEach` loop builds `DemosOf(blocks)`. |
| BlocksLibrary.DemosKeys | ui_library_frontend/src/pages/BlocksLibrary.js:750-759 | The demos map's keys are exactly the registry's slugs. |
| BlocksLibrary.DemosLastWins | ui_library_frontend/src/pages/BlocksLibrary.js:753-757 | A slug maps to the demo of the last block with that slug. With distinct slugs, every block finds its own demo. |
| BlocksLibrary.DemosWrapped | ui_library_frontend/src/pages/BlocksLibrary.js:754-756 | Every demo's snippet is its block's markup wrapped with the default section class. |
| BlocksLibrary.FindTitleSpec | ui_library_frontend/src/pages/BlocksLibrary.js:922-926 | `find` answers exactly for registered slugs, with the first matching block's label. With distinct slugs that is the block's own label. |
| BlocksLibrary.DefaultSlugIsHero | ui_library_frontend/src/pages/BlocksLibrary.js:882 | The default slug is the first block's, `hero`. |
| BlocksLibrary.ReadSlugFromUrl | ui_library_frontend/src/pages/BlocksLibrary.js:762-770 | The `item` query value is used when present and non-empty. Otherwise the default slug is used, including when the address cannot be read. |
| BlocksLibrary.ViewOfRegistered | ui_library_frontend/src/pages/BlocksLibrary.js:906-937 | A registered slug shows its card, titled with its label and holding its snippet. The caption reads "Selected: " and the label. |
| BlocksLibrary.ViewOfUnregistered | ui_library_frontend/src/pages/BlocksLibrary.js:906-937 | Any other slug shows the "No block selected" placeholder and the "Select a block from the sidebar" caption. |
| BlocksLibrary.ConstructorSlugAsWritten | ui_library_frontend/src/pages/BlocksLibrary.js:906-931 | As written, `?item=constructor` shows a card titled "Block" with no snippet. The corrected lookup shows the placeholder. |
| BlocksLibrary.ViewAgreesOffPrototype | ui_library_frontend/src/pages/BlocksLibrary.js:906 | The written and corrected views agree on every slug that is not an `Object.prototype` name. |
| BlocksLibrary.BlocksPage.constructor | ui_library_frontend/src/pages/BlocksLibrary.js:882-883 | The selection starts as the slug read from the address, falling back to the default slug. |
| BlocksLibrary.BlocksPage.HandleSelect | ui_library_frontend/src/pages/BlocksLibrary.js:892-904 | A string value becomes the selection. Any other value leaves it unchanged. |
| BlocksLibrary.BlocksPage.OnPopState | ui_library_frontend/src/pages/BlocksLibrary.js:886-890 | Back/forward navigation reads the slug from the address again. |

## Findings

| source | as written | input that shows it | evidently intended | confidence | as-written member | corrected member |
|---|---|---|---|---|---|---|
| ui_library_frontend/src/components/ui/Button.jsx:60-61 | `sizes[size] \|\| sizes.md` and `variants[variant] \|\| variants.primary` look the prop up on a plain object, so names inherited from `Object.prototype` are found | `<Button size="constructor">`: the class string holds the text of the `Object` function instead of `px-4 py-2 text-sm` | an unknown size or variant falls back to `md` / `primary` | not executed | ButtonStyles.SizeConstructorAsWritten | ButtonStyles.FallbackSpec |
| ui_library_frontend/src/pages/BlocksLibrary.js:906, 930-937 | `demosMap[selectedSlug]` on the plain object `{}` finds inherited members, which are truthy | `?item=constructor` (or `toString`, `__proto__`): a card titled "Block" with no preview and no snippet | a slug that is not a block shows the "No block selected" placeholder | not executed | BlocksLibrary.ConstructorSlugAsWritten | BlocksLibrary.ViewOfUnregistered |

The rest of the model uses the corrected own-key lookups: `ButtonStyles.ClassName` and `BlocksLibrary.ViewOf` / `BlocksPage.Current`.

## Left out

- `highlight` with a non-empty query (TablesDemo.jsx:235-236) builds a case-insensitive `RegExp` from the query. It is a parameter `regexPath` here, because a faithful model would need a regular-expression engine. Its escape pattern `/[.*+?^${}()|[\\]\\\\]/g` is a character class that ends at the `]` after `\\`, followed by the literal text `\\]`. It therefore matches a special character only when two backslashes and `]` follow it, so a query like `(` is left unescaped and makes an invalid expression. Only the empty-query branch is modelled.
- `toLowerCase` is modelled on ASCII letters only. Unicode case mapping is not modelled; the demo data is ASCII.
- A Dafny `char` is a Unicode scalar value, while JavaScript's `trim`, `<` and `length` work on UTF-16 code units. Characters outside the Basic Multilingual Plane therefore count differently; the demo data is ASCII.
- The row templates of the basic, sortable and paginated tables' snippets, the header buttons and the "Showing" caption markup are not modelled. Their data (which rows, in which order, which page) is modelled. The basic table's `slice(0, 4)` has no behaviour beyond slicing.
- JSX previews, the `SectionCard`/`BlockCard` tab switches, the arrow indicator and all other markup are presentation only.
- The markup each block factory produces is a parameter (`inner`). The 21 factories differ only in their hand-written markup, and all wrap it with the default section class.
- `BlockCard`'s copy handler (clipboard, DOM textarea fallback, `setTimeout`), `window.history.replaceState`, `URL` parsing, `scrollTo` and the `popstate` listener registration are browser I/O. The address's `item` value enters as an `Option<string>`; `None` stands for a missing value or an address that cannot be parsed.
- React hook scheduling (`useMemo`, `useEffect`, batched `setState`) is not modelled. Each handler is one atomic state update, and the page-clamp effect is the separate method `SyncPage`.
- `Button`'s `leftIcon`/`rightIcon` spans, `onClick` and the `...rest` spread are not modelled. A `rest` prop named like a modelled attribute would override it.
- The string an engine makes of an inherited function is a parameter (`text`) of the as-written button class string. The model states only where that string ends up, not what it is.
- Props passed as `undefined` take their defaults (`None`). Props of the wrong JavaScript type (a number as `className`, say) are outside the model.
- CodeViewer.js, Sidebar.js, ComponentsLibrary.js and the other pages are not part of this model.
