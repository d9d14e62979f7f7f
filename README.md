# Wakfu catalog crawler and items store, modelled in Dafny

This project models two parts of the Wakfu crafting helper.

- **The catalog crawler** (`public/test.php`). For each category of a fixed map (`familiers`,
  `ressources`), it walks the listing pages 1, 2, 3, … of the encyclopedia. It stops at the
  first page that has no table rows, or at the first page whose fetch fails. Every table row
  becomes one record: name, image, link, and the "Peut être obtenu sur" flag. The flag comes
  from the item's detail page. The records of a category are written to `wakfu_<key>.csv`
  under a fixed header. A file that cannot be opened is skipped, and the batch moves on.
- **The items store** (`stores/items.ts`). `getItems` loads the items, the set of craftable
  item IDs and the map from item-type ID to title. It then detects the user's language.
  `toggleItemTypeFilter` flips one type ID in the selected-types filter.

The web is a `Site`: a finite map from URL to the parts of a fetched document that the crawler
queries. A URL outside the map is a failed GET. This covers network errors, timeouts and the
4xx/5xx statuses the HTTP client turns into exceptions. A listing document is reduced to its
table rows. Each row has an optional first image (with an optional `src`) and an optional name
link (text and an optional `href`). A detail document is reduced to its panel titles, each with
the text of its next element sibling when there is one. In the store, the three `$fetch`
results are `Option` inputs (`None` when the fetch rejects), and `navigator.language` is a
string input.

Modules:

- `Wrappers` (`wrappers.dfy`): `Option`.
- `Strings` (`strings.dfy`): PHP `trim`, substring search, and the decimal rendering of a page
  number.
- `Crawler` (`crawler.dfy`): rows, records, the detail flag, and the pagination loop of one
  category. On a site with finitely many answering URLs the loop ends: page URLs are pairwise
  distinct, and every page that is fetched is a key of the site.
- `Export` (`export.dfy`): CSV contents, the `Disk` class (the files of the working
  directory), and the batch over the categories.
- `Items` (`items_store.dfy`): the pure data shaping of `getItems` and the `ItemsStore` class.

Facts about the source that the model keeps:

- The sentinels are the French strings `"Pas d'image"` and `"Nom inconnu"`.
- A row without a name link gets the link `"#"`.
- The flag values are `"Oui"` and `"Non"`.
- The CSV header is `Nom, Image, Lien, Peut être obtenu sur`.
- A file that cannot be opened is only logged, and that category's records are dropped.
- An image without a `src` attribute is PHP `null`, which `fputcsv` writes as an empty field.
- The type map is built with the language held when `getItems` starts. The newly detected
  language is stored only afterwards.

## Model

| member | source | states |
|---|---|---|
| Strings.TrimEmptyIffBlank | public/test.php:72 | `trim` yields the empty string exactly when the text holds only the characters PHP's `trim` strips (both directions) |
| Strings.TrimStartSpec | public/test.php:51 | the result is a suffix of the input; everything dropped is blank; the result does not start with a blank |
| Strings.TrimEndSpec | public/test.php:51 | the result is a prefix of the input; everything dropped is blank; the result does not end with a blank |
| Strings.DecimalRoundTrip | public/test.php:31 | the page number written into `?page=` reads back as the same number |
| Strings.TrimSpec | public/test.php:51 | `trim` returns the slice of the text between its leading and its trailing blanks; neither end of the result is blank |
| Strings.DecimalDigits | public/test.php:31 | the decimal text of a page number holds only digits and starts with `0` only for 0 |
| Strings.DecimalInjective | public/test.php:31 | different page numbers are written as different decimal strings |
| Crawler.RowStub | public/test.php:47-52 | no image gives "Pas d'image"; an image gives its `src` (empty when missing); no name link gives "Nom inconnu" and "#"; otherwise the trimmed link text and the origin followed by the `href`; the link is "#" exactly when the row has no name link |
| Crawler.FirstTitledSpec | public/test.php:69-71 | finds the first panel whose title contains the marker, or reports that none does |
| Crawler.SelectorMatchesIff | public/test.php:69-75 | a selector fires exactly when the first panel titled with the marker has a next sibling holding a non-blank character |
| Crawler.ObtainedOnIff | public/test.php:56-81 | the flag is always "Oui" or "Non", and it is "Oui" exactly when the row has a name link, its detail fetch succeeds and a selector fires; a failed detail fetch leaves "Non" |
| Crawler.NoLinkIgnoresSite | public/test.php:56-58 | a row without a name link gets "#" and "Non" whatever the site holds, so no detail page is consulted |
| Crawler.RecordsOfInOrder | public/test.php:46-92 | a page yields exactly one record per row, in row order |
| Crawler.DetailFlagIff | public/test.php:64-77 | a fetched detail page yields "Oui" exactly when some selector finds its first panel followed by non-blank content |
| Crawler.ObtainedOn | public/test.php:56-82 | the flag is "Oui" or "Non", and "Oui" only for a link other than "#" whose fetch succeeds |
| Crawler.RecordOf | public/test.php:47-91 | the record's link is "#" exactly when the row has no name link; its flag is "Oui" only when that link was fetched |
| Crawler.ScanSelectors | public/test.php:64-77 | the selector loop with its early `break` yields "Oui" exactly when some selector fires |
| Crawler.ConsultDetail | public/test.php:56-82 | no request for "#"; otherwise one request for the link, whose failure leaves "Non" |
| Crawler.BuildRecord | public/test.php:47-91 | the row closure builds the record of the row, and requests a detail page exactly when the row has a name link |
| Crawler.AppendRows | public/test.php:46-92 | `each` appends the page's records after the records already accumulated, and requests the detail pages of the rows in row order |
| Crawler.DetailRequestsAreLinks | public/test.php:56-60 | a page requests exactly one detail page per record whose link is not "#", that record's link, in record order, and none for a row without a name link |
| Crawler.PageUrlIsBase | public/test.php:31 | the listing URL is the base URL exactly for page 1 |
| Crawler.PageUrlQuery | public/test.php:31 | past page 1, the URL is the base URL, then `?page=`, then exactly the decimal text of the page number: digits only, no leading zero, reading back as the page number |
| Crawler.PageUrlInjective | public/test.php:31 | different page numbers give different listing URLs |
| Crawler.AccumulatedLength | public/test.php:46-94 | the record count equals the total number of rows over the processed pages |
| Crawler.AccumulatedPrefix | public/test.php:86-94 | records already accumulated are kept: later pages only append |
| Crawler.StopsAtUnique | public/test.php:30-100 | the page where pagination stops is determined by the site |
| Crawler.PagesBounded | public/test.php:30-94 | at most as many consecutive pages can be fetched as the site holds URLs, so the loop ends on any site with finitely many answering URLs |
| Crawler.PageUrlsInOrder | public/test.php:27-31 | the requested URLs are those of pages 1, 2, 3, … in order, without gaps |
| Crawler.CrawlCategory | public/test.php:27-100 | requests pages 1, 2, … in order; stops at the first page that fails or has no rows, and reports which of the two happened; the records are those of every earlier page, kept when a fetch fails |
| Export.FieldsInHeaderOrder | public/test.php:86-111 | the field in column i of a record line is the value the associative array stores under the i-th header name |
| Export.CsvOf | public/test.php:109-112 | the file holds the header first, then one line per record in accumulator order; the header alone when nothing was crawled |
| Export.FileNameParts | public/test.php:102 | the file name is the key between `wakfu_` and `.csv` |
| Export.FileNameInjective | public/test.php:102 | different categories write different files |
| Export.Disk.Export | public/test.php:102-113 | an openable file is truncated and then holds the header and the records; a file that cannot be opened leaves the directory unchanged |
| Export.ExportCategory | public/test.php:27-113 | one category: pagination from page 1 with an empty accumulator stops where the site says; then its file, when it opens, holds the header and exactly the records accumulated over the pages before the stop, and otherwise the directory is unchanged |
| Export.RunBatch | public/test.php:26-116 | every category is crawled with a fresh accumulator and exported, even after another category's fetch failed or its file could not be opened; files no category writes are unchanged |
| Export.Scrape | public/test.php:20-116 | the batch over the fixed map of the two categories |
| Items.CraftableIds | stores/items.ts:34-36 | the craftable set is exactly the produced item IDs of the recipes, duplicates collapsed |
| Items.RemoveAll | stores/items.ts:48-49 | a global literal `replace` never lengthens the text |
| Items.RemoveAllNoMatch | stores/items.ts:48-49 | text that does not contain the pattern is returned unchanged |
| Items.RemoveAllShrinks | stores/items.ts:48-49 | text that contains the pattern loses characters |
| Items.RemoveAllUnchangedIff | stores/items.ts:48-49 | removal leaves the text unchanged exactly when the pattern does not occur in it |
| Items.NormaliseTitle | stores/items.ts:48-49 | the two removals never lengthen a title |
| Items.NormaliseTitleWithoutBrace | stores/items.ts:48-49 | a title without `{` is returned unchanged |
| Items.NormaliseTitleSinglePass | stores/items.ts:48-49 | each removal is a single pass: removing the inner placeholder of "{[~1]?{[~1]?s:}s:}" leaves "{[~1]?s:}" in the title |
| Items.PresentTitle | stores/items.ts:47-49 | a title present in the language is normalised by both removals, never grows, and is kept as is when it has no `{` |
| Items.MissingTitleIsUnknown | stores/items.ts:47 | a type without a title in the language is shown as "Type inconnu" |
| Items.TypeMap | stores/items.ts:44-51 | the keys of the type map are exactly the IDs of the entries |
| Items.TypeMapLastWins | stores/items.ts:44-51 | with duplicate IDs, an ID maps to the title of the last entry that carries it |
| Items.LangPrefix | stores/items.ts:56 | the language prefix is the part of the browser language before the first `-`, or all of it |
| Items.DetectLanguage | stores/items.ts:56-59 | the detected language is one of fr, en, es, de: the prefix when it is in that list, "fr" otherwise |
| Items.Toggle | stores/items.ts:65-71 | toggling flips the membership of the ID and keeps every other ID as it was |
| Items.ToggleTwice | stores/items.ts:65-71 | toggling the same ID twice restores the selection |
| Items.ItemsStore.constructor | stores/items.ts:4-11 | the initial state: empty collections, no filter, language "fr" |
| Items.ItemsStore.GetItems | stores/items.ts:13-64 | the fields are assigned in source order and a rejected fetch stops the action after the assignments already made; the type map uses the language held on entry; the stored language is always supported |
| Items.ItemsStore.ToggleItemTypeFilter | stores/items.ts:65-71 | the selected types become the toggled set, and no other field of the store changes |

## Left out

- The HTTP client's headers, cookies and timeout are transport configuration and are not modelled.
- The Guzzle and DomCrawler calls are not modelled: the CSS selectors, `:contains`, `nextAll`, `text` and `attr` are replaced by the parsed `Row` and `Panel` values.
- The whitespace handling of DomCrawler's `text()` is not modelled: the model receives its result.
- Crawler.CrawlCategory: the `while (true)` loop of the source has no bound, and on a site that answers every `?page=N` with rows (for instance one serving its last page for any larger number) it never ends; the model's `Site` is a finite map, so this non-terminating case is not modelled.
- The network is deterministic per URL. A fetch that fails once and succeeds on retry is not modelled.
- The byte-level quoting and escaping of `fputcsv` is not modelled: a file is a sequence of records, each a sequence of fields.
- A write error after a successful `fopen` is not modelled.
- All `echo`, `console.log` and `console.error` output is not modelled: it is progress logging only.
- The `$fetch` calls, the CORS proxy URL and the game-data version string are not modelled: the fetched arrays are inputs.
- Malformed JSON is not modelled: an item type without `definition`, or a title that is not a string.
- Most of `items.json` is not modelled. The store keeps the array as delivered. `Item` keeps the ID, type, level and rarity, and leaves out the effects, descriptions and titles.
- Pinia's `defineStore` plumbing and the `async`/`await` scheduling are not modelled. A fetch that rejects is an input of `None`.
- The JS `Set` and `Map` of the store are Dafny `set` and `map` values, which have no order, and the reactive `Set` is replaced rather than mutated in place. The insertion order is lost: toggling an ID off and on moves it to the end of the `Set`, and `new Map` keeps a duplicate ID at its first position while taking the last title. Nothing in the modelled core reads that order.
- `showCraftableOnly` is part of the state, but no action in the modelled core changes it.
- `types/itemTypes.ts` and `nuxt.config.ts` hold no behaviour and are not part of this model.
- The CORS proxy server is not part of this model.
