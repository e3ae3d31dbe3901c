# Quote widget: a verified model of its state and sync core

The widget keeps a collection of quotes, each a `{ text, category }` pair, in one
global array `quotes`. Three browser storage slots sit beside it:

- localStorage `"quotes"`: the serialised collection.
- localStorage `"selectedCategory"`: the last filter value shown.
- sessionStorage `"lastQuoteIndex"`: the position of the last quote shown.

The page does the following:

- At start-up it loads the collection, or falls back to five default quotes.
- It lists the distinct categories in ascending order and sets the filter control to the saved filter. If that filter is no longer a category, it uses `"all"`.
- It shows a random quote from the pool the filter selects.
- It adds a quote typed by the user, after trimming and checking the two fields.
- It imports a JSON file of quotes.
- Periodically it appends the first five posts of a remote server as `"Server"` quotes.

The model has four modules:

- `JsText` (`jstext.dfy`) models the string operations the page relies on:
  - `String.prototype.trim`, over the ECMAScript whitespace and line-terminator characters.
  - The default sort, as a lexicographic order on characters, with the order laws proved.
  - The duplicate removal done by a `Set`.
- `JsValues` (`jsvalues.dfy`) holds decoded JavaScript values and property reads. Reading a property of `null` or `undefined` throws.
- `QuoteModel` (`quotes.dfy`) holds the pure parts:
  - the default collection and the decoded forms of the stored collection;
  - the category list and how the saved filter is resolved;
  - the pool of quotes a filter selects and the random pick from it;
  - the quote an add creates, the quotes an import pushes, and the quotes a sync appends.
- `QuoteApp` (`app.dfy`) holds the class `QuotePage`. Its fields are the array, the three slots and the filter control's value. Its methods are the page's functions, each stated against the `QuoteModel` functions.

Some things the page cannot compute itself become inputs:

- The draw of `Math.random()` is a parameter `rand` in `[0, 1)`. The index is `Floor(rand * n)`, and `PickIndexUniform` shows that each index gets a sub-interval of width `1/n`.
- JSON decoding is replaced by already-decoded values.
- A fetch is replaced by its decoded outcome.

How the code is followed where it can be read more than one way:

- **The recorded index is the exact position.** `quotes.indexOf(q)` compares object references. Every element of `quotes` is a separate object: pushes create or parse new objects, and the sync spread copies each reference once. So the index recorded in `"lastQuoteIndex"` is the exact position of the drawn element, not merely the first position holding an equal value. The model identifies pool elements by position (`Positions`). `ChosenVersusFirstEqual` relates this to the first value-equal position: the two agree whenever no two quotes are equal.
- **Load does not check the items.** `loadQuotes` keeps any stored array without looking at its elements. Only no entry, the empty string, text that does not parse, or a non-array falls back to the defaults.
- **A `null` import element stops the import.** In an imported array, a `null` element makes `q.text` throw. The quotes pushed before it stay in memory, but the save, the category refresh and the pick are skipped, and the failure alert is shown. Memory and storage then differ. `ImportQuotes` states exactly this.
- **No deduplication on sync.** Server quotes are appended without comparing them with existing quotes, so repeated syncs add duplicates.

## Model

| member | source | states |
|---|---|---|
| `JsText.TrimStart` | dom-manipulation/script.js:113-114 | the result is a suffix of the input, preceded only by whitespace, that does not start with whitespace |
| `JsText.TrimEnd` | dom-manipulation/script.js:113-114 | the result is a prefix of the input, followed only by whitespace, that does not end with whitespace |
| `JsText.TrimIsInfix` | dom-manipulation/script.js:113-114 | `trim` keeps one contiguous piece of the input, starting where the leading whitespace ends, with only whitespace around it |
| `JsText.Trim` | dom-manipulation/script.js:113-114 | `trim` gives a string no longer than its input that is empty or neither starts nor ends with whitespace; `TrimIsInfix`, `TrimEmptyIff` and `TrimIdempotent` state the rest |
| `JsText.TrimEmptyIff` | dom-manipulation/script.js:113-115 | a trimmed input is empty exactly when the input is all whitespace |
| `JsText.TrimIdempotent` | dom-manipulation/script.js:113-114 | trimming twice equals trimming once |
| `JsText.LessEq` | dom-manipulation/script.js:68 | the comparison of the default sort puts a string at or before every string it is a prefix of; the four order laws below make it a total order |
| `JsText.LessEqTotal` | dom-manipulation/script.js:68 | any two strings are comparable in the sort order |
| `JsText.LessEqAntisymmetric` | dom-manipulation/script.js:68 | strings that are each at most the other are equal |
| `JsText.LessEqTransitive` | dom-manipulation/script.js:68 | the sort order is transitive |
| `JsText.LessEqReflexive` | dom-manipulation/script.js:68 | every string is at most itself |
| `JsText.SortStrings` | dom-manipulation/script.js:68 | `.sort()` returns an ascending permutation (same multiset) of its input |
| `JsText.Distinct` | dom-manipulation/script.js:68 | `new Set(...)` holds exactly the input's values, each once |
| `JsText.SortDistinctIsStrict` | dom-manipulation/script.js:68 | sorting duplicate-free strings gives a strictly ascending list |
| `JsText.StrictlySortedUnique` | dom-manipulation/script.js:68 | two strictly ascending lists with the same members are equal |
| `JsText.TwiceInMultiset` | dom-manipulation/script.js:68 | a value at two positions has multiplicity at least two |
| `JsText.Insert` | dom-manipulation/script.js:68 | inserting into an ascending list keeps it ascending and adds exactly the new element |
| `JsValues.Prop` | dom-manipulation/script.js:170 | a property read yields an own property of an object, and `undefined` in every other case |
| `QuoteModel.DefaultQuotes` | dom-manipulation/script.js:37-60 | five default quotes, each with non-empty text and category |
| `QuoteModel.KeepsStored` | dom-manipulation/script.js:21-35 | load keeps the slot in every case except no entry, the empty string, text that does not parse and a value that is not an array |
| `QuoteModel.Saved` | dom-manipulation/script.js:17-19 | what save writes is a slot load keeps |
| `QuoteModel.Loaded` | dom-manipulation/script.js:21-35 | load gives the defaults whenever it does not keep the slot; saving the loaded collection reproduces the slot exactly when load keeps it |
| `QuoteModel.LoadAfterSave` | dom-manipulation/script.js:17-35 | loading what save wrote gives the collection back, the empty collection included |
| `QuoteModel.Categories` | dom-manipulation/script.js:68 | the category list is strictly ascending (sorted and duplicate-free) and holds exactly the categories present in the collection |
| `QuoteModel.CategoriesExactly` | dom-manipulation/script.js:68 | any strictly ascending list of exactly those categories is the category list |
| `QuoteModel.CategoriesAppend` | dom-manipulation/script.js:68 | after an append, the categories are the old ones plus those of the appended quotes |
| `QuoteModel.ResolveSelection` | dom-manipulation/script.js:75-77 | the resolved filter is always `"all"` or a listed category; anything but `"all"` is the saved value and is non-empty, so a missing or empty saved value gives `"all"`; a non-empty saved value that is `"all"` or a listed category is kept |
| `QuoteModel.EmptyCollectionSelectsAll` | dom-manipulation/script.js:68-77 | with no quotes the category list is empty and every saved value resolves to `"all"` |
| `QuoteModel.VanishedCategoryFallsBack` | dom-manipulation/script.js:75-77 | a saved category that no quote has any more resolves to `"all"` |
| `QuoteModel.Positions` | dom-manipulation/script.js:85-86 | the pool positions are ascending, valid, admitted by the filter, and include every admitted position |
| `QuoteModel.Pool` | dom-manipulation/script.js:85-86 | the pool is no longer than the collection and holds only quotes of the collection that the filter admits; `PoolAll` and `PoolIsFilter` give it exactly |
| `QuoteModel.PoolSnoc` | dom-manipulation/script.js:85-86 | the pool of a collection extends the pool of its prefix by the last quote exactly when the filter admits it |
| `QuoteModel.PoolAll` | dom-manipulation/script.js:85-86 | the pool for `"all"` is the whole collection |
| `QuoteModel.PoolIsFilter` | dom-manipulation/script.js:85-86 | the pool for any other value equals the order-preserving category filter |
| `QuoteModel.PickIndex` | dom-manipulation/script.js:91 | `Math.floor(Math.random() * n)` is an index below `n` |
| `QuoteModel.PickIndexUniform` | dom-manipulation/script.js:91 | index `k` is drawn exactly for draws in `[k/n, (k+1)/n)`, so every index is equally likely |
| `QuoteModel.Chosen` | dom-manipulation/script.js:85-93 | a recorded position is a valid index of a quote the filter admits |
| `QuoteModel.LastIndexAfter` | dom-manipulation/script.js:87-93 | when no quote matches the filter the session slot keeps its old content; otherwise it holds the valid position of a quote the filter admits |
| `QuoteModel.ChosenSpec` | dom-manipulation/script.js:85-93 | nothing is recorded exactly when no quote matches (the pool is empty); otherwise the quote at the recorded position is the drawn pool element |
| `QuoteModel.ChosenAt` | dom-manipulation/script.js:91-93 | the `k`-th pool element is recorded exactly when the draw gives pool index `k` |
| `QuoteModel.ChosenUniform` | dom-manipulation/script.js:91-93 | each pool element is recorded for a draw interval of width `1/|pool|` |
| `QuoteModel.FirstIndexOf` | dom-manipulation/script.js:93 | the first position holding a given value |
| `QuoteModel.ChosenVersusFirstEqual` | dom-manipulation/script.js:93 | the recorded position is never before the first equal quote, and equals it when the quotes are pairwise different |
| `QuoteModel.PositionsAll` | dom-manipulation/script.js:85-86 | for `"all"` the pool positions are `0, 1, …, n-1` |
| `QuoteModel.ShowRandomIsFilterAll` | dom-manipulation/script.js:97-105 | `showRandomQuote` records the same position as `filterQuotes` under `"all"` |
| `QuoteModel.NewQuote` | dom-manipulation/script.js:113-117 | add rejects exactly when either input is all whitespace; otherwise it creates the quote of the two trimmed inputs, both non-empty |
| `QuoteModel.RecordOf` | dom-manipulation/script.js:170-171 | an element yields a quote exactly when it is an object whose `text` and `category` properties are both strings, and the quote holds those two strings |
| `QuoteModel.Imported` | dom-manipulation/script.js:169-173 | an import pushes no more quotes than the array has elements |
| `QuoteModel.ImportedAppend` | dom-manipulation/script.js:169-173 | the import works element by element: the pushes for `a + b` are those for `a` then those for `b` |
| `QuoteModel.ImportedSnoc` | dom-manipulation/script.js:169-173 | one loop step pushes exactly the element's record, if it has one |
| `QuoteModel.ImportStopsAt` | dom-manipulation/script.js:169-180 | a `null` element ends the pushes: only the records before it are pushed |
| `QuoteModel.ImportedSources` | dom-manipulation/script.js:169-173 | every pushed quote comes from an element with string `text` and `category` ahead of any `null` |
| `QuoteModel.ImportedComplete` | dom-manipulation/script.js:169-173 | without a `null`, every element with string `text` and `category` has its quote pushed |
| `QuoteModel.AppendKeepsSelection` | dom-manipulation/script.js:169-180 | pushing quotes keeps a filter value that is `"all"` or a category valid, so an import that throws before the refresh leaves a valid filter control |
| `QuoteModel.ImportExample` | dom-manipulation/script.js:169-173 | `[{"text":"A","category":"B"},{"text":123,"category":"C"}]` pushes exactly `{A, B}` |
| `QuoteModel.Tagged` | dom-manipulation/script.js:192-195 | the i-th server quote has the i-th title as text and category `"Server"` |
| `QuoteModel.ServerQuotes` | dom-manipulation/script.js:192-195 | a sync appends `min(5, n)` quotes, the i-th holding the i-th title and category `"Server"` |
| `QuoteModel.ServerQuotesIgnoresRest` | dom-manipulation/script.js:192 | records after the fifth have no effect |
| `QuoteModel.SyncedCategory` | dom-manipulation/script.js:192-198 | after a sync with at least one record, `"Server"` is a listed category |
| `QuoteApp.QuotePage.constructor` | dom-manipulation/script.js:6 | the page starts with an empty collection, the given storage contents, and the filter control on `"all"` |
| `QuoteApp.QuotePage.SaveQuotes` | dom-manipulation/script.js:17-19 | the slot holds the current collection; nothing else changes |
| `QuoteApp.QuotePage.LoadQuotes` | dom-manipulation/script.js:21-35 | the collection becomes the loaded one, and the slot then holds exactly the collection (written back only when falling back) |
| `QuoteApp.QuotePage.PopulateCategories` | dom-manipulation/script.js:63-78 | returns the category list and sets the filter control to the resolved saved filter, which keeps the control's invariant |
| `QuoteApp.QuotePage.FilterQuotes` | dom-manipulation/script.js:80-94 | saves the filter value first; records the drawn pool position, or nothing for an empty pool; shows that quote or the empty state |
| `QuoteApp.QuotePage.ShowRandomQuote` | dom-manipulation/script.js:97-106 | shows and records a drawn position of the whole collection, or nothing when it is empty |
| `QuoteApp.QuotePage.ChangeFilter` | dom-manipulation/script.js:229 | choosing an option sets the control and persists it, then records and shows as `filterQuotes` does |
| `QuoteApp.QuotePage.AddQuote` | dom-manipulation/script.js:109-123 | invalid input leaves everything unchanged; otherwise the old quotes are kept as a prefix, the trimmed quote is appended and saved, the categories are refreshed, and a quote is picked |
| `QuoteApp.QuotePage.PushImported` | dom-manipulation/script.js:169-173 | the `forEach` appends exactly `Imported(items)` to the collection, and throws exactly when an element is `null` or `undefined` |
| `QuoteApp.QuotePage.ImportQuotes` | dom-manipulation/script.js:165-181 | a non-array changes nothing and fails; an array appends exactly the records before any `null`; success (no `null`) saves, refreshes and picks; failure leaves storage, filter and last index untouched |
| `QuoteApp.QuotePage.SyncWithServer` | dom-manipulation/script.js:187-204 | a failed fetch or a non-array changes nothing; otherwise the old quotes are kept as a prefix, the server quotes are appended without deduplication and saved, and the categories are refreshed |
| `QuoteApp.QuotePage.Start` | dom-manipulation/script.js:219-222 | start-up loads, resolves the filter, persists it, records a pick and shows the picked quote; the filter control invariant holds afterwards |

## Left out

- DOM work is not modelled: element lookups, `innerHTML` rendering, building the `<option>` elements, `createAddQuoteForm`, clearing the input fields, `notifyConflictResolution`, `alert` and `console.warn`. The displayed result is the `Display` value, and the import alert is the `ImportOutcome`.
- `exportQuotes` is not modelled. It is a download of `JSON.stringify(quotes)` through a Blob, a URL and an anchor element.
- `JSON.parse`, `JSON.stringify`, `FileReader` and the storage APIs are not modelled. The slots hold decoded values, and saving then loading is assumed to give the same array of records back.
- LoadQuotes: the source keeps any stored array without checking its elements. In the model a stored array can only hold `{ text, category }` string records, so a stored array with other elements is not represented.
- ImportQuotes: the source pushes each accepted object itself, so any extra properties are also saved. The model keeps only `text` and `category`.
- JsValues: JSON numbers are integers in the model. The widget only asks whether a value is a string.
- SyncWithServer: the model does not cover a post whose `title` is missing or not a string. The source would then store a quote whose `text` is not a string. It also does not cover a `null` post among the first five, which makes the source's `map` throw so that nothing changes. Responses are given by their string titles.
- The async and timer behaviour is not modelled: `fetch` and `await`, the 30-second `setInterval`, the `setTimeout` of the notice, and overlapping syncs. Each sync is one atomic step.
- PickIndex: `Math.random()` is a real number in `[0, 1)`, and floating-point rounding of `Math.random() * n` is not modelled.
- JsText.LessEq: the default `sort` compares UTF-16 code units, while the model compares characters (Unicode scalar values). The two orders differ only for characters from U+E000 up against characters beyond U+FFFF.
- The `if (!categoryFilter) return;` guards and the `if (!file) return;` guard are not modelled. The filter control and a chosen file are assumed to exist.
- QuotePage.constructor: the initial value of the filter control comes from the page's HTML, which is not part of this model. It is taken to be the `"all"` option.
