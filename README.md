# Dynamic Quote Generator — a Dafny model

The repository holds three versions of one browser page. Each keeps a list of
quotes and shows a random quote from the selected category. Users can add a
quote, pick a category filter and import a JSON file of quotes. The lists are
saved in `localStorage` and the last quote shown in `sessionStorage`.

- `dom-manipulation/script.js` is the full version. Its records have
  `{id, text, category, updatedAt, source}`. Its category list is trimmed,
  de-duplicated and sorted. It refuses duplicates up to case. It also merges
  posts from a placeholder server into the list by id, and the server wins a
  conflict.
- `script.js` keeps `{text, category}` records. An import appends to the
  list. The simulated server sync adds one fixed record unless its text is
  already present.
- `scripts.js` keeps the same records. An import replaces the whole list.
  Rebuilding the category dropdown resets it to "all".

The model follows that layout:

- `wrappers.dfy`: `Option`.
- `storage.dfy`: the `Storage` module. `Slot` is a stored list that is
  absent, unreadable or readable. `SavedFilterOrAll` is
  `getItem(key) || "all"`.
- `text.dfy`: `trim`, a case fold standing in for `toLowerCase`, and a
  string order standing in for `localeCompare`.
- `views.dfy`: the derived views every page computes.
  - the category filter, as an order-preserving subsequence;
  - `[...new Set(xs)]`, distinct values in first-occurrence order;
  - sorting.
- `quotes.dfy`: the pure functions of the full page.
  - the record and `findIndex`;
  - `uniqueCategories`, the filter options, the restored selection and
    `currentFilteredQuotes`;
  - `addQuote`'s checks;
  - the seed list;
  - the server records made from posts.
- `sync.dfy`: the merge loop of `syncWithServer`.
  - a loop-free description of its result;
  - its counters;
  - its idempotence.
- `quote_app.dfy`: class `Page`, holding the state of the full page. Each
  handler is a method over the page's fields and its two storages.
- `cards.dfy`: the `{text, category}` record of the two simpler pages, with
  their category list and the text-keyed append of `script.js`'s sync.
- `appending_app.dfy`: class `Page` for `script.js`.
- `replacing_app.dfy`: class `Page` for `scripts.js`.

Handlers that mutate the page are methods. Each states the page's whole new
state as a function of the old one. The functions they use carry their own
contracts and lemmas.

Some inputs become parameters:
- the random index is a natural number `choice`, and a pick is
  `view[choice % |view|]`;
- fresh ids (`uid()`) and `Date.now()` are passed in;
- the outcome of a fetch or file read is `Option`, with `None` for a request
  that failed or a file that does not parse.

## Model

| member | source | states |
|---|---|---|
| Storage.SavedFilterOrAll | dom-manipulation/script.js:68 | a missing or empty saved filter reads as "all"; any other value is returned as saved |
| Text.Trim | dom-manipulation/script.js:207 | `trim` is empty exactly for all-white-space input; otherwise it neither starts nor ends with white space and is no longer than its input |
| Text.TrimMiddle | dom-manipulation/script.js:207 | `trim` is the middle of its input: what is left once a blank prefix and a blank suffix are cut off |
| Text.TrimIdempotent | dom-manipulation/script.js:83 | trimming an already trimmed label changes nothing |
| Text.TrimOfTrimmed | dom-manipulation/script.js:83 | a string without white space at either end is its own trim |
| Text.LexIrreflexive | dom-manipulation/script.js:84 | the sort comparator never puts a string before itself |
| Text.LexTransitive | dom-manipulation/script.js:84 | the sort comparator is transitive |
| Text.LexTotal | dom-manipulation/script.js:84 | any two distinct strings are ordered one way or the other |
| Text.LexNotBoth | dom-manipulation/script.js:84 | no two strings are ordered both ways |
| Views.Select | dom-manipulation/script.js:142 | `filter` keeps exactly the records of the selected category (both directions) and never grows the list |
| Views.Filtered | dom-manipulation/script.js:140-143 | "all" selects the whole list; any other selection keeps exactly its own records, and none when no record has that category |
| Views.SelectAppend | dom-manipulation/script.js:142 | filtering a concatenation is the concatenation of the filtered parts |
| Views.SelectIsSubsequence | dom-manipulation/script.js:142 | the filtered view keeps the records' relative order |
| Views.FilteredIsSubsequence | dom-manipulation/script.js:140-143 | whatever the selection, the shown list is a subsequence of the stored list |
| Views.SelectCounts | dom-manipulation/script.js:142 | every copy of a matching record is kept and no copy of another record |
| Views.NonEmpty | dom-manipulation/script.js:83 | `filter(Boolean)` keeps exactly the non-empty labels |
| Views.Distinct | script.js:68 | `[...new Set(xs)]` has no duplicates and holds exactly the elements of `xs` |
| Views.DistinctFirstOccurrenceOrder | script.js:68 | the distinct elements come in the order of their first occurrence |
| Views.Insert | dom-manipulation/script.js:84 | inserting a new element keeps a list strictly sorted, with that element added |
| Views.Sort | dom-manipulation/script.js:84 | sorting yields the same elements, strictly increasing |
| Views.SortedUnique | dom-manipulation/script.js:84 | a strictly sorted list is determined by its set of elements |
| Quotes.FindIndex | dom-manipulation/script.js:330 | `findIndex` returns the first position holding the id, or `None` when no position does |
| Quotes.Labels | dom-manipulation/script.js:83 | one trimmed label per quote, position by position |
| Quotes.UniqueCategories | dom-manipulation/script.js:82-85 | strictly sorted, no duplicates, all non-empty and trimmed; a label is listed exactly when some quote carries it |
| Quotes.UniqueCategoriesCanonical | dom-manipulation/script.js:82-85 | the list depends only on the set of labels, not on the order or multiplicity of quotes |
| Quotes.UniqueCategoriesAppend | dom-manipulation/script.js:223-227 | adding a quote adds exactly its trimmed category, if non-empty |
| Quotes.UniqueCategoriesAppendKnown | dom-manipulation/script.js:226-227 | a quote with a blank or already listed category leaves the category list unchanged |
| Quotes.Options | dom-manipulation/script.js:122-130 | the option values left in the select: "all" first, then the unique categories in their order (membership is `OptionsHas`) |
| Quotes.OptionsHas | dom-manipulation/script.js:122-130 | helper of `Options`: a value is offered exactly when it is "all" or one of the unique categories |
| Quotes.EffectiveSelection | dom-manipulation/script.js:131-137 | the restored selection is always an option; it is the saved filter when that is an option, and "all" otherwise |
| Quotes.FilteredQuotes | dom-manipulation/script.js:140-143 | "all" shows the whole list; a category shows exactly the quotes stored with that category |
| Quotes.SelectionAfterAdd | dom-manipulation/script.js:226-231 | adding a quote never resets a category selection; a saved filter naming the new category becomes the selection |
| Quotes.CategoriesSelectable | dom-manipulation/script.js:122-143 | when stored categories are trimmed, every offered category shows at least one quote |
| Quotes.UntrimmedCategoryHidden | dom-manipulation/script.js:140-143 | in any list holding a quote whose category trims to a label no quote carries exactly (not "" or "all"), that label is offered as an option yet shows no quote, because the options are trimmed and the filter is not |
| Quotes.NewCategory | dom-manipulation/script.js:208 | the stored category is the trimmed input, or "General" when that is blank |
| Quotes.IsDuplicate | dom-manipulation/script.js:215-218 | `quotes.some(...)`: some stored quote equals the new one in text and in category up to case (used by `CheckNewOutcome` and `AddTwiceRejected`) |
| Quotes.CheckNew | dom-manipulation/script.js:207-220 | the checks `addQuote` makes before appending; `CheckNewOutcome` characterises each outcome in both directions |
| Quotes.CheckNewOutcome | dom-manipulation/script.js:207-220 | blank text is refused; otherwise a quote equal in text and category up to case is refused as a duplicate; otherwise the trimmed text and normalised category are accepted (each case in both directions) |
| Quotes.AddTwiceRejected | dom-manipulation/script.js:215-220 | once a quote is added, adding it again in any letter case is refused as a duplicate |
| Quotes.Seed | dom-manipulation/script.js:57-63 | the five default quotes, with the given ids and time, marked local |
| Quotes.ServerQuote | dom-manipulation/script.js:319-325 | id "server-" + post id, category "Server"; the text source is the title when the title is not the empty string, else the body; the text is that source trimmed, or "Post #" + id when the source is blank (so a white-space title gives "Post #" + id, not the body); never empty |
| Quotes.ServerQuotes | dom-manipulation/script.js:319-325 | one server record per post, in post order |
| Quotes.ServerIdsDistinct | dom-manipulation/script.js:319-320 | posts with distinct ids give records with distinct ids |
| Quotes.AppendFreshId | dom-manipulation/script.js:222-223 | a record appended under an id the list lacks is found by that id at the new last position, and distinct ids stay distinct |
| Sync.MergeOne | dom-manipulation/script.js:330-340 | one `forEach` step: append an unknown id, overwrite the first record of a known id whose text or category differs, else nothing; `MergeOneReflects` and `MergeStepDescribed` characterise it |
| Sync.Merge | dom-manipulation/script.js:329-341 | the whole `forEach` in batch order; `MergeBatch`'s loop is proved equal to it, and `MergeBookkeeping`, `MergeDescribed`, `MergeIdempotent`, `ResyncUnchanged` and `MergeChangesIff` characterise it |
| Sync.MergeBookkeeping | dom-manipulation/script.js:327-341 | the store grows by exactly `added`; added + updated never exceeds the batch size; old positions keep their ids; zero counters mean an unchanged store |
| Sync.MergeDescribes | dom-manipulation/script.js:329-341 | by induction over the batch, the merge result fits the loop-free description below |
| Sync.MergeDescribed | dom-manipulation/script.js:329-341 | (batch ids distinct) the appended tail is exactly the records with unknown ids, in order, and `added` counts them; each old position keeps its record unless it is the first position of a batch id with different text or category, where it holds the stamped server record; `updated` counts exactly the changed positions |
| Sync.MergeOneReflects | dom-manipulation/script.js:330-340 | after one step the store holds the server record's content at the first position of its id |
| Sync.MergeReflects | dom-manipulation/script.js:329-341 | after a merge the store holds every batch record's content at the first position of its id |
| Sync.MergeReflected | dom-manipulation/script.js:329-341 | a store that already holds every batch record's content is left unchanged, with both counters zero |
| Sync.MergeIdempotent | dom-manipulation/script.js:329-341 | merging the same batch again, at any time, adds and updates nothing |
| Sync.ResyncUnchanged | dom-manipulation/script.js:319-341 | (post ids distinct) mapping the same posts again at a later time and merging them into the synced list adds and updates nothing |
| Sync.UnknownDistinct | dom-manipulation/script.js:331-333 | the records appended for unknown ids have distinct ids when the batch has |
| Sync.MergeKeepsDistinctIds | dom-manipulation/script.js:329-341 | a list with distinct ids, merged with a batch with distinct ids, still has distinct ids |
| Sync.MergeChangesIff | dom-manipulation/script.js:343-345 | the store changes exactly when a counter is non-zero, so the persist guard persists exactly the changing merges |
| QuoteApp.Page.constructor | dom-manipulation/script.js:19-20 | before `init` the list is empty, nothing is shown, and the storages hold what they held |
| QuoteApp.Page.CurrentFilteredQuotes | dom-manipulation/script.js:140-143 | the view for the current selection: the whole list for "all", else exactly the quotes of that category |
| QuoteApp.Page.PersistQuotes | dom-manipulation/script.js:39-41 | the stored list equals the list in memory; nothing else changes |
| QuoteApp.Page.LoadQuotes | dom-manipulation/script.js:43-65 | a stored array is loaded as is; otherwise the five seed quotes are loaded and written back; either way the stored copy equals memory |
| QuoteApp.Page.PopulateCategories | dom-manipulation/script.js:122-138 | options are rebuilt from the list, and the selection is restored from the saved filter; the saved filter is untouched |
| QuoteApp.Page.RenderQuote | dom-manipulation/script.js:112-120 | the quote is displayed and its id kept as last viewed |
| QuoteApp.Page.ShowRandomQuote | dom-manipulation/script.js:145-157 | an empty view clears the display; otherwise a quote of the current view is rendered; the list, filter and `localStorage` are untouched |
| QuoteApp.Page.FilterQuotes | dom-manipulation/script.js:159-164 | the chosen option is saved as the filter and a quote of its view is shown |
| QuoteApp.Page.PushQuote | dom-manipulation/script.js:223-224 | the record goes last and the list is persisted; under an id the list lacks it is found at the new last position and distinct ids stay distinct |
| QuoteApp.Page.RefreshAfterAdd | dom-manipulation/script.js:226-231 | the filter is repopulated and the new record rendered exactly when the restored selection is "all" or its category |
| QuoteApp.Page.AddQuote | dom-manipulation/script.js:203-236 | a refused input changes nothing; an accepted one appends exactly one local record, persists, repopulates and renders it when the selection shows it; when `freshId` is not yet used, `findIndex` finds the new record at the old length and distinct ids stay distinct |
| QuoteApp.Page.MergeBatch | dom-manipulation/script.js:327-341 | the loop computes exactly `Merge` of the old list: the new list and both counters |
| QuoteApp.Page.SyncWithServer | dom-manipulation/script.js:312-356 | a failed fetch changes nothing; otherwise the list becomes the merge of the server records; it is persisted and repopulated only when a counter is non-zero; a persisted list stays persisted; distinct ids stay distinct when the posts have distinct ids |
| QuoteApp.Page.ImportFromJsonFile | dom-manipulation/script.js:270-288 | the parsed array is appended once; the list is not persisted and the filter not rebuilt, so a persisted list stops being persisted |
| QuoteApp.Page.ClearStorage | dom-manipulation/script.js:300-308 | the list is reseeded and persisted, the saved filter cleared, the selection "all", and a seed quote shown |
| QuoteApp.Page.Init | dom-manipulation/script.js:359-371 | load and populate; the last viewed quote is shown when its id is still listed, else a random quote of the view; the shown quote's id becomes the last viewed id, and with nothing shown the last viewed id is left as it was |
| Cards.NewCard | script.js:46-52 | a record is built exactly when both trimmed fields are non-empty, and it holds the trimmed fields |
| Cards.Categories | script.js:68 | each category of the list exactly once |
| Cards.CategoriesInFirstOccurrenceOrder | script.js:68 | categories come in the order of their first occurrence in the list |
| Cards.FilteredCards | script.js:26-29 | "all" selects the whole list; a category selects exactly its records |
| Cards.AppendMissing | script.js:137-141 | the sync loop: each server record appended in order unless its text is already present by then; characterised by the `AppendMissing*` lemmas below |
| Cards.AppendMissingKeepsPrefix | script.js:137-141 | the sync keeps existing records in front, unchanged, and appends at most one record per server record |
| Cards.AppendMissingFresh | script.js:137-141 | every appended record is a server record whose text no earlier record has |
| Cards.AppendMissingCovers | script.js:137-141 | afterwards every server text is present |
| Cards.AppendMissingCovered | script.js:137-141 | a list already holding every server text is left as it is |
| Cards.AppendMissingIdempotent | script.js:137-141 | running the sync loop a second time appends nothing |
| AppendingApp.Page.constructor | script.js:2-14 | stored list or defaults, saved filter or "all", then options built, a random pick and the session's last viewed record shown (lines 155-163); the record on display is the session's last viewed one |
| AppendingApp.Page.View | script.js:26-29 | the records the current filter draws from |
| AppendingApp.Page.SaveQuotes | script.js:63-65 | the stored list equals memory; nothing else changes |
| AppendingApp.Page.PopulateCategories | script.js:67-77 | options are "all" plus each category once, in first-occurrence order |
| AppendingApp.Page.ShowRandomQuote | script.js:25-40 | an empty view changes nothing; otherwise a record of the view is shown and kept as last viewed |
| AppendingApp.Page.AddQuote | script.js:42-61 | refused input changes nothing; otherwise exactly the trimmed record is appended, saved, and the options rebuilt |
| AppendingApp.Page.FilterQuotes | script.js:79-83 | the filter is set and saved, then a record of its view is shown |
| AppendingApp.Page.ImportFromJsonFile | script.js:98-113 | a parsed array is appended after the existing records, saved and the options rebuilt; a bad file changes nothing |
| AppendingApp.Page.SyncWithServer | script.js:126-149 | on success the server records with new texts are appended, existing records are untouched, a second run changes nothing, and the list is saved and options rebuilt |
| ReplacingApp.Page.constructor | scripts.js:2-11 | stored list or defaults, dropdown built on "all", then the session's last record or a random pick shown (lines 121-131) |
| ReplacingApp.Page.PopulateCategoryDropdown | scripts.js:25-34 | options are "all" plus each category once, and the selection returns to "all" |
| ReplacingApp.Page.DisplayRandomQuote | scripts.js:37-57 | an empty view shows the message; otherwise a record of the selected category is shown and kept in the session |
| ReplacingApp.Page.AddQuote | scripts.js:60-74 | refused input changes nothing; otherwise the trimmed record is appended, saved, the dropdown reset, and a record of the whole list shown |
| ReplacingApp.Page.ImportFromJsonFile | scripts.js:90-111 | a parsed array replaces the list, is saved, the dropdown reset and a record shown; a bad file or no file changes nothing |
| ReplacingApp.Page.ChangeFilter | scripts.js:118 | a change of the filter shows a record of the chosen category |

## Left out

- DOM rendering is reduced to the record on display. This leaves out:
  - the tweet link;
  - notifications and their buttons;
  - the add-quote dialog (`createAddQuoteForm`);
  - clearing the input fields.
- `exportToJsonFile` in all three pages: it only builds a download and changes no state.
- The network, timers and the file reader.
  - The periodic `setInterval` syncs are not modelled.
  - The fetched posts, or the parsed file, are an `Option` parameter.
  - Handlers are atomic. Interleaving between `await` points is not modelled.
- `Math.random`, `uid()` and `Date.now()` are parameters. One merge uses one timestamp for all its records.
- Quotes.Seed: the five `Date.now()` calls of the seed list (dom-manipulation/script.js:58-62) are folded into one `now`, so the seed quotes share one `updatedAt`.
- JSON is treated as lossless. Records read back are assumed well-typed: a stored or imported record without a string `category` (on which `trim` would throw) is not modelled.
- A storage write that throws (quota exceeded) is not modelled.
- Text.Fold: `toLowerCase` is modelled for ASCII letters only. Other letters compare as they are.
- Text.LexLess: `localeCompare` is modelled as code-point lexicographic order. Locale collation is not modelled.
- QuoteApp.Page.ImportFromJsonFile: models the behaviour as written, not the evident intent.
  - The first push happens.
  - The call to `saveQuotes`, which is not defined in that file, throws.
  - The second push, the persist and the repopulate never run.
  - A parsed JSON string, whose characters the spread would push one by one, is treated like a failed parse (`None`).
- QuoteApp.Page.Init: the `when` field saved beside the last viewed id is not modelled. Only the id is kept.
- AppendingApp.Page.constructor: requires a stored value that is absent, empty or a JSON array. A value that does not parse makes the script throw at load, and that is not modelled.
- ReplacingApp.Page.constructor: the same requirement.
- QuoteApp.Page.PopulateCategories: dom-manipulation/script.js:125 removes only the options whose value is not "all", so an option appended for a category named "all" survives and a copy of it accumulates on every repopulate. The model keeps the options as "all" followed by the unique categories. Which values are offered, and so which selections are possible, is the same.
- AppendingApp.Page.PopulateCategories: marking the option equal to `lastFilter` as selected only affects the DOM and is not modelled. The filter handler receives the chosen option as `sel`.
- The model assumes the page has every element the scripts look up by id. A missing element (for example `exportQuotes` in `dom-manipulation/script.js`) would make the script throw while it loads.
