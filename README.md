# Quote generator: a Dafny model of its collection logic and server sync

The repository is a browser "dynamic quote generator". Its collection logic lives in
`dom-manipulation/script.js`:

- adding a quote from the form;
- importing quotes from a JSON file;
- choosing a random quote of the selected category;
- clearing the user's own quotes;
- building the category filter list;
- exporting the collection.

`dom-manipulation/script2.js` adds a simulated server and `syncQuotes`. That function merges
the stored quotes with a server snapshot by id, last writer wins, and uploads the quotes
the server lacks.

The model has six modules:

- `Collections`: `Option`/`Result`, order-preserving filtering (`Array.prototype.filter`)
  and first-occurrence de-duplication (`[...new Set(xs)]`), with their lemmas.
- `JsStrings`: the JavaScript string operations the code relies on. `trim` uses the
  ECMAScript whitespace set. `toLowerCase` and `toUpperCase` are modelled on ASCII letters.
  Also `endsWith`, `split('T')[0]` and `capitalizeFirst`.
- `JsonValues`: a value produced by `JSON.parse`, with JavaScript truthiness and property
  reads. A missing property reads as `undefined`.
- `Quotes`: the pure parts of `script.js`:
  - the record built by `addQuote`;
  - import shape detection, item validation, normalisation and counts;
  - the category filter;
  - the do-while loop that picks an index different from the current one;
  - `clearCustomQuotes`;
  - the category list;
  - export, and the export/import round trip.
- `QuoteApp`: class `App` holds the script's globals (`quotes`, `currentCategory`,
  `currentQuoteIndex`, `sessionQuoteViews`, `syncState.hasLocalChanges`). Its methods are
  the event handlers that change them.
- `ServerSync`: `script2.js`.
  - A JavaScript `Map` keyed by id is a sequence of records with distinct ids, in
    insertion order. `set` replaces in place or appends.
  - The merge, the upload loop and `syncQuotes` are methods, each proved against
    functions. Lemmas about those functions state the last-writer-wins rule, the id
    union, the uploads and the `updated` flag.
  - `ServerStub` is the server's array with the `postQuoteToServer` upsert.
    `LocalStore` is the `quotes` entry of `localStorage`.

Clocks, `Math.random` and id generators are parameters. Examples: `now`, the sequence of
random `draws`, `idOf(k)`/`dateOf(k)` for the k-th imported item, `clock(k)` for the k-th
post. The one-second delays of the simulated server are dropped; calls run one after
the other.

One consequence of the upsert is proved in `LocalOnlyQuoteStaysLocalOnly`. The server
files a new quote under the id `length + 1`, but the local copy keeps its own id. Take a
local-only quote whose id is below 1 or above the server's length plus the local
collection's length. One sync posts it, keeps it locally, and leaves its id missing on
the server, so the next sync posts it again. The lemma covers one sync only.

## Model

| member | source | states |
|---|---|---|
| Collections.DedupOrder | dom-manipulation/script.js:271 | `[...new Set(xs)]` lists the distinct elements in the order of their first occurrences |
| Collections.DedupMembership | dom-manipulation/script.js:271 | de-duplication keeps exactly the elements of its input |
| Collections.FilterMultiplicity | dom-manipulation/script.js:114-116 | `filter` keeps each element that passes, as often as it occurs, and nothing else |
| Collections.FilterConcat | dom-manipulation/script.js:578-584 | `filter` keeps order: it distributes over concatenation |
| Collections.FilterEmptyIff | dom-manipulation/script.js:586-588 | a filter is empty exactly when no element passes |
| JsStrings.TrimSplits | dom-manipulation/script.js:203-205 | `trim` keeps the slice between a blank prefix and a blank suffix; the slice neither starts nor ends with whitespace |
| JsStrings.TrimEmptyIff | dom-manipulation/script.js:208-216 | a trimmed field is empty (falsy) exactly when every character is whitespace |
| JsStrings.TrimFixedIff | dom-manipulation/script.js:203-205 | `trim` returns a trimmed string and changes exactly the strings that start or end with whitespace |
| JsStrings.TrimIdempotent | dom-manipulation/script.js:592 | trimming twice is trimming once |
| JsStrings.TrimLowerCommute | dom-manipulation/script.js:593 | `s.toLowerCase().trim()` equals `s.trim().toLowerCase()`, so import and add normalise categories alike |
| JsStrings.LowerSpec | dom-manipulation/script.js:116 | `toLowerCase` leaves no upper-case letter and changes nothing else |
| JsStrings.LowerIdempotent | dom-manipulation/script.js:221 | lower-casing twice is lower-casing once |
| JsStrings.CapitalizeFirst | dom-manipulation/script.js:387-389 | same length, the tail unchanged, the first character not a lower-case letter |
| JsStrings.CapitalizeFirstFolds | dom-manipulation/script.js:281-285 | a button label lower-cases back to the category it selects |
| JsStrings.BeforeFirst | dom-manipulation/script.js:520 | `split('T')[0]` is the longest prefix without `T`, followed in the input by `T` when shorter than it |
| JsonValues.Member | dom-manipulation/script.js:570 | a property read gives the property's value when the value is an object holding it, and `undefined` otherwise |
| JsonValues.OrElse | dom-manipulation/script.js:594 | `v \|\| fallback` is `v` when truthy and `fallback` otherwise |
| Quotes.NormalisedCategory | dom-manipulation/script.js:221 | a non-blank category, trimmed and lower-cased, is non-empty, trimmed and lower-case |
| Quotes.NewQuote | dom-manipulation/script.js:202-228 | the record `addQuote` builds, or why it refuses; its contract is `Quotes.NewQuoteSpec` |
| Quotes.NewQuoteSpec | dom-manipulation/script.js:202-228 | text is validated before category; a field is missing iff blank; a new record is well formed and custom, with trimmed text, trimmed lower-cased category, author or "Anonymous", status "pending" |
| QuoteApp.App.AddQuote | dom-manipulation/script.js:202-234 | on success exactly one record is put at the front and `hasLocalChanges` is set; on failure nothing changes |
| Quotes.QuotesToImport | dom-manipulation/script.js:567-575 | a bare array, or an object whose `quotes` is an array, is accepted; `null` raises the TypeError; any other shape is an invalid structure |
| Quotes.Normalise | dom-manipulation/script.js:591-598 | an imported record is well formed and custom, with trimmed text, trimmed lower-cased category, the author if truthy or "Unknown" |
| Quotes.IsValidItem | dom-manipulation/script.js:578-584 | the item filter of the import: a truthy item with string text and category, both non-blank; used by `Quotes.ImportItems` and `Quotes.ReimportQuote` |
| Quotes.ImportItems | dom-manipulation/script.js:578-612 | the import succeeds iff some item is valid; one record per valid item, in order; imported + skipped = number of items |
| JsStrings.EndsWith | dom-manipulation/script.js:545 | `file.name.endsWith('.json')`; `Quotes.ImportFromFile` rejects a name failing it before anything else |
| Quotes.ImportFromFile | dom-manipulation/script.js:540-638 | no file: silent return; a name not ending in `.json` is rejected first; then a read error gives "Error reading file", an unparseable file "Invalid JSON format", and a rejected shape the shape check's error (`null` or an invalid structure); success only for a parsed file of an accepted shape |
| Quotes.ImportParsedFile | dom-manipulation/script.js:552-602 | a `.json` file that parses to an accepted shape is imported item by item |
| QuoteApp.App.ImportFromJsonFile | dom-manipulation/script.js:540-638 | a successful import keeps the old collection as a prefix and appends the new records; a failure changes nothing |
| Quotes.FilterByCategory | dom-manipulation/script.js:114-116 | the pool of `showRandomQuote`: no longer than the collection and drawn from it; `Quotes.FilterByCategorySpec` gives the rest |
| Quotes.FilterByCategorySpec | dom-manipulation/script.js:114-116 | "all" keeps everything; any other selection keeps, in order and with multiplicity, exactly the quotes whose category matches ignoring case |
| Quotes.DrawIndexInRange | dom-manipulation/script.js:131 | `Math.floor(Math.random() * n)` is an index below `n` |
| Quotes.PickIndex | dom-manipulation/script.js:129-134 | the pick is in range, comes from the first accepted draw, and differs from the current index when more than one quote qualifies |
| QuoteApp.App.ShowRandomQuote | dom-manipulation/script.js:113-144 | an empty pool shows the placeholder and changes nothing; otherwise the shown quote is the pool entry at the new index, which differs from the old one when the pool has more than one quote, and the view count grows by one |
| QuoteApp.App.SetActiveCategory | dom-manipulation/script.js:293-310 | the category is selected; an empty selection shows the placeholder and keeps the index and view count; otherwise the shown quote is the selection's entry at the new index, which differs from the old one when more than one quote qualifies, and the view count grows by one |
| Quotes.ClearCustom | dom-manipulation/script.js:353-360 | fails iff no quote is custom; otherwise keeps every non-custom quote with its multiplicity and no custom one |
| Quotes.ClearCustomKeepsOrder | dom-manipulation/script.js:360 | the quotes kept by clearing stay in their original order |
| QuoteApp.App.ClearCustomQuotes | dom-manipulation/script.js:353-368 | without custom quotes nothing changes; otherwise the collection is cleared and "all" selected; with no quote left the placeholder is shown and index and view count stay; otherwise a remaining quote is shown at a new index (when more than one is left) and the view count grows by one |
| Quotes.CategoryList | dom-manipulation/script.js:271 | the list starts with "all" and has at most one more entry than there are quotes; `Quotes.CategoryListSpec` gives the rest |
| Quotes.CategoryListSpec | dom-manipulation/script.js:271 | the list is "all" and then every lower-cased category once, in order of first appearance |
| Quotes.Export | dom-manipulation/script.js:505-511 | the export holds the whole collection, version "1.0", its size, and each raw category once, in order of first appearance |
| Quotes.ExportFileName | dom-manipulation/script.js:520 | the download name is `quotes-export-`, then the date part of the timestamp, then `.json` |
| Quotes.QuoteToJsonMembers | dom-manipulation/script.js:513 | the serialised record carries its text, category and author unchanged |
| Quotes.ReimportQuote | dom-manipulation/script.js:578-598 | an exported well-formed record is a valid import item and comes back with the same text, category and author |
| Quotes.ExportImportRoundTrip | dom-manipulation/script.js:503-612 | importing the export of a non-empty well-formed collection succeeds, skips nothing, and brings back every text, category and author, in order |
| Quotes.ExportEmptyImportFails | dom-manipulation/script.js:503-612 | the export of an empty collection has the accepted shape, yet importing it fails with "no valid quotes" |
| ServerSync.Lookup | dom-manipulation/script2.js:51 | `map.get(id)` is a stored record with that id, and `undefined` iff no key is `id` |
| ServerSync.Put | dom-manipulation/script2.js:53 | `map.set` adds at most one entry; `ServerSync.PutLookup` and `ServerSync.PutIds` give the rest |
| ServerSync.PutLookup | dom-manipulation/script2.js:53 | after `map.set` the key holds the new record and every other key reads as before |
| ServerSync.PutIds | dom-manipulation/script2.js:53 | `map.set` keeps the key order and appends a new key |
| ServerSync.FromList | dom-manipulation/script2.js:46-47 | `new Map(list.map(...))` has no more entries than the list; `ServerSync.FromListIds`, `ServerSync.FromListDistinct` and `ServerSync.FromListLookup` give the rest |
| ServerSync.FromListIds | dom-manipulation/script2.js:46-47 | a Map built from a list has each id once, in order of first occurrence |
| ServerSync.FromListDistinct | dom-manipulation/script2.js:46-47 | no id occurs twice in a Map built from a list |
| ServerSync.FromListLookup | dom-manipulation/script2.js:46-47 | each id holds the record of its last occurrence in the list |
| ServerSync.FromListOfDistinct | dom-manipulation/script2.js:46 | a list with distinct ids is its own Map |
| ServerSync.Merge | dom-manipulation/script2.js:50-56 | the `forEach` only replaces or adds entries, so the Map never shrinks; `ServerSync.MergeLookup` and `ServerSync.MergeIds` give the rest |
| ServerSync.MergeLookup | dom-manipulation/script2.js:50-56 | after the merge each id holds the server copy when it is missing locally or strictly newer, and the local copy otherwise (ties and missing timestamps keep the local copy) |
| ServerSync.MergeIds | dom-manipulation/script2.js:50-56 | the merged Map lists the local ids in order, then the server-only ids in server order |
| ServerSync.MergeIdsUnion | dom-manipulation/script2.js:46-67 | the ids of the merged quotes are exactly the union of the local and the server ids |
| ServerSync.MergeWithoutChanges | dom-manipulation/script2.js:50-56 | if the server wins for no entry, the merge changes nothing |
| ServerSync.MergePrefixStep | dom-manipulation/script2.js:50-56 | whether a server entry wins is decided against the local Map as it was before the merge |
| ServerSync.MergeServer | dom-manipulation/script2.js:43-56 | the `forEach` computes the merge, and sets `updated` iff the server wins for some entry |
| ServerSync.Uploads | dom-manipulation/script2.js:60-65 | the posts are no more than the merged entries; `ServerSync.UploadsAreLocalOnly` gives the rest |
| ServerSync.UploadsAreLocalOnly | dom-manipulation/script2.js:60-65 | the posted records are exactly the local records whose id the server lacks, unchanged and in local order, each posted once |
| ServerSync.UploadsNonEmptyIff | dom-manipulation/script2.js:60-65 | something is posted iff some local id is missing on the server |
| ServerSync.AnyServerWinsIff | dom-manipulation/script2.js:50-56 | the merge sets the flag iff some server id is missing locally or newer there |
| ServerSync.SyncUpdatedIff | dom-manipulation/script2.js:43-65 | `updated` iff some server id is missing locally or newer there, or some local id is missing on the server |
| ServerSync.NoUpdateMeansNoChange | dom-manipulation/script2.js:67-72 | when `updated` stays false the merged list equals the stored one, so skipping the write loses nothing |
| ServerSync.UploadLocalOnly | dom-manipulation/script2.js:60-65 | the loop posts exactly the uploads, in Map order, the k-th stamped with the k-th clock reading |
| ServerSync.SyncQuotes | dom-manipulation/script2.js:39-73 | the flag is the merge flag or a post; the server receives the uploads; local storage is written, with the merged list, only when the flag is set |
| ServerSync.FindIndex | dom-manipulation/script2.js:18 | `findIndex` gives the first index holding the id, or none when no entry has it |
| ServerSync.Upserted | dom-manipulation/script2.js:18-23 | a post keeps the array's length or adds one entry; `ServerSync.UpsertedSpec` gives the rest |
| ServerSync.UpsertedSpec | dom-manipulation/script2.js:18-23 | an existing id is replaced in place (same index and length, `updatedAt` set) with all else unchanged; another id is appended with id old length + 1 |
| ServerSync.UpsertKeepsSequential | dom-manipulation/script2.js:18-23 | upserts keep the server ids 1..n, so the appended id is fresh in such a state |
| ServerSync.AppendedIdNotFresh | dom-manipulation/script2.js:22 | on an arbitrary array the appended id need not be fresh: an array holding only id 2 gets a second id 2 |
| ServerSync.PostAllKeepsSequential | dom-manipulation/script2.js:15-27 | any sequence of posts keeps the server ids 1..n |
| ServerSync.LocalOnlyQuoteStaysLocalOnly | dom-manipulation/script2.js:22 | a local-only quote whose id is not within reach of the server's next indices is posted, kept locally, and still missing on the server after the sync |
| ServerSync.ServerStub.constructor | dom-manipulation/script2.js:2-5 | the server starts with two quotes, ids 1 and 2, and their timestamps |
| ServerSync.ServerStub.Fetch | dom-manipulation/script2.js:8-12 | the fetch returns the server's array |
| ServerSync.ServerStub.Post | dom-manipulation/script2.js:15-27 | `postQuoteToServer` leaves the array upserted with the quote stamped `now` |
| ServerSync.LocalStore.constructor | dom-manipulation/script2.js:29-32 | with nothing stored, the stored collection reads as the empty list |
| QuoteApp.App.constructor | dom-manipulation/script.js:16-48 | the state after loading: category "all", index -1, no views, no local changes |

## Left out

- JsStrings.Lower: `toLowerCase` and `toUpperCase` are modelled on ASCII letters only, because Unicode case mapping needs tables the model does not carry. Strings are sequences of code points; `trim`'s whitespace set lies in the Basic Multilingual Plane, so trimming is unaffected.
- Quotes.NewQuoteSpec: `dateAdded` and `lastModified` are one timestamp `now`, because the two `new Date()` calls are modelled by one clock reading.
- QuoteApp.App.ShowRandomQuote: it requires that one of the given `Math.random` draws is accepted. The source loop ends with probability 1, which a finite sequence of draws cannot express.
- Quotes.PickIndex: same requirement on the draws as `ShowRandomQuote`.
- ServerSync.SyncQuotes: records are those of `script2.js` (`id`, `text`, `category`, `author`, optional `updatedAt`). Ids are integers, compared as Map keys. A `null` entry in local storage, which would make the source throw, is not modelled.
- The DOM is not modelled: rendering, animations, category buttons, `showMessage`, `notifyUser`, modals and the statistics panel (`updateStats`) are UI.
- `localStorage` and `sessionStorage` are not modelled: `saveQuotes`, `loadQuotesFromStorage`, preferences, session counters and `clearAllStorageData`. The collection is an in-memory value, and `App`'s constructor takes the loaded collection.
- `FileReader`, `JSON.parse`, `JSON.stringify`, `Blob` and the download link are not modelled. An import starts from a read result (read error, unparseable, or a parsed value). An export ends at the value that parsing the file would give back; its text layout is not modelled.
- Timers, promises and listeners are not modelled (`setTimeout`, `setInterval`, online/offline, `load`, `beforeunload`). Calls are sequential, so two overlapping syncs started by the interval are not modelled.
- `Math.random`, `Date.now`, `new Date()` and `generateUniqueId` are not modelled; their values are parameters.
- `confirm` is assumed to be accepted.
- The sync and conflict code of `script.js` is not part of this model, nor the helpers it calls that are not defined in the source: `performManualSync`, `resolveConflict`, `startAutoSync`, `trackLocalChange`, `updateSyncStatus`, `loadSyncState`, `saveSyncState`, `testServerConnection`, `showNotification`.
- Quotes.ExportImportRoundTrip: proved only for a non-empty collection of well-formed records. The export of an empty collection fails on import with `NoValidQuotes` (`Quotes.ExportEmptyImportFails`). A record that is not well formed comes back normalised, not unchanged: a category with capitals or surrounding blanks comes back lower-cased and trimmed, a falsy author comes back as "Unknown", and a record with blank text or category is skipped. The export holds every quote, custom or not, and `totalQuotes` counts all of them.
- Quotes.ExportImportRoundTrip: `id`, `dateAdded` and the sync fields do not survive the round trip, because the import sets new ones. Only text, category, author and `isCustom` are stated.
