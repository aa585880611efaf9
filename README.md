# Bible reading tracker: progress map model

A Dafny model of the state logic of the reading-progress tracker's `App`
component. The tracker lists a fixed catalog of books, each with a name, a
testament (Old or New) and a number of chapters. It records which chapters
have been read in a *progress map* from chapter key (`<bookName>-<chapter>`)
to a flag. A chapter counts as read when its key is present with a truthy
value; a missing key means unread.

The model covers:

- the chapter-key encoding, with injectivity proved (`keys.dfy`);
- the catalog, taken as a parameter (`catalog.dfy`);
- the map updaters: toggling one chapter, marking or clearing a whole book,
  clearing everything behind a confirmation (`progress.dfy`);
- export, and the import decision made on the parsed file (`transfer.dfy`);
- the filtered book list and its per-book counting loop (`view.dfy`);
- the set of expanded book cards (`expansion.dfy`);
- the header totals (`summary.dfy`).

React state is modelled as explicit inputs and outputs. Each updater
closure (`prev => newState`) becomes a method from the previous value to
the new one. It copies the value into a local variable and deletes or
assigns in it, in a loop where the source loops. Each method is proved equal
to a specification function defined independently (by comprehension,
symmetric difference or set union). The listed properties are lemmas about
those functions.

`totalCompleted` is `TotalCompleted`, the number of keys in the map. It
takes no filter argument, so the testament and unread filters cannot
change it. It also counts keys mapped to false and keys that name no
catalog chapter. `ToggleAdjustsTotal`, `ImportedArrayIsInert` and the
finding below show this.

## Model

| member | source | states |
|---|---|---|
| `Keys.NatToString` | App.tsx:26 | a chapter number renders as a non-empty string of decimal digits, one digit exactly for numbers below ten |
| `Keys.NatToStringValue` | App.tsx:26 | the rendering denotes the chapter number in decimal, most significant digit first, with no leading zero for a positive number |
| `Keys.NatToStringInjective` | App.tsx:26 | distinct chapter numbers render differently |
| `Keys.ChapterKey` | App.tsx:26 | a key is the book name, one '-' right after it, then the chapter's decimal rendering |
| `Keys.ChapterKeyInjective` | App.tsx:26 | two (book, chapter) pairs share a key only if they are equal, even for book names containing '-' |
| `Catalog.TotalChaptersAppend` | App.tsx:185 | the chapter total of two book lists put together is the sum of their totals |
| `Progress.TotalCompleted` | App.tsx:122 | the read figure is zero exactly for the empty map, and counts the keys held as true plus the keys held as false |
| `Progress.ToggleChangesOnlyItsKey` | App.tsx:25-35 | toggling flips whether the key is read; every other key keeps its presence and value |
| `Progress.ToggleChapter` | App.tsx:25-36 | copying the map and deleting a truthy key or setting it to true gives exactly the toggled map |
| `Progress.ToggleTwiceRestores` | App.tsx:29-33 | toggling a key twice restores the map when the key was absent or true |
| `Progress.ToggleTwiceFromFalse` | App.tsx:29-33 | a key held as false is set to true, then deleted: two toggles do not restore that map |
| `Progress.ToggleAdjustsTotal` | App.tsx:122 | after a toggle the key count drops by one for a read key, rises by one for an absent key, and stays the same for a key held as false |
| `Progress.BookProgressFrame` | App.tsx:41-47 | marking a book leaves chapters 1..n read (or removes them); every key outside them keeps its presence and value |
| `Progress.SetBookProgress` | App.tsx:38-51 | the loop over chapters 1..totalChapters produces the map with every key of the book set to true, or every one removed |
| `Progress.BookProgressCount` | App.tsx:41-47 | after marking, the book's completed count equals its chapter count; after clearing it is 0 |
| `Progress.BookProgressOtherBook` | App.tsx:41-47 | marking one book leaves every other book's completed count unchanged |
| `Progress.BookProgressLastWins` | App.tsx:41-47 | a second marking of the same book overrides the first, so marking twice with the same flag equals marking once |
| `Progress.CountRead` | App.tsx:131-134 | a book's completed count never exceeds its chapter count |
| `Progress.CountReadFull` | App.tsx:131-135 | the count equals the chapter count exactly when every chapter is read |
| `Progress.CountReadZero` | App.tsx:131-135 | the count is zero exactly when no chapter is read |
| `Progress.CountReadAgree` | App.tsx:131-134 | the count depends only on whether the book's own chapters are read |
| `Progress.ClearAll` | App.tsx:73-77 | with confirmation nothing is read and no key is left; without it the map is unchanged |
| `Transfer.IsObjectType` | App.tsx:103 | the import check rejects null, booleans, numbers and strings, and accepts arrays and objects |
| `Transfer.ArrayEntriesSpec` | App.tsx:103-105 | an accepted array becomes a map keyed by its decimal indices, one key per element |
| `Transfer.AsProgress` | App.tsx:103-105 | the accepted value becomes a map with as many keys as `Object.keys` reports for it |
| `Transfer.HandleImport` | App.tsx:98-118 | the map is replaced only for a parsed non-null value of object type (arrays included) with confirmation; a parse failure, a value of another type or a cancel keep the map; each outcome gives its own notice |
| `Transfer.Export` | App.tsx:79-80 | the exported value has object type and one key per map key |
| `Transfer.ExportImportRoundTrip` | App.tsx:79-110 | importing an exported file with confirmation restores exactly the exported map |
| `Transfer.ImportedArrayIsInert` | App.tsx:103-105 | an imported array is accepted and its length is the key count, yet no chapter of any book reads as read |
| `View.MatchesTestament` | App.tsx:126 | with the "all" filter every book matches; with one testament selected, exactly that testament's books match |
| `View.CompletedInBook` | App.tsx:131-134 | the counting loop returns the book's completed count |
| `View.KeepBook` | App.tsx:125-139 | a book is kept exactly when it matches the testament filter and, with unread only on, some chapter of it is unread, which is the verdict `Shown` that the list is defined by |
| `View.FilteredBooks` | App.tsx:124-140 | every listed book is a catalog book matching the filter (and not fully read when unread only is on), and every such catalog book is listed |
| `View.FilteredIsSubsequence` | App.tsx:125 | the list keeps catalog order |
| `View.FilterIgnoresProgressWhenAllShown` | App.tsx:130-138 | with unread only off the progress map does not affect the list |
| `View.EmptyProgressShowsEveryBook` | App.tsx:130-136 | with an empty map every book of the selected testament that has at least one chapter is listed even with unread only on |
| `View.CompletedBookHidden` | App.tsx:130-135 | after marking all chapters of a book it is not on the unread-only list |
| `Expansion.ExpansionToggleFlipsOnlyItsBook` | App.tsx:53-63 | toggling a card flips that name only |
| `Expansion.ExpansionToggleTwiceRestores` | App.tsx:53-63 | toggling the same card twice restores the set |
| `Expansion.ToggleBookExpansion` | App.tsx:53-63 | copying the set and deleting or adding the name gives exactly the toggled set |
| `Expansion.ExpandAll` | App.tsx:65-67 | expand-all holds every catalog name and only catalog names |
| `Expansion.ExpandAllSize` | App.tsx:66 | with unique names expand-all holds one name per catalog book |
| `Expansion.CollapseAll` | App.tsx:69-71 | collapse-all leaves no card expanded |
| `Summary.CatalogCompleted` | App.tsx:122 | corrected: the count of read catalog chapters never exceeds the catalog total |
| `Summary.RemainingAsWritten` | App.tsx:185 | the displayed remaining figure never exceeds the catalog total, and is negative exactly when the key count exceeds the catalog total |
| `Summary.Remaining` | App.tsx:185 | corrected: the remaining figure counted from the catalog is never negative |
| `Summary.CatalogCompletedAtMostTotal` | App.tsx:122 | the key count is at least the number of read catalog chapters |
| `Summary.WellFormedCountsAgree` | App.tsx:122 | on a map holding only read catalog chapters, the key count equals the read-chapter count and both remaining figures agree |
| `Summary.ToggleKeepsWellFormed` | App.tsx:25-35 | toggling a catalog chapter keeps a map that holds only read catalog chapters |
| `Summary.BookProgressKeepsWellFormed` | App.tsx:38-51 | marking or clearing a catalog book keeps a map that holds only read catalog chapters |
| `Summary.RemainingAsWrittenGoesNegative` | App.tsx:185 | importing `{"Obadiah-1": true, "NotABook-5": true}` with a one-book, one-chapter catalog gives a book count of 1, a key count of 2 and a displayed remaining of -1 |

## Intended behaviour the code does not follow

- A progress file is meant to hold an object of chapter keys, yet the check `typeof value === 'object' && value !== null` at App.tsx:103 also accepts arrays. The model follows the code: `IsObjectType` holds of arrays, and `AsProgress` reads an accepted array as the map keyed by its indices (see `Transfer.AsProgress` under Left out).
- Imported keys that name no catalog chapter are meant to have no effect on any figure. They have none on the per-book counts or the filter, yet `totalCompleted` counts them (see Findings).
- Loading stored progress is meant to fall back to an empty map when the stored text does not parse, yet App.tsx:12 calls `JSON.parse` with no guard. Loading is not part of this model.

## Findings

| source | as written | input that shows it | evidently intended | confidence | as-written member | corrected member |
|---|---|---|---|---|---|---|
| App.tsx:122 | the read figure is `Object.keys(progress).length` and remaining is `TOTAL_CHAPTERS - totalCompleted` (App.tsx:185), so keys for unknown books, out-of-range chapters and keys held as false all count as read | import `{"Obadiah-1": true, "NotABook-5": true}` with a catalog whose one book, Obadiah, has 1 chapter: 2 read of 1, remaining -1 | count only read catalog chapters, so remaining stays between 0 and the catalog total | medium, not executed | `Summary.RemainingAsWrittenGoesNegative` | `Summary.Remaining` |

## Left out

- React hooks and re-render scheduling (`useState`, `useEffect`, `useMemo`, `useRef`): state is passed in and returned explicitly.
- Loading from and saving to `localStorage`: this is browser storage I/O.
- `JSON.parse`, `JSON.stringify` and `encodeURIComponent`: these are library calls. Import takes the parse outcome as a `Parsed` value, and export yields the value that would be serialised.
- The file reader, the download anchor, the date-stamped file name and the reset of the file input: browser I/O.
- `window.confirm` and `alert`: the user's answer is a boolean parameter, and the alert shown is a `Notice` in the import result.
- All JSX rendering, and the `BookCard` and `ProgressBar` components. Those components, `./constants` and `./types` are not part of this model; the catalog is a parameter.
- `Transfer.Json`: the members of a parsed array or object are reduced to their truthiness. Non-boolean member values (numbers, strings, nested values) are not represented, so what export would write back for them is not modelled.
- `Keys.NatToString`: JavaScript renders numbers from 1e21 upwards in exponent form (`1e+21`). The model renders every natural number as plain decimal digits, which agrees for every chapter number a catalog can hold.
- `Transfer.AsProgress`: the source stores an imported array itself as the state (App.tsx:105). It becomes an object keyed by its indices only at the next toggle, which copies it with `{ ...prev }`. An export made right after importing an array therefore writes an array (App.tsx:80). The model converts the array when it is imported, so `Export` always yields an object. The keys, their values and the read figure agree either way.
- `Keys.ChapterKey`: chapter numbers are natural numbers. The source's `number` could be negative or fractional, but every caller passes a chapter index from 1 upwards.
- `Catalog.ValidCatalog`: the catalog is assumed to give every book at least one chapter and a unique name. The lemmas that need this require it.
