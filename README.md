# Book catalog query engine

A Dafny model of the catalog browser in `scripts.js`. The browser shows a paginated list of books from a static list, which the user can filter by title, author and genre, and opens a detail overlay for the book that is clicked. The model covers:

- the query `getBooks(filters)`, up to three `Array.prototype.filter` passes (module `Books`);
- the ASCII lower-casing and substring search the title pass uses (module `Text`);
- the page slices and the remaining count that drive "Show more" (module `Paging`);
- the page state: the module-level `page` and `matches`, the books appended to the list, the "no results" message, the "Show more" button and the detail overlay (class `CatalogPage.Catalog`, one method per event handler);
- a worked example: five titles, the query "a", two books per page (module `Scenarios`).

The static data of `data.js` (the book list and `BOOKS_PER_PAGE`) is passed to the constructor as parameters. data.js is not part of this model. Rendering is reduced to `displayed`, the sequence of books in the list container.

Main results:
- `getBooks` is a single filter pass that keeps exactly the books passing every rule that applies (`GetBooksIsOnePass`).
- From that: membership exactly characterised, counts preserved, original order kept, no repeats introduced, identity when no filter applies, idempotence.
- After any sequence of events, the list shows exactly the first `min(|matches|, page * n)` matches, and the button's count is the number of matches not yet shown (`Catalog.Valid`, `ShownIsPrefix`, `RemainingIsUnshown`).

Details of the code that the model follows:
- The author and genre passes test JavaScript truthiness before comparing with `"any"`, so an empty author or genre is skipped as well (`AuthorApplies`, `GenreApplies`).
- "Show more" does not check the remaining count itself; only the disabled button keeps the user from clicking it. `ShowMore` therefore has no such precondition. Its contract shows that a click while disabled appends nothing.
- The initial display (scripts.js:159) runs even when the book list is empty, and it does not touch the "no results" message.

## Model

| member | source | states |
|---|---|---|
| Text.LowerChar | scripts.js:18 | The result is never an ASCII capital. A capital moves up 32 code points to its lower-case letter; every other character is unchanged. |
| Text.ToLower | scripts.js:18 | `toLowerCase` keeps the length and lower-cases each character on its own. |
| Text.ToLowerIdempotent | scripts.js:18 | Lower-casing an already lower-cased string changes nothing. |
| Text.Includes | scripts.js:18 | `includes` is true exactly when the query occurs in the string as a contiguous run at some offset. The empty query occurs everywhere. |
| Text.IncludesChar | scripts.js:18 | A one-character query is found exactly when that character occurs in the string. |
| Books.TitleApplies | scripts.js:16-28 | The stage guards: the title stage runs when the title is present and non-empty. The author stage (`AuthorApplies`) and genre stage (`GenreApplies`) run when the field is present, non-empty and not "any". |
| Books.TitleMatches | scripts.js:18-29 | The per-book tests: the lower-cased title includes the lower-cased query. `AuthorMatches` compares the author id exactly; `GenreMatches` tests that the genre is in the book's genre list. |
| Books.GetBooks | scripts.js:12-33 | The three optional stages in source order. The result is never longer than the list. The stages together equal one pass with `Passes` (`GetBooksIsOnePass`), and no stage applying leaves the whole list (`GetBooksUnconstrained`). |
| Books.Keep | scripts.js:17-19 | `Array.prototype.filter` never returns more elements than its input. |
| Books.KeepCount | scripts.js:17-19 | An element that satisfies the predicate is kept as many times as it occurs; any other element is dropped entirely. |
| Books.KeepMembership | scripts.js:17-19 | An element is in the filtered list iff it is in the input and satisfies the predicate. |
| Books.KeepIsSubsequence | scripts.js:17-19 | Filtering only deletes elements: the result is an order-preserving subsequence of the input. |
| Books.KeepKeep | scripts.js:17-29 | Two successive filter passes give the same list as one pass with the conjunction of their predicates. |
| Books.KeepDistinct | scripts.js:17-19 | Filtering a list without repetitions gives a list without repetitions. |
| Books.StageIsKeep | scripts.js:16-30 | A stage that runs its filter only when its guard holds equals one filter pass with "guard implies predicate". |
| Books.GetBooksIsOnePass | scripts.js:12-33 | The title, author and genre stages together equal one filter pass. That pass keeps the books passing every rule whose guard holds. |
| Books.GetBooksMembership | scripts.js:16-30 | A book is in the result iff it is in the list and passes each rule that applies. Title: the lower-cased title contains the lower-cased query whenever the query is non-empty. Author: the id matches exactly when the author is set and not "any". Genre: the genre is listed when the genre is set and not "any". |
| Books.GetBooksCount | scripts.js:13-32 | A passing book occurs in the result as often as in the list; a failing book does not occur at all. |
| Books.GetBooksIsSubsequence | scripts.js:13-32 | The result is an order-preserving subsequence of the book list. |
| Books.GetBooksDistinct | scripts.js:13-32 | A book list without repetitions yields a result without repetitions. |
| Books.GetBooksUnconstrained | scripts.js:12-33 | With no title (absent or empty), and author and genre absent, empty or "any", the result is the whole list in its order. |
| Books.GetBooksIdempotent | scripts.js:12-33 | Running the same query on its own result returns that result unchanged. |
| Books.FindById | scripts.js:289 | `books.find` gives nothing exactly when no book has the id. Otherwise it gives a book with that id such that no earlier book has it. |
| Paging.Slice | scripts.js:150 | `slice(start, end)` is the contiguous run of the list starting at `start`. Its length is `min(end, length) - start`, or zero when `start` is at or past the end or past `end`. |
| Paging.PageItems | scripts.js:275-279 | Page `p` is the slice from `(p - 1) * n` to `p * n`; `Shown` joins pages 1..k in order (the first page at scripts.js:159 and 265, each later one at scripts.js:275-279). |
| Paging.ShowMoreDisabled | scripts.js:142 | The button is disabled when the remaining count is below 1. |
| Paging.Remaining | scripts.js:129-133 | The remaining count is the list length minus `min(length, page * n)`. It is never negative, and it is zero exactly when `page * n` reaches the length. |
| Paging.AppendPage | scripts.js:275-279 | Appending the slice `[page * n, (page + 1) * n)` to the prefix of length `min(length, page * n)` gives the prefix of length `min(length, (page + 1) * n)`. |
| Paging.ShownIsPrefix | scripts.js:273-282 | Pages 1..k displayed one after the other are exactly the first `min(length, k * n)` matches: nothing repeated, nothing skipped. |
| Paging.RemainingIsUnshown | scripts.js:129-142 | After pages 1..k, the remaining count is the number of matches not yet shown. The button is disabled exactly when every match is shown. |
| Paging.PagesDisjoint | scripts.js:275-279 | Over a list without repetitions, no book shown on one page appears on a different page. |
| CatalogPage.Catalog.constructor | scripts.js:3-4 | Page load: page 1, the matches are all books, pages 1..1 are shown (the first `n` books, scripts.js:159), the button reflects the remaining count (scripts.js:200), and the state invariant holds. |
| CatalogPage.Catalog.DisplayBooks | scripts.js:146-156 | The list gains `matches.slice(start, end)` at its end and keeps everything already in it. |
| CatalogPage.Catalog.UpdateRemainingBookCount | scripts.js:129-143 | The button's count becomes the remaining count for `matches` and `page`. The button is disabled exactly when that count is below 1. |
| CatalogPage.Catalog.Search | scripts.js:247-270 | A submit replaces `matches` with the query's result and resets `page` to 1. The list becomes the first `min(|matches|, n)` matches. The "no results" message shows exactly when nothing matched. The count is the number of matches not shown. The overlay is untouched. |
| CatalogPage.Catalog.ShowMore | scripts.js:273-282 | A click appends `matches[page * n .. (page + 1) * n)`, clipped to the list end, and increments `page`; `matches` is unchanged. The list is again the prefix of length `min(|matches|, page * n)`. A click while the button is disabled appends nothing. |
| CatalogPage.Catalog.Select | scripts.js:285-306 | The id is looked up in the full book list, not in the matches. A found book opens and fills the overlay; when nothing is found, the overlay state is unchanged. |
| Scenarios.TitleSearchExample | scripts.js:12-33 | Five titles and the query "a" give "A Tale", "Another A", "A Second" in that order. Page 1 of two shows the first two with one remaining; page 2 shows the last with none remaining. |

## Left out

- The `BookPreview` custom element, its shadow DOM, styling and `CustomEvent` dispatch (scripts.js:36-109), and `createBookPreview` (scripts.js:112-121): rendering only, represented by the book appended to `displayed`.
- `populateDropdown` (scripts.js:162-183): DOM construction over the author and genre tables, which come from data.js.
- Theme detection and the settings form (scripts.js:186-197, 233-244): browser media queries and CSS variables.
- `toggleOverlay` and the listeners that open and close the search, settings and detail overlays (scripts.js:124-126, 203-230). The search submit's closing of the search overlay and `window.scrollTo` (scripts.js:268-269) are UI effects too. `Select` models only the opening and filling of the detail overlay.
- The publication year shown in the overlay (`new Date(...).getFullYear()`, scripts.js:302) and the author's display name: date parsing and a table lookup outside the core. The overlay is filled with the whole `Book`, which carries `published` as a string.
- Text.ToLower: ASCII case folding only; JavaScript's `toLowerCase` also folds non-ASCII letters, which are left unchanged here.
- Text.Includes: strings are sequences of characters, compared character by character; JavaScript compares UTF-16 code units, and no Unicode normalisation is modelled.
- `FormData` and `Object.fromEntries`: the form sends strings; a field missing from the form is `None`, and `getBooks()` without arguments is `NoFilters`.
- JavaScript numbers are doubles; page arithmetic here is on unbounded integers, which agrees with the source for any realistic list length.
- The contents of data.js: `books` and `BOOKS_PER_PAGE` are constructor parameters; `authors` and `genres` are used only by the rendering left out above. Distinctness of the book records (`Distinct`, implied by unique ids) is a hypothesis of the lemmas that need it, not a property of given data.
