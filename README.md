# Library — a verified model of the book list page

The page keeps a list of books in memory (`myLibrary`), shows them as
cards, and lets the user add a book through a form, flip a book between
"Read" and "Not read", and remove a book. This project models that core in
Dafny and proves what it promises:

- `Records` — the collection as a value: a sequence of book records in
  insertion order. It has the first-match lookup (`findIndex`/`find`),
  removal of the first match (`splice`), toggling of the first match, and
  a small language of store operations (add, remove, toggle) with the
  proof that fresh ids on every add keep ids distinct under any sequence
  of operations.
- `Text` — JavaScript's `String.prototype.trim` over its whitespace set,
  and the decimal text of an integer, used by the pages label.
- `View` — `renderLibrary` with the DOM taken away: the empty-state flag
  and one card per book. Each card carries the id, title, author, pages
  label, status text and class, and the two buttons with their
  `data-action`/`data-id`.
- `Controller` — the submit handler's validation and the click handler's
  decision, as values, with walk-through lemmas.
- `Store` — the mutable part. `Book` is a class whose one mutable field,
  `read`, is flipped in place. `Library` holds `myLibrary` as a sequence
  of `Book` references. The methods that add, look up by id, remove,
  submit and click are proved against the value-level functions through
  `Snapshot()`, the records of the stored books in order, and also state
  which `Book` objects stay stored. `FindIndex` is specified directly on
  the stored books' ids.

The fresh id that `crypto.randomUUID()` returns is a parameter
(`AddBook`'s `id`, `Submit`'s `freshId`). The only thing demanded of it is
what the program relies on: it is non-empty and not already in use.

In the click handler, `toggle` re-renders only when the book is found, and
the re-render happens inside the `if (book)` branch (script.js:161-165).
The model follows that code; `Decide` answers `Ignore` for a toggle of an
unknown id.

## Model

| member | source | states |
|---|---|---|
| Store.Book.constructor | script.js:6-11 | a new book holds exactly the given id, title, author, pages and read flag |
| Store.Book.ToggleRead | script.js:13-15 | the read flag is negated and every other field keeps its value |
| Records.Toggled | script.js:13-15 | a toggled record differs from the original in its read flag and in nothing else |
| Records.ToggledTwice | script.js:13-15 | toggling twice gives back the original record |
| Store.Library.ValidSnapshot | script.js:2 | a valid library's records have pairwise distinct ids, which links the store to the value-level id lemmas |
| Store.Library.constructor | script.js:2 | the library starts empty and valid |
| Store.Library.AddBook | script.js:32-37 | appends exactly one new book at the end, keeps the books before it, returns its id, and ids stay distinct |
| Records.AppendKeepsDistinct | script.js:32-37 | appending a record with an unused id keeps ids pairwise distinct |
| Records.IndexOf | script.js:41 | the result is -1 exactly when no record carries the id, and otherwise the first position that does |
| Records.FirstMatchUnique | script.js:41 | the first position carrying an id is unique, so any such position is what the lookup returns |
| Store.Library.FindIndex | script.js:41 | the loop returns -1 exactly when no stored book has the id, and otherwise the first stored position with it |
| Records.Find | script.js:45-47 | no result exactly when the id is absent; otherwise the record at the first position carrying the id |
| Records.FindAfterAppend | script.js:32-37 | a book just appended with a fresh id is found by that id |
| Store.Library.GetById | script.js:45-47 | null exactly when no stored book has the id; otherwise the stored object at the first matching position, whose state is what the value-level lookup finds |
| Records.RemoveFirst | script.js:39-43 | removal leaves the collection unchanged when the id is absent, and otherwise makes it one shorter |
| Records.RemoveFirstAt | script.js:41-42 | removal cuts out exactly the first match and keeps all other books in their order |
| Records.RemoveKeepsDistinct | script.js:39-43 | removal keeps ids pairwise distinct |
| Store.Library.RemoveById | script.js:39-43 | the new collection is the old one without its first book carrying the id; the stored objects are the old ones, in order, minus the one at the first match (none when absent); ids stay distinct |
| Store.Library.Splice | script.js:42 | the books are the old ones without the one at position k, in order, and their records likewise |
| Records.ToggleFirst | script.js:161-163 | toggling by id keeps the length and every id, and changes nothing when the id is absent |
| Records.ToggleFirstAt | script.js:161-163 | toggling by id changes exactly the first match, by `Toggled` |
| Records.ToggleFirstTwice | script.js:161-163 | toggling the same id twice restores the collection |
| Records.ToggleKeepsDistinct | script.js:161-163 | toggling keeps ids pairwise distinct |
| Records.RunKeepsDistinct | script.js:32-47 | with an unused id on every add, any sequence of adds, removes and toggles keeps ids pairwise distinct |
| Text.TrimStart | script.js:129-130 | drops a prefix made only of whitespace, leaving a result that is empty or starts with a non-space |
| Text.TrimEnd | script.js:129-130 | drops a suffix made only of whitespace, leaving a result that is empty or ends with a non-space |
| Text.Trim | script.js:129-130 | the result is a slice of the input with only whitespace outside it and no whitespace at either end |
| Text.TrimEmptyIff | script.js:129-134 | the trimmed text is empty exactly when the input holds no non-whitespace character |
| Text.TrimUnchanged | script.js:129-130 | a text with no whitespace at either end is its own trim |
| Text.TrimIdempotent | script.js:129-130 | trimming twice is trimming once |
| Text.NatString | script.js:81 | the decimal text of a natural is a non-empty digit string without a leading zero unless the number is 0 |
| Text.IntString | script.js:81 | the decimal text of an integer is non-empty and starts with '-' exactly when the integer is negative |
| Text.NatStringValue | script.js:81 | the digits of a natural read back as that natural |
| Text.IntStringRoundTrip | script.js:81 | the decimal text of an integer parses back to it |
| Text.IntStringInjective | script.js:81 | distinct page counts have distinct texts |
| View.PagesLabel | script.js:81 | the label is longer than " pages" and ends with it, the page count's text coming first |
| View.PagesLabelRoundTrip | script.js:81 | the pages label `<n> pages` reads back as n |
| View.CardOf | script.js:63-103 | a card shows its book's id, title, author, pages label and status, and its status text, status class, toggle label and button tags agree |
| View.Cards | script.js:63-105 | the loop makes one card per book, in order, the i-th card being the i-th book's card |
| View.Render | script.js:50-106 | the empty state is shown exactly when the collection is empty; otherwise there is one card per book, in order, each showing its book |
| View.ShownDecodes | script.js:63-103 | a card determines the book it shows: every field of the book can be read back from it |
| View.RenderedButtons | script.js:90-100 | the i-th card's toggle and remove buttons are tagged `toggle` and `remove` and carry the i-th book's id |
| View.RenderInjective | script.js:50-106 | two collections with the same rendering are equal |
| Controller.Validate | script.js:129-138 | a form is accepted exactly when title and author contain a non-space character and pages are above zero; the accepted entry carries the trimmed texts |
| Controller.SubmitRejected | script.js:134-137 | a rejected submission leaves the collection as it was |
| Controller.SubmitAccepted | script.js:134-141 | an accepted submission appends exactly one book with the trimmed texts, and it is found by its id |
| Store.Library.Submit | script.js:125-142 | re-renders exactly when the form is valid; the collection becomes the old one with the trimmed book appended when valid, unchanged otherwise; the books already stored stay the same objects at the same positions, and an accepted form adds one newly created object |
| Controller.Submitted | script.js:134-141 | the submit handler's effect on the collection: unchanged when the form is rejected, otherwise the old books followed by exactly one new book with the trimmed texts |
| Controller.FalsyValues | script.js:155 | the only falsy attribute values are a missing attribute and the empty string |
| Controller.DecideOnButton | script.js:157-165 | for a present, non-empty id, the action `remove` decides a removal and `toggle` a toggle |
| Controller.Decide | script.js:153-166 | remove exactly when both data attributes are truthy and the action is `remove`; toggle exactly when they are truthy, the action is `toggle` and the book exists; otherwise nothing |
| Controller.React | script.js:157-165 | the click handler's effect on the collection: an ignored click changes nothing, and only a removal changes the length |
| Controller.ReactEffect | script.js:157-165 | a removal or toggle of an absent id changes nothing; otherwise a removal cuts out the first book with the id and a toggle flips exactly that book, the others staying in place |
| Controller.ClickKeepsDistinct | script.js:153-166 | no click creates a duplicate id |
| Controller.ClickToggleButton | script.js:92-94 | clicking the toggle button of the i-th card toggles the i-th book and no other |
| Controller.ToggledCard | script.js:84-85 | after that toggle the i-th card shows the other status and every other card is unchanged |
| Controller.ClickRemoveButton | script.js:96-100 | clicking the remove button of the i-th card removes the i-th book and keeps the others in order |
| Store.Library.Click | script.js:153-166 | re-renders exactly when the decision is not to ignore, and the collection becomes the decision's effect on the old one; a removal leaves the old objects, in order, minus the first match; otherwise the stored objects are the same ones (a toggle flips the found object in place) |
| Controller.DuneSubmitted | script.js:125-142 | submitting "Dune", "Frank Herbert", 412, unread to an empty library gives one unread card labelled "412 pages" |
| Controller.DuneToggled | script.js:160-165 | clicking that card's toggle button marks it "Read" |
| Controller.DuneRemoved | script.js:157-159 | clicking its remove button empties the library and shows the empty state |

## Left out

- DOM construction: element creation, `innerHTML = ''`, `className` strings that do not depend on the book (`book-card`, `book-title`, ...), and the button `type`. A card keeps only what depends on the book.
- The panel: `openPanel`, `closePanel`, `form.reset()`, and focus through `requestAnimationFrame`. They change no data.
- Event wiring: `addEventListener`, `preventDefault` and `e.target.closest('button')`. `Click` starts from the button's `data-action` and `data-id`, absent being `None`.
- `crypto.randomUUID()`: randomness, given as a parameter that is non-empty and unused.
- Store.Book.constructor: `Number(pages)` and `Boolean(read)` are not modelled. Pages are an `int` and read a `bool` already, so NaN, fractional and non-numeric pages are not represented, and `${pages}` is the decimal text of an integer only: JavaScript's exponent form for counts of 10^21 and above (`1e+21 pages`) is not modelled.
- Store.Library.Submit: `Number(pagesInput.value)` is not modelled; the form's pages arrive as an `int`.
- Store.Library.AddBook: requires an unused, non-empty id. The source assumes the same of `crypto.randomUUID()` and does not check it.
