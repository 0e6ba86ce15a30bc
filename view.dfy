/**
 * `renderLibrary` with the DOM taken away: what it shows is a function of
 * the collection. A card keeps the data its DOM nodes carry (the id on the
 * card and on both buttons, title, author, the pages label, the status text
 * and class, the button labels and their `data-action` tags).
 */
module View {
  import opened Wrappers
  import opened Records
  import Text

  /** An action button: its `data-action`, its `data-id` and its text. */
  datatype Button = Button(action: string, id: Id, text: string)

  /** One `article.book-card`. */
  datatype Card = Card(
    id: Id,
    title: string,
    author: string,
    pagesLabel: string,
    statusClass: string,
    statusText: string,
    toggle: Button,
    remove: Button)

  /** Whether `#empty-state` is displayed, and the cards inside `#library`. */
  datatype Screen = Screen(emptyStateShown: bool, cards: seq<Card>)

  const PagesSuffix := " pages"
  const ReadText := "Read"
  const UnreadText := "Not read"
  const ReadClass := "book-status book-status--read"
  const UnreadClass := "book-status book-status--unread"
  const ToggleAction := "toggle"
  const RemoveAction := "remove"

  /**
   * The page count label, `${pages} pages`: the decimal text of `pages`
   * followed by " pages"; `PagesLabelRoundTrip` reads the count back.
   */
  function PagesLabel(pages: int): (r: string)
    ensures |r| > |PagesSuffix| && r[|r| - |PagesSuffix|..] == PagesSuffix
  {
    Text.IntString(pages) + PagesSuffix
  }

  /** Reads the page count back from a label; `None` when it is not a label. */
  function ParsePagesLabel(s: string): Option<int> {
    var n := |s| - |PagesSuffix|;
    if n >= 0 && s[n..] == PagesSuffix then Text.ParseInt(s[..n]) else None
  }

  lemma PagesLabelRoundTrip(pages: int)
    ensures ParsePagesLabel(PagesLabel(pages)) == Some(pages)
  {
    var s := PagesLabel(pages);
    var n := |s| - |PagesSuffix|;
    assert s[..n] == Text.IntString(pages);
    Text.IntStringRoundTrip(pages);
  }

  /**
   * The agreements every rendered card keeps: both buttons carry the card's
   * id and their action tag, and status text, status class and toggle label
   * all tell the same read state.
   */
  predicate Consistent(c: Card) {
    && c.toggle == Button(ToggleAction, c.id, c.toggle.text)
    && c.remove == Button(RemoveAction, c.id, "Remove")
    && ((c.statusText == ReadText && c.statusClass == ReadClass && c.toggle.text == "Mark as unread")
        || (c.statusText == UnreadText && c.statusClass == UnreadClass && c.toggle.text == "Mark as read"))
  }

  /** The card shows book `b`: its id, title, author, page count and read state. */
  predicate Shows(c: Card, b: BookRecord) {
    && c.id == b.id && c.title == b.title && c.author == b.author
    && c.pagesLabel == PagesLabel(b.pages)
    && (c.statusText == ReadText <==> b.read)
  }

  /** The book a card stands for, read off the card alone. */
  function Decode(c: Card): Option<BookRecord> {
    match ParsePagesLabel(c.pagesLabel)
    case None => None
    case Some(pages) => Some(BookRecord(c.id, c.title, c.author, pages, c.statusText == ReadText))
  }

  /** The card built for one book: consistent, and showing that book. */
  function CardOf(b: BookRecord): (c: Card)
    ensures Consistent(c) && Shows(c, b)
  {
    Card(
      b.id,
      b.title,
      b.author,
      PagesLabel(b.pages),
      if b.read then ReadClass else UnreadClass,
      if b.read then ReadText else UnreadText,
      Button(ToggleAction, b.id, if b.read then "Mark as unread" else "Mark as read"),
      Button(RemoveAction, b.id, "Remove"))
  }

  /** The loop over the collection: one card per book, in collection order. */
  function Cards(books: seq<BookRecord>): (cs: seq<Card>)
    ensures |cs| == |books|
    ensures forall i :: 0 <= i < |books| ==> cs[i] == CardOf(books[i])
  {
    if books == [] then [] else [CardOf(books[0])] + Cards(books[1..])
  }

  /** `renderLibrary`: the empty state with no cards, or one card per book and no empty state. */
  function Render(books: seq<BookRecord>): (v: Screen)
    ensures v.emptyStateShown <==> |books| == 0
    ensures |v.cards| == |books|
    ensures forall i :: 0 <= i < |books| ==> Consistent(v.cards[i]) && Shows(v.cards[i], books[i])
  {
    if books == [] then Screen(true, []) else Screen(false, Cards(books))
  }

  /** A card that shows a book decodes back to exactly that book: a card loses nothing. */
  lemma ShownDecodes(c: Card, b: BookRecord)
    requires Shows(c, b)
    ensures Decode(c) == Some(b)
  {
    PagesLabelRoundTrip(b.pages);
  }

  /** The i-th card's buttons are tagged `toggle` and `remove` and carry the i-th book's id. */
  lemma RenderedButtons(books: seq<BookRecord>, i: int)
    requires 0 <= i < |books|
    ensures var c := Render(books).cards[i];
            c.id == books[i].id
            && c.toggle.action == ToggleAction && c.toggle.id == books[i].id
            && c.remove.action == RemoveAction && c.remove.id == books[i].id
  {
    var c := Render(books).cards[i];
    assert Consistent(c) && Shows(c, books[i]);
  }

  /** The view determines the collection: rendering forgets nothing and invents nothing. */
  lemma RenderInjective(a: seq<BookRecord>, b: seq<BookRecord>)
    requires Render(a) == Render(b)
    ensures a == b
  {
    var v := Render(a);
    assert |a| == |b|;
    forall i | 0 <= i < |a| ensures a[i] == b[i] {
      ShownDecodes(v.cards[i], a[i]);
      ShownDecodes(v.cards[i], b[i]);
    }
  }
}
