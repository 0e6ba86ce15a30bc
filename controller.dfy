/**
 * The two event handlers of the page, as decisions: the submit handler's
 * validation of the form, and the click handler's choice between removing,
 * toggling and doing nothing. Their effect on the collection is given as
 * values here; module Store runs them against the mutable store.
 */
module Controller {
  import opened Wrappers
  import opened Records
  import Text
  import opened View

  /** What the form holds when it is submitted. */
  datatype Form = Form(title: string, author: string, pages: int, read: bool)

  /**
   * The submit handler's check: title and author are trimmed, and the book
   * is accepted only with a non-empty title, a non-empty author and more
   * than zero pages. The accepted entry carries the trimmed texts.
   */
  function Validate(f: Form): (r: Option<Form>)
    ensures r.Some? <==> Text.HasText(f.title) && Text.HasText(f.author) && f.pages > 0
    ensures r.Some? ==> r.value == Form(Text.Trim(f.title), Text.Trim(f.author), f.pages, f.read)
  {
    Text.TrimEmptyIff(f.title);
    Text.TrimEmptyIff(f.author);
    var title := Text.Trim(f.title);
    var author := Text.Trim(f.author);
    if title == [] || author == [] || !(f.pages > 0) then None
    else Some(Form(title, author, f.pages, f.read))
  }

  /** The collection after a submission, `id` being the id the new book would get. */
  function Submitted(books: seq<BookRecord>, f: Form, id: Id): (r: seq<BookRecord>)
    ensures Validate(f).None? ==> r == books
    ensures Validate(f).Some? ==>
              |r| == |books| + 1 && r[..|books|] == books
              && r[|books|] == BookRecord(id, Text.Trim(f.title), Text.Trim(f.author), f.pages, f.read)
  {
    match Validate(f)
    case None => books
    case Some(e) => Apply(books, AddOp(BookRecord(id, e.title, e.author, e.pages, e.read)))
  }

  /** A rejected submission leaves the collection as it was. */
  lemma SubmitRejected(books: seq<BookRecord>, f: Form, id: Id)
    requires !Text.HasText(f.title) || !Text.HasText(f.author) || f.pages <= 0
    ensures Submitted(books, f, id) == books
  {
  }

  /**
   * An accepted submission appends exactly one book, at the end, with the
   * trimmed texts, and that book is found by its id.
   */
  lemma SubmitAccepted(books: seq<BookRecord>, f: Form, id: Id)
    requires Text.HasText(f.title) && Text.HasText(f.author) && f.pages > 0
    requires Absent(books, id)
    ensures var b := BookRecord(id, Text.Trim(f.title), Text.Trim(f.author), f.pages, f.read);
            Submitted(books, f, id) == books + [b] && Find(Submitted(books, f, id), id) == Some(b)
  {
    FindAfterAppend(books, BookRecord(id, Text.Trim(f.title), Text.Trim(f.author), f.pages, f.read));
  }

  /** JavaScript truthiness of a `data-` attribute: present and not the empty string. */
  predicate Truthy(v: Option<string>) {
    v.Some? && v.value != ""
  }

  /** The only falsy attribute values are a missing attribute and the empty string. */
  lemma FalsyValues(v: Option<string>)
    ensures !Truthy(v) <==> v == None || v == Some("")
  {
  }

  /** What the click handler does. */
  datatype Reaction = Ignore | RemoveAndRender(id: Id) | ToggleAndRender(id: Id)

  /**
   * The click handler's decision for a button with the given `data-action`
   * and `data-id`: `remove` always removes and re-renders, `toggle` toggles
   * and re-renders only when the book exists, anything else does nothing.
   */
  function Decide(action: Option<string>, id: Option<string>, books: seq<BookRecord>): (r: Reaction)
    ensures r.RemoveAndRender? <==> Truthy(action) && Truthy(id) && action.value == RemoveAction
    ensures r.ToggleAndRender? <==>
              Truthy(action) && Truthy(id) && action.value == ToggleAction && !Absent(books, id.value)
    ensures !r.Ignore? ==> r.id == id.value
  {
    if !Truthy(action) || !Truthy(id) then Ignore
    else if action.value == RemoveAction then RemoveAndRender(id.value)
    else if action.value == ToggleAction then
      (if Find(books, id.value).Some? then ToggleAndRender(id.value) else Ignore)
    else Ignore
  }

  /**
   * The collection after a reaction: nothing changes when it is ignored,
   * and only a removal changes the length.
   */
  function React(books: seq<BookRecord>, r: Reaction): (s: seq<BookRecord>)
    ensures r.Ignore? ==> s == books
    ensures !r.RemoveAndRender? ==> |s| == |books|
  {
    match r
    case Ignore => books
    case RemoveAndRender(id) => Apply(books, RemoveOp(id))
    case ToggleAndRender(id) => Apply(books, ToggleOp(id))
  }

  /**
   * A removal or a toggle of an absent id changes nothing. Otherwise a
   * removal cuts out the first book with the id and a toggle flips that book
   * in place; every other book stays where it was.
   */
  lemma ReactEffect(books: seq<BookRecord>, r: Reaction)
    requires !r.Ignore?
    ensures Absent(books, r.id) ==> React(books, r) == books
    ensures !Absent(books, r.id) ==>
              var k := IndexOf(books, r.id);
              && (r.RemoveAndRender? ==> React(books, r) == books[..k] + books[k + 1..])
              && (r.ToggleAndRender? ==> React(books, r) == books[k := Toggled(books[k])])
  {
    var k := IndexOf(books, r.id);
    if k != -1 {
      RemoveFirstAt(books, r.id, k);
      ToggleFirstAt(books, r.id, k);
    }
  }

  /** No click creates a duplicate id. */
  lemma ClickKeepsDistinct(books: seq<BookRecord>, action: Option<string>, id: Option<string>)
    requires DistinctIds(books)
    ensures DistinctIds(React(books, Decide(action, id, books)))
  {
    match Decide(action, id, books)
    case Ignore =>
    case RemoveAndRender(x) => RemoveKeepsDistinct(books, x);
    case ToggleAndRender(x) => ToggleKeepsDistinct(books, x);
  }

  /** What the two rendered buttons decide, for a book that is present. */
  lemma DecideOnButton(books: seq<BookRecord>, action: string, id: Id)
    requires id != "" && !Absent(books, id)
    ensures action == RemoveAction ==> Decide(Some(action), Some(id), books) == RemoveAndRender(id)
    ensures action == ToggleAction ==> Decide(Some(action), Some(id), books) == ToggleAndRender(id)
  {
  }

  /**
   * Clicking the toggle button of the i-th rendered card toggles the i-th
   * book and nothing else.
   */
  lemma ClickToggleButton(books: seq<BookRecord>, i: int)
    requires DistinctIds(books) && 0 <= i < |books| && books[i].id != ""
    ensures var button := Render(books).cards[i].toggle;
            var r := Decide(Some(button.action), Some(button.id), books);
            r == ToggleAndRender(books[i].id) && React(books, r) == books[i := Toggled(books[i])]
  {
    var id := books[i].id;
    var button := Render(books).cards[i].toggle;
    RenderedButtons(books, i);
    assert button.action == ToggleAction && button.id == id;
    assert FirstMatch(books, id, i);
    FirstMatchUnique(books, id, i);
    DecideOnButton(books, ToggleAction, id);
    ReactEffect(books, ToggleAndRender(id));
  }

  /** After a toggle, the i-th card shows the other status, and every other card is as it was. */
  lemma ToggledCard(books: seq<BookRecord>, i: int)
    requires 0 <= i < |books|
    ensures var before, after := Render(books), Render(books[i := Toggled(books[i])]);
            && (after.cards[i].statusText == ReadText <==> before.cards[i].statusText != ReadText)
            && forall j :: 0 <= j < |books| && j != i ==> after.cards[j] == before.cards[j]
  {
    var after := books[i := Toggled(books[i])];
    assert Shows(Render(after).cards[i], after[i]);
    assert Shows(Render(books).cards[i], books[i]);
    forall j | 0 <= j < |books| && j != i
      ensures Render(after).cards[j] == Render(books).cards[j]
    {
      assert Render(after).cards[j] == CardOf(after[j]);
    }
  }

  /**
   * Clicking the remove button of the i-th rendered card removes the i-th
   * book and keeps the others in order.
   */
  lemma ClickRemoveButton(books: seq<BookRecord>, i: int)
    requires DistinctIds(books) && 0 <= i < |books| && books[i].id != ""
    ensures var button := Render(books).cards[i].remove;
            var r := Decide(Some(button.action), Some(button.id), books);
            r == RemoveAndRender(books[i].id) && React(books, r) == books[..i] + books[i + 1..]
  {
    var id := books[i].id;
    var button := Render(books).cards[i].remove;
    RenderedButtons(books, i);
    assert button.action == RemoveAction && button.id == id;
    assert FirstMatch(books, id, i);
    FirstMatchUnique(books, id, i);
    DecideOnButton(books, RemoveAction, id);
    ReactEffect(books, RemoveAndRender(id));
  }

  /** The book of the walk-through, as the form submits it. */
  const DuneForm := Form("Dune", "Frank Herbert", 412, false)

  /** Walk-through, step one: submitting the form adds one unread card of 412 pages. */
  lemma DuneSubmitted(id: Id)
    requires id != ""
    ensures Submitted([], DuneForm, id) == [BookRecord(id, "Dune", "Frank Herbert", 412, false)]
    ensures var v := Render(Submitted([], DuneForm, id));
            !v.emptyStateShown && |v.cards| == 1
            && v.cards[0].pagesLabel == "412 pages" && v.cards[0].statusText == "Not read"
  {
    DuneValid();
    var b := BookRecord(id, "Dune", "Frank Herbert", 412, false);
    calc {
      Submitted([], DuneForm, id);
      Apply([], AddOp(BookRecord(id, DuneForm.title, DuneForm.author, DuneForm.pages, DuneForm.read)));
      [b];
    }
    DuneCard(b);
  }

  lemma DuneCard(b: BookRecord)
    requires b.pages == 412 && !b.read
    ensures var v := Render([b]);
            !v.emptyStateShown && |v.cards| == 1
            && v.cards[0].pagesLabel == "412 pages" && v.cards[0].statusText == "Not read"
  {
    DunePagesLabel();
    assert Render([b]).cards == [CardOf(b)];
  }

  lemma DuneValid()
    ensures Validate(DuneForm) == Some(DuneForm)
  {
    Text.TrimUnchanged(DuneForm.title);
    Text.TrimUnchanged(DuneForm.author);
  }

  lemma DunePagesLabel()
    ensures PagesLabel(412) == "412 pages"
  {
    assert Text.NatString(4) == "4";
    assert Text.NatString(41) == "41";
    assert Text.NatString(412) == "412";
  }

  /** Walk-through, step two: the toggle button turns the card to "Read". */
  lemma DuneToggled(id: Id)
    requires id != ""
    ensures var s := [BookRecord(id, "Dune", "Frank Herbert", 412, false)];
            var r := Decide(Some("toggle"), Some(id), s);
            React(s, r) == [BookRecord(id, "Dune", "Frank Herbert", 412, true)]
            && Render(React(s, r)).cards[0].statusText == "Read"
  {
    var s := [BookRecord(id, "Dune", "Frank Herbert", 412, false)];
    assert FirstMatch(s, id, 0);
    FirstMatchUnique(s, id, 0);
  }

  /** Walk-through, step three: the remove button empties the collection and shows the empty state. */
  lemma DuneRemoved(id: Id)
    requires id != ""
    ensures var s := [BookRecord(id, "Dune", "Frank Herbert", 412, true)];
            var r := Decide(Some("remove"), Some(id), s);
            React(s, r) == [] && Render(React(s, r)) == Screen(true, [])
  {
  }
}
