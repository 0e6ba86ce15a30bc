/**
 * The mutable store: `Book` objects and the `myLibrary` array, with the
 * operations that push to it, splice it and flip a book's read flag, and
 * the two event handlers that drive them. The methods that change or read
 * the collection as a whole are proved against the value-level functions of
 * modules Records and Controller through `Snapshot()`; `FindIndex` is
 * specified directly on the stored books' ids.
 */
module Store {
  import opened Wrappers
  import opened Records
  import Text
  import opened View
  import opened Controller

  /**
   * A book. Nothing in the program writes `id`, `title`, `author` or
   * `pages` after construction, so they are constants; `read` is the one
   * field `toggleRead` updates.
   */
  class Book {
    const id: Id
    const title: string
    const author: string
    const pages: int
    var read: bool

    constructor (id: Id, title: string, author: string, pages: int, read: bool)
      ensures Record() == BookRecord(id, title, author, pages, read)
    {
      this.id := id;
      this.title := title;
      this.author := author;
      this.pages := pages;
      this.read := read;
    }

    /** The book's current state as a value. */
    function Record(): BookRecord
      reads this
    {
      BookRecord(id, title, author, pages, read)
    }

    /** `toggleRead`: negates `read`, nothing else. */
    method ToggleRead()
      modifies this
      ensures Record() == Toggled(old(Record()))
    {
      read := !read;
    }
  }

  /** The states of a sequence of books, in order. */
  function RecordsOf(bs: seq<Book>): (s: seq<BookRecord>)
    reads bs
    ensures |s| == |bs|
    ensures forall i {:trigger s[i]} :: 0 <= i < |bs| ==> s[i] == bs[i].Record()
  {
    if bs == [] then [] else [bs[0].Record()] + RecordsOf(bs[1..])
  }

  /** `myLibrary` and the functions that work on it. */
  class Library {
    var books: seq<Book>

    /** Ids are non-empty and pairwise distinct (so no book object is stored twice). */
    ghost predicate Valid()
      reads this
    {
      && (forall i :: 0 <= i < |books| ==> books[i].id != "")
      && (forall i, j :: 0 <= i < j < |books| ==> books[i].id != books[j].id)
    }

    /** The collection as a value. */
    function Snapshot(): seq<BookRecord>
      reads this, books
    {
      RecordsOf(books)
    }

    /** No stored book carries `id`. */
    predicate Unused(id: Id)
      reads this
    {
      forall i :: 0 <= i < |books| ==> books[i].id != id
    }

    /** A valid library's records have pairwise distinct ids, the premise of `RunKeepsDistinct`. */
    lemma ValidSnapshot()
      requires Valid()
      ensures DistinctIds(Snapshot())
    {
    }

    constructor ()
      ensures Valid() && Snapshot() == []
    {
      books := [];
    }

    /**
     * `addBookToLibrary`: appends one new book at the end and returns its
     * id. `id` stands for the value of `crypto.randomUUID()`.
     */
    method AddBook(id: Id, title: string, author: string, pages: int, read: bool) returns (newId: Id)
      requires Valid() && id != "" && Unused(id)
      modifies this
      ensures Valid()
      ensures newId == id
      ensures Snapshot() == old(Snapshot()) + [BookRecord(id, title, author, pages, read)]
      ensures |books| == old(|books|) + 1 && books[..old(|books|)] == old(books)
      ensures fresh(books[old(|books|)])
    {
      var book := new Book(id, title, author, pages, read);
      books := books + [book];
      newId := book.id;
    }

    /** `findIndex(b => b.id === id)` on the stored books: the first position with `id`, or -1. */
    method FindIndex(id: Id) returns (k: int)
      ensures -1 <= k < |books|
      ensures k == -1 <==> Unused(id)
      ensures k != -1 ==> books[k].id == id && forall i :: 0 <= i < k ==> books[i].id != id
    {
      k := 0;
      while k < |books| && books[k].id != id
        invariant 0 <= k <= |books|
        invariant forall i :: 0 <= i < k ==> books[i].id != id
      {
        k := k + 1;
      }
      if k == |books| {
        k := -1;
      }
    }

    /** `getBookById`: the stored book object with `id` (the first one), or null. */
    method GetById(id: Id) returns (b: Book?)
      ensures b == null <==> Find(Snapshot(), id).None?
      ensures b != null ==> b in books && Find(Snapshot(), id) == Some(b.Record())
      ensures b != null ==> b == books[IndexOf(Snapshot(), id)]
    {
      var k := FindIndex(id);
      if k == -1 {
        b := null;
      } else {
        FirstMatchUnique(Snapshot(), id, k);
        b := books[k];
      }
    }

    /** `removeBookById`: splices out the first book with `id`, if any. */
    method RemoveById(id: Id)
      requires Valid()
      modifies this
      ensures Valid()
      ensures Snapshot() == RemoveFirst(old(Snapshot()), id)
      ensures var k := IndexOf(old(Snapshot()), id);
              books == if k == -1 then old(books) else old(books[..k] + books[k + 1..])
    {
      ValidSnapshot();
      ghost var s := Snapshot();
      var k := FindIndex(id);
      if k != -1 {
        assert FirstMatch(s, id, k);
        FirstMatchUnique(s, id, k);
        RemoveFirstAt(s, id, k);
        Splice(k);
      } else {
        assert Absent(s, id);
      }
    }

    /** `splice(k, 1)`: removes the book at position k, keeping the others in order. */
    method Splice(k: int)
      requires Valid() && 0 <= k < |books|
      modifies this
      ensures Valid()
      ensures books == old(books[..k] + books[k + 1..])
      ensures Snapshot() == old(Snapshot()[..k] + Snapshot()[k + 1..])
    {
      ghost var s := Snapshot();
      ghost var before := books;
      books := books[..k] + books[k + 1..];
      forall i | 0 <= i < |books|
        ensures books[i] == before[if i < k then i else i + 1]
        ensures books[i].Record() == (s[..k] + s[k + 1..])[i]
      {
      }
    }

    /**
     * The submit handler after `preventDefault`: validates the form and adds
     * the book when it passes. The result says whether the list is rendered
     * again. `freshId` is used only when a book is created.
     */
    method Submit(form: Form, freshId: Id) returns (rerender: bool)
      requires Valid()
      requires Validate(form).Some? ==> freshId != "" && Unused(freshId)
      modifies this
      ensures Valid()
      ensures rerender <==> Validate(form).Some?
      ensures Snapshot() == Submitted(old(Snapshot()), form, freshId)
      ensures |books| >= old(|books|) && books[..old(|books|)] == old(books)
      ensures rerender ==> |books| == old(|books|) + 1 && fresh(books[old(|books|)])
    {
      var title := Text.Trim(form.title);
      var author := Text.Trim(form.author);
      var pages := form.pages;
      var read := form.read;
      if title == [] || author == [] || !(pages > 0) {
        assert Validate(form).None?;
        return false;
      }
      assert Validate(form) == Some(Form(title, author, pages, read));
      ghost var s := Snapshot();
      var _ := AddBook(freshId, title, author, pages, read);
      assert Snapshot() == s + [BookRecord(freshId, title, author, pages, read)];
      rerender := true;
    }

    /**
     * The click handler once the button is found: `action` and `id` are its
     * `data-action` and `data-id`. The result says whether the list is
     * rendered again.
     */
    method Click(action: Option<string>, id: Option<string>) returns (rerender: bool)
      requires Valid()
      modifies this, books
      ensures Valid()
      ensures rerender <==> !Decide(action, id, old(Snapshot())).Ignore?
      ensures Snapshot() == React(old(Snapshot()), Decide(action, id, old(Snapshot())))
      ensures !Decide(action, id, old(Snapshot())).RemoveAndRender? ==> books == old(books)
      ensures Decide(action, id, old(Snapshot())).RemoveAndRender? ==>
                var k := IndexOf(old(Snapshot()), id.value);
                books == if k == -1 then old(books) else old(books[..k] + books[k + 1..])
    {
      if !Truthy(action) || !Truthy(id) {
        return false;
      }
      ghost var s := Snapshot();
      if action.value == RemoveAction {
        assert Decide(action, id, s) == RemoveAndRender(id.value);
        RemoveById(id.value);
        rerender := true;
      } else if action.value == ToggleAction {
        var book := GetById(id.value);
        if book != null {
          ghost var k := IndexOf(s, id.value);
          assert Decide(action, id, s) == ToggleAndRender(id.value);
          ReactEffect(s, ToggleAndRender(id.value));
          book.ToggleRead();
          forall i | 0 <= i < |books| ensures books[i].Record() == s[k := Toggled(s[k])][i] {
            if i != k {
              assert books[i] != book;
            }
          }
          rerender := true;
        } else {
          rerender := false;
        }
      } else {
        rerender := false;
      }
    }
  }
}
