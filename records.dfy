/**
 * The library collection as a value: an ordered sequence of book records,
 * insertion order being display order. The functions here are the
 * specifications the imperative store in module Store is proved against.
 */
module Records {
  import opened Wrappers

  /** A book identifier; the source compares them as strings with `===`. */
  type Id = string

  /** The state of one `Book` object. */
  datatype BookRecord = BookRecord(id: Id, title: string, author: string, pages: int, read: bool)

  /** The record after `toggleRead`: only the read flag differs. */
  function Toggled(b: BookRecord): (r: BookRecord)
    ensures r.read != b.read && r != b
    ensures r.id == b.id && r.title == b.title && r.author == b.author && r.pages == b.pages
  {
    b.(read := !b.read)
  }

  /** `toggleRead` is an involution. */
  lemma ToggledTwice(b: BookRecord)
    ensures Toggled(Toggled(b)) == b
  {
  }

  /** No two records share an id. */
  ghost predicate DistinctIds(s: seq<BookRecord>) {
    forall i, j :: 0 <= i < j < |s| ==> s[i].id != s[j].id
  }

  /** No record carries `id`. */
  ghost predicate Absent(s: seq<BookRecord>, id: Id) {
    forall i :: 0 <= i < |s| ==> s[i].id != id
  }

  /** `k` is the position of the first record carrying `id`. */
  ghost predicate FirstMatch(s: seq<BookRecord>, id: Id, k: int) {
    0 <= k < |s| && s[k].id == id && forall i :: 0 <= i < k ==> s[i].id != id
  }

  /** `findIndex(b => b.id === id)`: the first position carrying `id`, or -1. */
  function IndexOf(s: seq<BookRecord>, id: Id): (k: int)
    ensures -1 <= k < |s|
    ensures k == -1 <==> Absent(s, id)
    ensures k != -1 ==> FirstMatch(s, id, k)
  {
    if s == [] then -1
    else if s[0].id == id then 0
    else
      var k := IndexOf(s[1..], id);
      if k == -1 then -1 else k + 1
  }

  /** There is only one first match. */
  lemma FirstMatchUnique(s: seq<BookRecord>, id: Id, k: int)
    requires FirstMatch(s, id, k)
    ensures IndexOf(s, id) == k
  {
  }

  /** `getBookById`: the first record carrying `id`, or `None`. */
  function Find(s: seq<BookRecord>, id: Id): (r: Option<BookRecord>)
    ensures r.None? <==> Absent(s, id)
    ensures r.Some? ==> exists k :: FirstMatch(s, id, k) && r.value == s[k]
  {
    var k := IndexOf(s, id);
    if k == -1 then None else Some(s[k])
  }

  /** A book just appended with a fresh id is found by that id. */
  lemma FindAfterAppend(s: seq<BookRecord>, b: BookRecord)
    requires Absent(s, b.id)
    ensures Find(s + [b], b.id) == Some(b)
  {
    FirstMatchUnique(s + [b], b.id, |s|);
  }

  /** `removeBookById`: the collection without its first record carrying `id`. */
  function RemoveFirst(s: seq<BookRecord>, id: Id): (r: seq<BookRecord>)
    ensures Absent(s, id) ==> r == s
    ensures !Absent(s, id) ==> |r| == |s| - 1
  {
    if s == [] then []
    else if s[0].id == id then s[1..]
    else [s[0]] + RemoveFirst(s[1..], id)
  }

  /** Removal cuts out exactly the first match and keeps the others in order. */
  lemma {:induction false} RemoveFirstAt(s: seq<BookRecord>, id: Id, k: int)
    requires FirstMatch(s, id, k)
    ensures RemoveFirst(s, id) == s[..k] + s[k + 1..]
  {
    if k > 0 {
      var t := s[1..];
      assert FirstMatch(t, id, k - 1);
      RemoveFirstAt(t, id, k - 1);
      assert t[..k - 1] == s[1..k] && t[k..] == s[k + 1..];
      assert [s[0]] + s[1..k] == s[..k];
    }
  }

  /**
   * The collection after the click handler's toggle branch: the book
   * `getBookById` finds, if any, has `toggleRead` applied; that is, the
   * first match toggled.
   */
  function ToggleFirst(s: seq<BookRecord>, id: Id): (r: seq<BookRecord>)
    ensures |r| == |s|
    ensures Absent(s, id) ==> r == s
    ensures forall i :: 0 <= i < |s| ==> r[i].id == s[i].id
  {
    if s == [] then []
    else if s[0].id == id then [Toggled(s[0])] + s[1..]
    else [s[0]] + ToggleFirst(s[1..], id)
  }

  /** Toggling changes exactly the first match, and only its read flag. */
  lemma {:induction false} ToggleFirstAt(s: seq<BookRecord>, id: Id, k: int)
    requires FirstMatch(s, id, k)
    ensures ToggleFirst(s, id) == s[k := Toggled(s[k])]
  {
    if k > 0 {
      assert FirstMatch(s[1..], id, k - 1);
      ToggleFirstAt(s[1..], id, k - 1);
    }
  }

  /** Toggling the same id twice restores the collection. */
  lemma {:induction false} ToggleFirstTwice(s: seq<BookRecord>, id: Id)
    ensures ToggleFirst(ToggleFirst(s, id), id) == s
  {
    if s != [] && s[0].id != id {
      ToggleFirstTwice(s[1..], id);
    }
  }

  /** Appending a record with an unused id keeps ids distinct. */
  lemma AppendKeepsDistinct(s: seq<BookRecord>, b: BookRecord)
    requires DistinctIds(s) && Absent(s, b.id)
    ensures DistinctIds(s + [b])
  {
  }

  /** Removing a record keeps ids distinct. */
  lemma RemoveKeepsDistinct(s: seq<BookRecord>, id: Id)
    requires DistinctIds(s)
    ensures DistinctIds(RemoveFirst(s, id))
  {
    var k := IndexOf(s, id);
    if k != -1 {
      RemoveFirstAt(s, id, k);
      var r := RemoveFirst(s, id);
      forall i, j | 0 <= i < j < |r| ensures r[i].id != r[j].id {
        var i' := if i < k then i else i + 1;
        var j' := if j < k then j else j + 1;
        assert r[i] == s[i'] && r[j] == s[j'];
      }
    }
  }

  /** Toggling keeps ids distinct. */
  lemma ToggleKeepsDistinct(s: seq<BookRecord>, id: Id)
    requires DistinctIds(s)
    ensures DistinctIds(ToggleFirst(s, id))
  {
  }

  /** One store operation, as the controller issues them. */
  datatype StoreOp = AddOp(book: BookRecord) | RemoveOp(id: Id) | ToggleOp(id: Id)

  function Apply(s: seq<BookRecord>, op: StoreOp): seq<BookRecord> {
    match op
    case AddOp(b) => s + [b]
    case RemoveOp(id) => RemoveFirst(s, id)
    case ToggleOp(id) => ToggleFirst(s, id)
  }

  function Run(s: seq<BookRecord>, ops: seq<StoreOp>): seq<BookRecord>
    decreases |ops|
  {
    if ops == [] then s else Run(Apply(s, ops[0]), ops[1..])
  }

  /** Every add in `ops` brings an id unused at the moment it is added. */
  ghost predicate FreshAdds(s: seq<BookRecord>, ops: seq<StoreOp>)
    decreases |ops|
  {
    ops == [] ||
    ((ops[0].AddOp? ==> Absent(s, ops[0].book.id)) && FreshAdds(Apply(s, ops[0]), ops[1..]))
  }

  /** With fresh ids on every add, no sequence of add, remove and toggle creates a duplicate id. */
  lemma {:induction false} RunKeepsDistinct(s: seq<BookRecord>, ops: seq<StoreOp>)
    requires DistinctIds(s) && FreshAdds(s, ops)
    ensures DistinctIds(Run(s, ops))
    decreases |ops|
  {
    if ops != [] {
      match ops[0] {
        case AddOp(b) => AppendKeepsDistinct(s, b);
        case RemoveOp(id) => RemoveKeepsDistinct(s, id);
        case ToggleOp(id) => ToggleKeepsDistinct(s, id);
      }
      RunKeepsDistinct(Apply(s, ops[0]), ops[1..]);
    }
  }
}
