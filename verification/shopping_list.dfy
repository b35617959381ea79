/** The shopping list of the recipe application: an ordered collection of
    ingredient lines, each carrying an opaque id generated when it is added.

    The list is a value: every operation returns the new list instead of
    mutating an `items` array in place. The quantity of a line is kept opaque
    (type parameter `C`): the list never inspects it, it only stores and
    overwrites it. */
module ShoppingList {
  import opened Wrappers

  /** Item ids are strings produced by an external unique-id generator. */
  type Id = string

  datatype Item<C> = Item(id: Id, count: C, unit: string, ingredient: string)

  datatype List<C> = List(items: seq<Item<C>>)

  /** Result of `addItem`: the new list and the item it stored (and returned). */
  datatype Added<C> = Added(list: List<C>, item: Item<C>)

  /** `updateCount` on an id the list does not hold dereferences `undefined`
      and throws; the model reports it as this error. */
  datatype ListError = NotFound(id: Id)

  /** The ids currently held by a sequence of items. */
  function Ids<C>(items: seq<Item<C>>): set<Id> {
    set i | 0 <= i < |items| :: items[i].id
  }

  /** No two items share an id. */
  predicate UniqueIds<C>(items: seq<Item<C>>) {
    forall i, j :: 0 <= i < j < |items| ==> items[i].id != items[j].id
  }

  // ---------------------------------------------------------------------------
  // Array primitives with their JavaScript meaning
  // ---------------------------------------------------------------------------

  /** `Array.prototype.findIndex` with the predicate `el.id === id`: the
      position of the FIRST item with that id, or -1 when there is none. */
  function FindIndex<C>(items: seq<Item<C>>, id: Id): (k: int)
    ensures -1 <= k < |items|
    ensures k == -1 <==> id !in Ids(items)
    ensures 0 <= k ==> items[k].id == id
    ensures 0 <= k ==> forall j :: 0 <= j < k ==> items[j].id != id
    decreases |items|
  {
    if |items| == 0 then -1
    else if items[0].id == id then 0
    else
      var k := FindIndex(items[1..], id);
      if k == -1 then -1 else k + 1
  }

  /** The sequence without its element at position `k`, order kept. */
  function RemoveAt<T>(s: seq<T>, k: nat): (r: seq<T>)
    requires k < |s|
    ensures |r| == |s| - 1
    ensures forall i :: 0 <= i < k ==> r[i] == s[i]
    ensures forall i :: k <= i < |r| ==> r[i] == s[i + 1]
    ensures multiset(r) + multiset{s[k]} == multiset(s)
  {
    assert s == s[..k] + [s[k]] + s[k + 1..];
    s[..k] + s[k + 1..]
  }

  /** The index at which `Array.prototype.splice(start, ...)` starts on an
      array of length `len`: a negative start counts back from the end and is
      clamped at 0, a start past the end is clamped to the length. */
  function SpliceStart(len: nat, start: int): (p: nat)
    ensures p <= len
    ensures 0 <= start < len ==> p == start
    ensures start < 0 && 0 <= len + start ==> p == len + start
    ensures len + start < 0 ==> p == 0
    ensures len <= start ==> p == len
  {
    if start < 0 then (if len + start < 0 then 0 else len + start)
    else if start < len then start
    else len
  }

  /** `array.splice(start, 1)`: removes at most one element, at the
      normalised start; nothing when the start lands at the end, which is
      always the case on an empty array. */
  function SpliceOne<T>(s: seq<T>, start: int): (r: seq<T>)
    ensures 0 <= start < |s| ==> r == RemoveAt(s, start)
    ensures start < 0 && 0 <= |s| + start ==> r == RemoveAt(s, |s| + start)
    ensures |s| + start < 0 && 0 < |s| ==> r == RemoveAt(s, 0)
    ensures |s| <= start ==> r == s
    ensures |s| == 0 ==> r == s
  {
    var p := SpliceStart(|s|, start);
    if p < |s| then RemoveAt(s, p) else s
  }

  // ---------------------------------------------------------------------------
  // The List operations
  // ---------------------------------------------------------------------------

  /** `new List()`: a list holding no items, so trivially one with distinct ids. */
  function Empty<C>(): (l: List<C>)
    ensures |l.items| == 0
    ensures Ids(l.items) == {}
    ensures UniqueIds(l.items)
  {
    List([])
  }

  /** `addItem(count, unit, ingredient)`, with `id` the value the unique-id
      generator returned for this call. The item is appended at the end and is
      also the value returned to the caller. */
  function AddItem<C>(l: List<C>, id: Id, count: C, unit: string, ingredient: string): (r: Added<C>)
    ensures r.item.id == id && r.item.count == count
    ensures r.item.unit == unit && r.item.ingredient == ingredient
    ensures |r.list.items| == |l.items| + 1
    ensures r.list.items[..|l.items|] == l.items
    ensures r.list.items[|l.items|] == r.item
    ensures Ids(r.list.items) == Ids(l.items) + {id}
  {
    var item := Item(id, count, unit, ingredient);
    var items := l.items + [item];
    assert items[..|l.items|] == l.items;
    Added(List(items), item)
  }

  /** `deleteItem(id)`: `splice(findIndex(...), 1)`. With the id present this
      removes its first occurrence; with the id absent `findIndex` gives -1 and
      the splice removes the LAST item of a non-empty list. */
  function DeleteItem<C>(l: List<C>, id: Id): (r: List<C>)
    ensures id in Ids(l.items) ==>
              exists k :: 0 <= k < |l.items| && l.items[k].id == id
                          && (forall j :: 0 <= j < k ==> l.items[j].id != id)
                          && r.items == RemoveAt(l.items, k)
    ensures id !in Ids(l.items) && 0 < |l.items| ==> r.items == l.items[..|l.items| - 1]
    ensures id !in Ids(l.items) && |l.items| == 0 ==> r == l
  {
    var k := FindIndex(l.items, id);
    List(SpliceOne(l.items, k))
  }

  /** `updateCount(id, newCount)`: `find` picks the first item with the id (the
      same one `findIndex` picks) and its count is overwritten; every other
      field and item stays. With the id absent `find` yields `undefined` and
      the assignment throws, leaving the list as it was. */
  function UpdateCount<C>(l: List<C>, id: Id, newCount: C): (r: Result<List<C>, ListError>)
    ensures r.Failure? <==> id !in Ids(l.items)
    ensures r.Failure? ==> r.error == NotFound(id)
    ensures r.Success? ==>
              exists k :: 0 <= k < |l.items| && l.items[k].id == id
                          && (forall j :: 0 <= j < k ==> l.items[j].id != id)
                          && r.value.items == l.items[k := l.items[k].(count := newCount)]
  {
    var k := FindIndex(l.items, id);
    if k == -1 then Failure(NotFound(id))
    else Success(List(l.items[k := l.items[k].(count := newCount)]))
  }

  // ---------------------------------------------------------------------------
  // Properties relating the operations
  // ---------------------------------------------------------------------------

  /** Removing any one item keeps the ids distinct and drops exactly the
      removed item's id. */
  lemma RemoveAtKeepsUnique<C>(items: seq<Item<C>>, k: nat)
    requires k < |items| && UniqueIds(items)
    ensures UniqueIds(RemoveAt(items, k))
    ensures Ids(RemoveAt(items, k)) == Ids(items) - {items[k].id}
  {
    var r := RemoveAt(items, k);
    forall i, j | 0 <= i < j < |r|
      ensures r[i].id != r[j].id
    {
      var i' := if i < k then i else i + 1;
      var j' := if j < k then j else j + 1;
      assert r[i] == items[i'] && r[j] == items[j'];
    }
    forall x | x in Ids(items) - {items[k].id}
      ensures x in Ids(r)
    {
      var i :| 0 <= i < |items| && items[i].id == x;
      assert i != k;
      if i < k {
        assert r[i] == items[i];
      } else {
        assert r[i - 1] == items[i];
      }
    }
    forall x | x in Ids(r)
      ensures x in Ids(items) - {items[k].id}
    {
      var i :| 0 <= i < |r| && r[i].id == x;
      var i' := if i < k then i else i + 1;
      assert r[i] == items[i'];
    }
  }

  /** Given a fresh id, `addItem` keeps all ids distinct; on a list with
      distinct ids, a reused id is exactly what breaks it. */
  lemma AddItemKeepsUnique<C>(l: List<C>, id: Id, count: C, unit: string, ingredient: string)
    requires UniqueIds(l.items)
    ensures UniqueIds(AddItem(l, id, count, unit, ingredient).list.items) <==> id !in Ids(l.items)
  {
  }

  /** `deleteItem` keeps all ids distinct whatever id it is given (it always
      removes at most one item). */
  lemma DeleteItemKeepsUnique<C>(l: List<C>, id: Id)
    requires UniqueIds(l.items)
    ensures UniqueIds(DeleteItem(l, id).items)
  {
  }

  /** With distinct ids, deleting a held id removes that id and only it, and
      shortens the list by one. */
  lemma DeletePresentRemovesExactlyThatId<C>(l: List<C>, id: Id)
    requires UniqueIds(l.items) && id in Ids(l.items)
    ensures |DeleteItem(l, id).items| == |l.items| - 1
    ensures Ids(DeleteItem(l, id).items) == Ids(l.items) - {id}
    ensures multiset(DeleteItem(l, id).items) < multiset(l.items)
  {
    var k := FindIndex(l.items, id);
    RemoveAtKeepsUnique(l.items, k);
  }

  /** Deleting an id the list does not hold is not a no-op: a non-empty list
      loses its last item, whose id is then gone from a list with distinct ids. */
  lemma DeleteAbsentDropsLast<C>(l: List<C>, id: Id)
    requires UniqueIds(l.items) && id !in Ids(l.items) && 0 < |l.items|
    ensures DeleteItem(l, id) != l
    ensures Ids(DeleteItem(l, id).items) == Ids(l.items) - {l.items[|l.items| - 1].id}
  {
  }

  /** Adding an item under a fresh id and deleting that id gives back the
      original list. */
  lemma AddThenDeleteRestores<C>(l: List<C>, id: Id, count: C, unit: string, ingredient: string)
    requires id !in Ids(l.items)
    ensures DeleteItem(AddItem(l, id, count, unit, ingredient).list, id) == l
  {
  }

  /** `updateCount` never changes which ids the list holds, nor its length, so
      it keeps the ids distinct. */
  lemma UpdateCountKeepsIds<C>(l: List<C>, id: Id, newCount: C)
    requires UpdateCount(l, id, newCount).Success?
    ensures |UpdateCount(l, id, newCount).value.items| == |l.items|
    ensures Ids(UpdateCount(l, id, newCount).value.items) == Ids(l.items)
    ensures UniqueIds(l.items) ==> UniqueIds(UpdateCount(l, id, newCount).value.items)
  {
    var k := FindIndex(l.items, id);
    var r := UpdateCount(l, id, newCount).value.items;
    forall x | x in Ids(l.items)
      ensures x in Ids(r)
    {
      var i :| 0 <= i < |l.items| && l.items[i].id == x;
      assert r[i].id == x;
    }
    forall x | x in Ids(r)
      ensures x in Ids(l.items)
    {
      var i :| 0 <= i < |r| && r[i].id == x;
      assert l.items[i].id == x;
    }
  }

  /** Two successive updates of one id: the second count wins. */
  lemma UpdateCountLastWriteWins<C>(l: List<C>, id: Id, a: C, b: C)
    requires id in Ids(l.items)
    ensures UpdateCount(l, id, a).Success?
    ensures UpdateCount(UpdateCount(l, id, a).value, id, b) == UpdateCount(l, id, b)
  {
    var k := FindIndex(l.items, id);
    var m := UpdateCount(l, id, a).value;
    assert m.items[k].id == id;
    var k' := FindIndex(m.items, id);
    assert k' == k;
    assert m.items[k := m.items[k].(count := b)] == l.items[k := l.items[k].(count := b)];
  }

  /** Writing back the count an item already has leaves the list unchanged. */
  lemma UpdateCountWithSameCountIsIdentity<C>(l: List<C>, id: Id)
    requires id in Ids(l.items)
    ensures var k := FindIndex(l.items, id);
            0 <= k && UpdateCount(l, id, l.items[k].count) == Success(l)
  {
    var k := FindIndex(l.items, id);
    assert l.items[k := l.items[k].(count := l.items[k].count)] == l.items;
  }

  /** The item `addItem` returns can be updated by its id, and only that item
      changes: the update lands on the appended last position. */
  lemma AddThenUpdateTouchesNewItem<C>(l: List<C>, id: Id, count: C, unit: string, ingredient: string, newCount: C)
    requires id !in Ids(l.items)
    ensures UpdateCount(AddItem(l, id, count, unit, ingredient).list, id, newCount)
            == Success(AddItem(l, id, newCount, unit, ingredient).list)
  {
    var items := AddItem(l, id, count, unit, ingredient).list.items;
    var k := FindIndex(items, id);
    assert items[|l.items|].id == id;
    if k < |l.items| {
      assert false;
    }
    assert items[k := items[k].(count := newCount)] == AddItem(l, id, newCount, unit, ingredient).list.items;
  }
}
