/** The list controller of the application: the one place that adds items to
    the shopping list. Pressing "add to shopping list" on a recipe creates the
    list if there is none yet and adds every ingredient of the recipe, in
    recipe order. The rendering of each added item is left out. */
module ListController {
  import opened Wrappers
  import opened ShoppingList

  /** One parsed ingredient of the current recipe, as the list receives it. */
  datatype Ingredient<C> = Ingredient(count: C, unit: string, ingredient: string)

  /** Each id is new: not held by the list and not repeated among the ids. */
  predicate FreshIds<C>(ids: seq<Id>, items: seq<Item<C>>) {
    && (forall i :: 0 <= i < |ids| ==> ids[i] !in Ids(items))
    && (forall i, j :: 0 <= i < j < |ids| ==> ids[i] != ids[j])
  }

  /** The application state's list, created empty when it does not exist yet. */
  function ListOrNew<C>(list: Option<List<C>>): (l: List<C>)
    ensures list.Some? ==> l == list.value
    ensures list.None? ==> |l.items| == 0
  {
    match list
    case Some(existing) => existing
    case None => Empty()
  }

  /** `controlList`: adds the ingredients one by one, `ids[i]` being the id the
      unique-id generator returns for the i-th `addItem` call. The items added
      follow the existing ones, one per ingredient, in ingredient order, and
      each is the item `addItem` returned. With fresh ids the ids stay
      distinct. */
  method ControlList<C>(list: Option<List<C>>, ingredients: seq<Ingredient<C>>, ids: seq<Id>)
    returns (l: List<C>, added: seq<Item<C>>)
    requires |ids| == |ingredients|
    ensures |added| == |ingredients|
    ensures l.items == ListOrNew(list).items + added
    ensures forall i :: 0 <= i < |added| ==>
              added[i] == Item(ids[i], ingredients[i].count, ingredients[i].unit, ingredients[i].ingredient)
    ensures UniqueIds(ListOrNew(list).items) && FreshIds(ids, ListOrNew(list).items) ==> UniqueIds(l.items)
  {
    l := ListOrNew(list);
    ghost var start := l;
    added := [];
    var i := 0;
    while i < |ingredients|
      invariant 0 <= i <= |ingredients|
      invariant |added| == i
      invariant l.items == start.items + added
      invariant forall j :: 0 <= j < i ==>
                  added[j] == Item(ids[j], ingredients[j].count, ingredients[j].unit, ingredients[j].ingredient)
      invariant Ids(l.items) == Ids(start.items) + set j | 0 <= j < i :: ids[j]
      invariant UniqueIds(start.items) && FreshIds(ids, start.items) ==> UniqueIds(l.items)
    {
      var ing := ingredients[i];
      var r := AddItem(l, ids[i], ing.count, ing.unit, ing.ingredient);
      if UniqueIds(start.items) && FreshIds(ids, start.items) {
        AddItemKeepsUnique(l, ids[i], ing.count, ing.unit, ing.ingredient);
      }
      assert (set j | 0 <= j < i + 1 :: ids[j]) == (set j | 0 <= j < i :: ids[j]) + {ids[i]};
      l := r.list;
      added := added + [r.item];
      i := i + 1;
    }
  }
}
