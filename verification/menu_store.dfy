/** The menu table: records keyed by `idMenu`, placed by `id % 64`. A menu
    names foods by id only. Adding a menu checks every named food against
    the food table (present and available); updating a menu checks nothing
    but the menu id. Deleting a food later leaves the menus that name it
    as they are, and the display reports such ids as not found. */
module MenuStore {
  import opened Common
  import Hashing
  import Chains
  import Sorting
  import FoodStore

  /** A `Menu`: `numAlimentos` is the length of `foods`. */
  datatype Menu = Menu(id: int, date: string, foods: seq<int>)

  type MenuTable = Chains.Table<Menu>

  /** `char fecha[11]` (with terminator) and `int alimentos[50]`. */
  const DateCapacity: nat := 11
  const FoodCapacity: nat := 50

  function Id(m: Menu): int { m.id }

  predicate Valid(t: MenuTable) {
    Chains.Valid(t, Hashing.ModHash, Id)
  }

  /** buscarMenuPorID: walks bucket `id % 64` from its head. A record comes back only
      if it carries `id` and sits in that bucket; nothing comes back exactly
      when no record of the bucket carries `id`. */
  function Lookup(t: MenuTable, id: int): (r: Option<Menu>)
    requires |t| == Chains.Size && Hashing.Addressable(id)
    ensures r.Some? ==> r.value.id == id && r.value in t[Hashing.ModHash(id)]
    ensures r.None? <==> forall m :: m in t[Hashing.ModHash(id)] ==> m.id != id
  {
    Chains.Find(t, Hashing.ModHash, Id, id)
  }

  /** A food id a new menu may name: the food exists and is available. */
  predicate FoodUsable(ft: FoodStore.FoodTable, food: int) {
    && |ft| == Chains.Size
    && FoodStore.Lookup(ft, food).Some?
    && FoodStore.Lookup(ft, food).value.available
  }

  /** agregarMenu. A menu id already present is refused before any food is
      looked at. Otherwise the first food id that is missing or unavailable
      is reported and the table is left as it was. With all foods usable,
      the menu (date and food ids, in order) heads bucket `id % 64`, a
      lookup of `id` returns it, other lookups are unchanged and the table
      holds one more menu. */
  function Insert(t: MenuTable, id: int, date: string, foods: seq<int>, ft: FoodStore.FoodTable): (o: Chains.Outcome<Menu>)
    requires |t| == Chains.Size && Hashing.Addressable(id) && |ft| == Chains.Size
    requires |date| < DateCapacity && |foods| <= FoodCapacity
    ensures |o.table| == Chains.Size
    ensures Lookup(t, id).Some? ==> o == Chains.Outcome(Chains.DuplicateKey, t)
    ensures o.status == Chains.Ok <==>
              Lookup(t, id).None? && forall i :: 0 <= i < |foods| ==> FoodUsable(ft, foods[i])
    ensures o.status != Chains.Ok ==> o.table == t
    ensures Lookup(t, id).None? && o.status != Chains.Ok ==> o.status.InvalidFood?
    ensures o.status.InvalidFood? ==>
              exists i :: 0 <= i < |foods| && foods[i] == o.status.food && !FoodUsable(ft, foods[i])
                && forall j :: 0 <= j < i ==> FoodUsable(ft, foods[j])
    ensures o.status == Chains.Ok ==>
              && Lookup(o.table, id) == Some(Menu(id, date, foods))
              && o.table[Hashing.ModHash(id)] == [Menu(id, date, foods)] + t[Hashing.ModHash(id)]
              && (forall b :: 0 <= b < Chains.Size && b != Hashing.ModHash(id) ==> o.table[b] == t[b])
              && (forall k :: k != id && Hashing.Addressable(k) ==> Lookup(o.table, k) == Lookup(t, k))
              && |Chains.Flatten(o.table)| == |Chains.Flatten(t)| + 1
    ensures Valid(t) ==> Valid(o.table)
  {
    if Lookup(t, id).Some? then Chains.Outcome(Chains.DuplicateKey, t)
    else match FirstFailing(foods, (f: int) => FoodUsable(ft, f))
      case Some(i) => Chains.Outcome(Chains.InvalidFood(foods[i]), t)
      case None => Chains.Outcome(Chains.Ok, Chains.Add(t, Hashing.ModHash, Id, Menu(id, date, foods)))
  }

  /** eliminarMenu: fails exactly when the id is absent; on success only
      that node leaves its chain (the rest keeps its order, every other
      bucket is untouched), one menu fewer remains and every other lookup
      is unchanged. */
  function Delete(t: MenuTable, id: int): (o: Chains.Outcome<Menu>)
    requires |t| == Chains.Size && Hashing.Addressable(id)
    ensures |o.table| == Chains.Size
    ensures o.status == Chains.Ok <==> Lookup(t, id).Some?
    ensures o.status != Chains.Ok ==> o == Chains.Outcome(Chains.NotFound, t)
    ensures o.status == Chains.Ok ==>
              && (exists i :: 0 <= i <= |o.table[Hashing.ModHash(id)]| &&
                    t[Hashing.ModHash(id)] ==
                      o.table[Hashing.ModHash(id)][..i] + [Lookup(t, id).value] + o.table[Hashing.ModHash(id)][i..])
              && (forall b :: 0 <= b < Chains.Size && b != Hashing.ModHash(id) ==> o.table[b] == t[b])
              && (forall k :: k != id && Hashing.Addressable(k) ==> Lookup(o.table, k) == Lookup(t, k))
              && |Chains.Flatten(o.table)| + 1 == |Chains.Flatten(t)|
    ensures Valid(t) ==> Valid(o.table) && Lookup(o.table, id).None?
  {
    if Lookup(t, id).None? then Chains.Outcome(Chains.NotFound, t)
    else Chains.Outcome(Chains.Ok, Chains.Remove(t, Hashing.ModHash, Id, id))
  }

  /** actualizarMenu: fails only when the menu id is absent. The date and
      the food list are replaced as given, without looking at the food
      table, so unknown or unavailable food ids are accepted here. The node
      is overwritten where it stands in its chain; every other node and
      bucket is unchanged. */
  function Update(t: MenuTable, id: int, date: string, foods: seq<int>): (o: Chains.Outcome<Menu>)
    requires |t| == Chains.Size && Hashing.Addressable(id)
    requires |date| < DateCapacity && |foods| <= FoodCapacity
    ensures |o.table| == Chains.Size
    ensures o.status == Chains.Ok <==> Lookup(t, id).Some?
    ensures o.status != Chains.Ok ==> o == Chains.Outcome(Chains.NotFound, t)
    ensures o.status == Chains.Ok ==>
              && Lookup(o.table, id) == Some(Menu(id, date, foods))
              && Chains.IndexOf(t[Hashing.ModHash(id)], Id, id).Some?
              && o.table[Hashing.ModHash(id)] == t[Hashing.ModHash(id)][Chains.IndexOf(t[Hashing.ModHash(id)], Id, id).value := Menu(id, date, foods)]
              && (forall b :: 0 <= b < Chains.Size && b != Hashing.ModHash(id) ==> o.table[b] == t[b])
              && (forall k :: k != id && Hashing.Addressable(k) ==> Lookup(o.table, k) == Lookup(t, k))
              && |Chains.Flatten(o.table)| == |Chains.Flatten(t)|
    ensures Valid(t) ==> Valid(o.table)
  {
    if Lookup(t, id).None? then Chains.Outcome(Chains.NotFound, t)
    else Chains.Outcome(Chains.Ok, Chains.Replace(t, Hashing.ModHash, Id, id, Menu(id, date, foods)))
  }

  /** One line of the menu display: the food a menu names, or the id alone
      when no food with that id exists any more. */
  datatype FoodRef = Resolved(food: FoodStore.Food) | Dangling(id: int)

  /** The food list of a menu as the display resolves it, by a fresh lookup
      of each id at display time. */
  function Resolve(m: Menu, ft: FoodStore.FoodTable): (r: seq<FoodRef>)
    requires |ft| == Chains.Size
    ensures |r| == |m.foods|
    ensures forall i :: 0 <= i < |r| ==> (r[i] == Dangling(m.foods[i]) <==> FoodStore.Lookup(ft, m.foods[i]).None?)
    ensures forall i :: 0 <= i < |r| && FoodStore.Lookup(ft, m.foods[i]).Some? ==>
              r[i] == Resolved(FoodStore.Lookup(ft, m.foods[i]).value) && r[i].food.id == m.foods[i]
  {
    seq(|m.foods|, i requires 0 <= i < |m.foods| =>
      match FoodStore.Lookup(ft, m.foods[i])
      case Some(f) => Resolved(f)
      case None => Dangling(m.foods[i]))
  }

  /** Deleting a food never touches the menus: a menu naming it keeps the
      id, and in a valid food table the display now reports that id as not
      found while every other entry resolves as before. The fact follows
      from the contracts of `Resolve` and `FoodStore.Delete`. */
  lemma DeletedFoodDangles(m: Menu, ft: FoodStore.FoodTable, food: int)
    requires FoodStore.Valid(ft)
    ensures var ft' := FoodStore.Delete(ft, food).table;
            forall i :: 0 <= i < |m.foods| ==>
              if m.foods[i] == food then Resolve(m, ft')[i] == Dangling(food)
              else Resolve(m, ft')[i] == Resolve(m, ft)[i]
  {
  }

  /** The dangling-reference scenario: a taco is added, a menu naming it is
      added, the taco is deleted; the menu still names food 1 and the
      display reports it as not found. */
  lemma TacoScenario()
    ensures var ft1 := FoodStore.Insert(Chains.Create(), 1, "Taco", 250, "Si");
            var mt1 := Insert(Chains.Create(), 10, "2024-01-01", [1], ft1.table);
            var ft2 := FoodStore.Delete(ft1.table, 1);
            && ft1.status == Chains.Ok
            && mt1.status == Chains.Ok
            && ft2.status == Chains.Ok
            && Lookup(mt1.table, 10) == Some(Menu(10, "2024-01-01", [1]))
            && Resolve(Menu(10, "2024-01-01", [1]), ft2.table) == [Dangling(1)]
  {
    var empty: Chains.Table<FoodStore.Food> := Chains.Create();
    var emptyMenus: MenuTable := Chains.Create();
    Chains.CreateIsValid(Hashing.MidSquare, FoodStore.Id);
    Chains.CreateIsValid(Hashing.ModHash, Id);
    var ft1 := FoodStore.Insert(empty, 1, "Taco", 250, "Si");
    assert FoodStore.Lookup(ft1.table, 1) == Some(FoodStore.Food(1, "Taco", 250, true));
    assert FoodUsable(ft1.table, 1);
    var r := Resolve(Menu(10, "2024-01-01", [1]), FoodStore.Delete(ft1.table, 1).table);
    assert r[0] == Dangling(1);
  }

  /** quicksortMenusParallel: a permutation ordered by `idMenu`. */
  method Sort(s: seq<Menu>) returns (r: seq<Menu>)
    ensures multiset(r) == multiset(s)
    ensures Sorting.SortedBy(r, Id)
  {
    r := Sorting.Sort(s, Id);
  }

  /** busquedaBinariaMenusParallel: on an array ordered by `idMenu` the
      answer is a position holding `id` when one exists, and -1 otherwise. */
  method Search(s: seq<Menu>, id: int) returns (i: int)
    ensures i == Sorting.Probe(s, Id, id, 0, |s| - 1)
    ensures i == -1 || (0 <= i < |s| && s[i].id == id)
    ensures Sorting.SortedBy(s, Id) ==> (i == -1 <==> forall k :: 0 <= k < |s| ==> s[k].id != id)
  {
    i := Sorting.BinarySearch(s, Id, id);
  }
}
