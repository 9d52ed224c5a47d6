/** The food table: records keyed by `id`, placed by the mid-square hash.
    Inserting and updating take the availability as the text "Si" or "No";
    every other text is refused. */
module FoodStore {
  import opened Common
  import Hashing
  import Chains
  import Sorting

  /** An `Alimento`. `available` is the `disponible` flag (1 or 0 in the
      source). The price is a stored value that is only ever compared. */
  datatype Food = Food(id: int, name: string, price: int, available: bool)

  type FoodTable = Chains.Table<Food>

  /** `char nombre[50]` holds at most 49 characters and the terminator. */
  const NameCapacity: nat := 50

  function Id(f: Food): int { f.id }

  function Price(f: Food): int { f.price }

  /** A table reachable through the store's operations. */
  predicate Valid(t: FoodTable) {
    Chains.Valid(t, Hashing.MidSquare, Id)
  }

  /** buscarAlimento: walks the mid-square bucket of `id` from its head. A record comes back only
      if it carries `id` and sits in that bucket; nothing comes back exactly
      when no record of the bucket carries `id`. */
  function Lookup(t: FoodTable, id: int): (r: Option<Food>)
    requires |t| == Chains.Size
    ensures r.Some? ==> r.value.id == id && r.value in t[Hashing.MidSquare(id)]
    ensures r.None? <==> forall f :: f in t[Hashing.MidSquare(id)] ==> f.id != id
  {
    Chains.Find(t, Hashing.MidSquare, Id, id)
  }

  /** The strict availability parser: exactly "Si" is available, exactly
      "No" is unavailable, anything else is invalid. */
  function ParseAvailability(s: string): (r: Option<bool>)
    ensures r == Some(true) <==> s == "Si"
    ensures r == Some(false) <==> s == "No"
    ensures r == None <==> s != "Si" && s != "No"
  {
    if s == "Si" then Some(true)
    else if s == "No" then Some(false)
    else None
  }

  /** insertarAlimento. The availability text is checked first, the
      duplicate id second; on success the new record heads bucket
      `MidSquare(id)`, a lookup of `id` returns it, every other lookup is
      unchanged and the table holds one more record. */
  function Insert(t: FoodTable, id: int, name: string, price: int, availability: string): (o: Chains.Outcome<Food>)
    requires |t| == Chains.Size && |name| < NameCapacity
    ensures |o.table| == Chains.Size
    ensures availability != "Si" && availability != "No" ==> o == Chains.Outcome(Chains.InvalidAvailability, t)
    ensures (availability == "Si" || availability == "No") && Lookup(t, id).Some? ==>
              o == Chains.Outcome(Chains.DuplicateKey, t)
    ensures o.status == Chains.Ok <==> (availability == "Si" || availability == "No") && Lookup(t, id).None?
    ensures o.status != Chains.Ok ==> o.table == t
    ensures o.status == Chains.Ok ==>
              && Lookup(o.table, id) == Some(Food(id, name, price, availability == "Si"))
              && o.table[Hashing.MidSquare(id)] == [Food(id, name, price, availability == "Si")] + t[Hashing.MidSquare(id)]
              && (forall b :: 0 <= b < Chains.Size && b != Hashing.MidSquare(id) ==> o.table[b] == t[b])
              && (forall k :: k != id ==> Lookup(o.table, k) == Lookup(t, k))
              && |Chains.Flatten(o.table)| == |Chains.Flatten(t)| + 1
    ensures Valid(t) ==> Valid(o.table)
  {
    match ParseAvailability(availability)
    case None => Chains.Outcome(Chains.InvalidAvailability, t)
    case Some(available) =>
      if Lookup(t, id).Some? then Chains.Outcome(Chains.DuplicateKey, t)
      else Chains.Outcome(Chains.Ok, Chains.Add(t, Hashing.MidSquare, Id, Food(id, name, price, available)))
  }

  /** eliminarAlimento: fails exactly when the id is absent; on success only
      that node leaves its chain (the rest keeps its order, every other
      bucket is untouched), one record fewer remains and every other lookup
      is unchanged. */
  function Delete(t: FoodTable, id: int): (o: Chains.Outcome<Food>)
    requires |t| == Chains.Size
    ensures |o.table| == Chains.Size
    ensures o.status == Chains.Ok <==> Lookup(t, id).Some?
    ensures o.status != Chains.Ok ==> o == Chains.Outcome(Chains.NotFound, t)
    ensures o.status == Chains.Ok ==>
              && (exists i :: 0 <= i <= |o.table[Hashing.MidSquare(id)]| &&
                    t[Hashing.MidSquare(id)] ==
                      o.table[Hashing.MidSquare(id)][..i] + [Lookup(t, id).value] + o.table[Hashing.MidSquare(id)][i..])
              && (forall b :: 0 <= b < Chains.Size && b != Hashing.MidSquare(id) ==> o.table[b] == t[b])
              && |Chains.Flatten(o.table)| + 1 == |Chains.Flatten(t)|
              && (forall k :: k != id ==> Lookup(o.table, k) == Lookup(t, k))
    ensures Valid(t) ==> Valid(o.table) && Lookup(o.table, id).None?
  {
    if Lookup(t, id).None? then Chains.Outcome(Chains.NotFound, t)
    else Chains.Outcome(Chains.Ok, Chains.Remove(t, Hashing.MidSquare, Id, id))
  }

  /** actualizarAlimento. The id is looked up first and the availability
      text checked second (the opposite order to insert); on success the
      node is overwritten where it stands in its chain, keeping its id and
      taking the new name, price and availability; nothing else in the
      table changes. */
  function Update(t: FoodTable, id: int, name: string, price: int, availability: string): (o: Chains.Outcome<Food>)
    requires |t| == Chains.Size && |name| < NameCapacity
    ensures |o.table| == Chains.Size
    ensures Lookup(t, id).None? ==> o == Chains.Outcome(Chains.NotFound, t)
    ensures Lookup(t, id).Some? && availability != "Si" && availability != "No" ==>
              o == Chains.Outcome(Chains.InvalidAvailability, t)
    ensures o.status == Chains.Ok <==> Lookup(t, id).Some? && (availability == "Si" || availability == "No")
    ensures o.status == Chains.Ok ==>
              && Lookup(o.table, id) == Some(Food(id, name, price, availability == "Si"))
              && Chains.IndexOf(t[Hashing.MidSquare(id)], Id, id).Some?
              && o.table[Hashing.MidSquare(id)] == t[Hashing.MidSquare(id)][Chains.IndexOf(t[Hashing.MidSquare(id)], Id, id).value := Food(id, name, price, availability == "Si")]
              && (forall k :: k != id ==> Lookup(o.table, k) == Lookup(t, k))
              && |Chains.Flatten(o.table)| == |Chains.Flatten(t)|
              && (forall b :: 0 <= b < Chains.Size && b != Hashing.MidSquare(id) ==> o.table[b] == t[b])
    ensures Valid(t) ==> Valid(o.table)
  {
    match Lookup(t, id)
    case None => Chains.Outcome(Chains.NotFound, t)
    case Some(current) =>
      match ParseAvailability(availability)
      case None => Chains.Outcome(Chains.InvalidAvailability, t)
      case Some(available) =>
        var updated := current.(name := name, price := price, available := available);
        Chains.Outcome(Chains.Ok, Chains.Replace(t, Hashing.MidSquare, Id, id, updated))
  }

  /** A successful insert is undone by deleting the same id: the lookups of
      the resulting table agree with the original everywhere. The fact
      follows from the contracts of `Insert` and `Delete`. */
  lemma InsertThenDelete(t: FoodTable, id: int, name: string, price: int, availability: string)
    requires Valid(t) && |name| < NameCapacity
    requires Insert(t, id, name, price, availability).status == Chains.Ok
    ensures var t' := Insert(t, id, name, price, availability).table;
            && Delete(t', id).status == Chains.Ok
            && (forall k :: Lookup(Delete(t', id).table, k) == Lookup(t, k))
            && |Chains.Flatten(Delete(t', id).table)| == |Chains.Flatten(t)|
  {
    var t' := Insert(t, id, name, price, availability).table;
    assert Lookup(t', id).Some? && Valid(t');
    var d := Delete(t', id).table;
    forall k ensures Lookup(d, k) == Lookup(t, k) {
      if k == id {
        assert Lookup(d, id).None? && Lookup(t, id).None?;
      }
    }
  }

  /** quicksortAlimentosParallel: the snapshot is ordered by price, not by
      id. */
  method SortByPrice(s: seq<Food>) returns (r: seq<Food>)
    ensures multiset(r) == multiset(s)
    ensures Sorting.SortedBy(r, Price)
  {
    r := Sorting.Sort(s, Price);
  }

  /** busquedaBinariaAlimentosParallel: compares ids. The answer is -1 or a
      position holding the id; it is complete only on an id-ordered array. */
  method SearchById(s: seq<Food>, id: int) returns (i: int)
    ensures i == Sorting.Probe(s, Id, id, 0, |s| - 1)
    ensures i == -1 || (0 <= i < |s| && s[i].id == id)
    ensures Sorting.SortedBy(s, Id) ==> (i == -1 <==> forall k :: 0 <= k < |s| ==> s[k].id != id)
  {
    i := Sorting.BinarySearch(s, Id, id);
  }

  /** The food report path as the program runs it: snapshot, sort by price,
      binary-search by id. A hit is always the right record, but a miss
      does not mean the id is absent (see `PriceOrderHidesFood`). */
  method SearchSnapshotAsWritten(t: FoodTable, id: int) returns (s: seq<Food>, i: int)
    requires Valid(t)
    ensures multiset(s) == multiset(Chains.Flatten(t))
    ensures Sorting.SortedBy(s, Price)
    ensures i == Sorting.Probe(s, Id, id, 0, |s| - 1)
    ensures i != -1 ==> 0 <= i < |s| && Lookup(t, id) == Some(s[i])
  {
    var snap := Chains.Snapshot(t);
    s := SortByPrice(snap);
    i := SearchById(s, id);
    if i != -1 {
      assert s[i] in multiset(snap);
      Chains.FindAgreesWithSnapshot(t, Hashing.MidSquare, Id, id);
    }
  }

  /** Two foods where the cheaper one has the larger id. Ordered by price
      they read [id 2, id 1]; the search for id 1 probes position 0, sees
      id 2 > 1, and gives up, although id 1 is in the array. Any
      price-sorted permutation of these two foods is that order. */
  lemma PriceOrderHidesFood(s: seq<Food>)
    requires multiset(s) == multiset([Food(1, "A", 2, true), Food(2, "B", 1, true)])
    requires Sorting.SortedBy(s, Price)
    ensures Food(1, "A", 2, true) in s
    ensures Sorting.Probe(s, Id, 1, 0, |s| - 1) == -1
  {
    var a, b := Food(1, "A", 2, true), Food(2, "B", 1, true);
    var ab: seq<Food> := [a, b];
    assert |s| == 2 by {
      calc {
        |s|;
        |multiset(s)|;
        |multiset(ab)|;
      }
    }
    assert s[0] in multiset(ab) && s[1] in multiset(ab);
    assert s == [s[0], s[1]];
    assert multiset(s) == multiset{s[0], s[1]};
    assert Price(s[0]) <= Price(s[1]);
    assert s[0] == b;
  }

  /** An empty table after inserting food 1 (price 2) and then food 2
      (price 1). */
  function TwoFoods(): FoodTable {
    Insert(Insert(Chains.Create(), 1, "A", 2, "Si").table, 2, "B", 1, "Si").table
  }

  /** Adding food 1 to an empty table succeeds and leaves id 2 free. */
  lemma FirstFoodAdded()
    ensures var t1 := Insert(Chains.Create(), 1, "A", 2, "Si").table;
            && Valid(t1) && Lookup(t1, 1) == Some(Food(1, "A", 2, true))
            && Lookup(t1, 2).None? && |Chains.Flatten(t1)| == 1
  {
    Chains.CreateIsValid(Hashing.MidSquare, Id);
  }

  /** Adding food 2 next to food 1 succeeds and keeps food 1. */
  lemma SecondFoodAdded(t1: FoodTable)
    requires Valid(t1) && Lookup(t1, 1) == Some(Food(1, "A", 2, true))
    requires Lookup(t1, 2).None? && |Chains.Flatten(t1)| == 1
    ensures var t := Insert(t1, 2, "B", 1, "Si").table;
            && Valid(t) && Lookup(t, 1) == Some(Food(1, "A", 2, true))
            && Lookup(t, 2) == Some(Food(2, "B", 1, true)) && |Chains.Flatten(t)| == 2
  {
  }

  /** A two-element sequence holding two distinct values holds exactly
      those two. */
  lemma PairMultiset<T>(s: seq<T>, a: T, b: T)
    requires |s| == 2 && a in s && b in s && a != b
    ensures multiset(s) == multiset([a, b])
  {
    if s[0] == a {
      assert s == [a, b];
    } else {
      assert s == [b, a];
    }
  }

  /** Both inserts succeed: the table is valid, finds food 1, and its
      snapshot holds exactly the two foods. */
  lemma TwoFoodsContents()
    ensures |TwoFoods()| == Chains.Size && Valid(TwoFoods())
    ensures Lookup(TwoFoods(), 1) == Some(Food(1, "A", 2, true))
    ensures multiset(Chains.Flatten(TwoFoods())) == multiset([Food(1, "A", 2, true), Food(2, "B", 1, true)])
  {
    FirstFoodAdded();
    SecondFoodAdded(Insert(Chains.Create(), 1, "A", 2, "Si").table);
    var t := TwoFoods();
    Chains.InFlatten(t, Food(1, "A", 2, true));
    Chains.InFlatten(t, Food(2, "B", 1, true));
    PairMultiset(Chains.Flatten(t), Food(1, "A", 2, true), Food(2, "B", 1, true));
  }

  /** The food report as written misses a food that is in the table: on
      `TwoFoods`, the snapshot sorted by price and then searched by id for
      id 1 answers -1 while a lookup finds it. */
  method PriceReportMissesFood() returns (t: FoodTable, s: seq<Food>, i: int)
    ensures t == TwoFoods()
    ensures multiset(s) == multiset(Chains.Flatten(t)) && Sorting.SortedBy(s, Price)
    ensures i == Sorting.Probe(s, Id, 1, 0, |s| - 1)
    ensures |t| == Chains.Size && Lookup(t, 1).Some?
    ensures i == -1
  {
    t := TwoFoods();
    TwoFoodsContents();
    s, i := SearchSnapshotAsWritten(t, 1);
    PriceOrderHidesFood(s);
  }

  /** The report path with the evident intent: sort the snapshot by id, the
      order the binary search assumes. A valid table's food is found exactly
      when a lookup finds it. */
  method SearchSnapshot(t: FoodTable, id: int) returns (s: seq<Food>, i: int)
    requires Valid(t)
    ensures multiset(s) == multiset(Chains.Flatten(t))
    ensures Sorting.SortedBy(s, Id)
    ensures i == -1 <==> Lookup(t, id).None?
    ensures i != -1 ==> 0 <= i < |s| && Lookup(t, id) == Some(s[i])
  {
    s, i := Chains.SearchSnapshot(t, Hashing.MidSquare, Id, id);
  }
}
