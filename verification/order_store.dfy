/** The order table: records keyed by `idPedido`, placed by `id % 64`. An
    order names one client and a list of menus by id. Adding an order
    checks, in this order, the order id, the client and each menu; updating
    an order replaces only its state text, with no check on its value. */
module OrderStore {
  import opened Common
  import Hashing
  import Chains
  import Sorting
  import ClientStore
  import MenuStore

  /** A `Pedido`: `numMenus` is the length of `menus`; `state` is `estado`. */
  datatype Order = Order(id: int, client: int, date: string, menus: seq<int>, state: string)

  type OrderTable = Chains.Table<Order>

  /** `char fecha[11]`, `int menus[50]` and `char estado[15]`. */
  const DateCapacity: nat := 11
  const MenuCapacity: nat := 50
  const StateCapacity: nat := 15

  function Id(o: Order): int { o.id }

  predicate Valid(t: OrderTable) {
    Chains.Valid(t, Hashing.ModHash, Id)
  }

  /** buscarPedido: walks bucket `id % 64` from its head. A record comes back only
      if it carries `id` and sits in that bucket; nothing comes back exactly
      when no record of the bucket carries `id`. */
  function Lookup(t: OrderTable, id: int): (r: Option<Order>)
    requires |t| == Chains.Size && Hashing.Addressable(id)
    ensures r.Some? ==> r.value.id == id && r.value in t[Hashing.ModHash(id)]
    ensures r.None? <==> forall x :: x in t[Hashing.ModHash(id)] ==> x.id != id
  {
    Chains.Find(t, Hashing.ModHash, Id, id)
  }

  /** A menu id an order may name: the menu table holds it. */
  predicate MenuKnown(mt: MenuStore.MenuTable, menu: int) {
    && |mt| == Chains.Size
    && Hashing.Addressable(menu)
    && MenuStore.Lookup(mt, menu).Some?
  }

  /** agregarPedido. A present order id is refused first, a missing client
      second, and then the first menu id the menu table lacks; each refusal
      leaves the table as it was. Otherwise the order heads bucket
      `id % 64` with exactly the given client, date, menus and state, a
      lookup of `id` returns it, other lookups are unchanged and the table
      holds one more order. */
  function Insert(t: OrderTable, mt: MenuStore.MenuTable, ct: ClientStore.ClientTable,
                  id: int, client: int, date: string, menus: seq<int>, state: string): (o: Chains.Outcome<Order>)
    requires |t| == Chains.Size && |mt| == Chains.Size && |ct| == Chains.Size
    requires Hashing.Addressable(id) && Hashing.Addressable(client)
    requires forall i :: 0 <= i < |menus| ==> Hashing.Addressable(menus[i])
    requires |date| < DateCapacity && |menus| <= MenuCapacity && |state| < StateCapacity
    ensures |o.table| == Chains.Size
    ensures Lookup(t, id).Some? ==> o == Chains.Outcome(Chains.DuplicateKey, t)
    ensures Lookup(t, id).None? && ClientStore.Lookup(ct, client).None? ==>
              o == Chains.Outcome(Chains.UnknownClient(client), t)
    ensures o.status == Chains.Ok <==>
              && Lookup(t, id).None?
              && ClientStore.Lookup(ct, client).Some?
              && forall i :: 0 <= i < |menus| ==> MenuStore.Lookup(mt, menus[i]).Some?
    ensures o.status != Chains.Ok ==> o.table == t
    ensures Lookup(t, id).None? && ClientStore.Lookup(ct, client).Some? && o.status != Chains.Ok ==>
              o.status.UnknownMenu?
    ensures o.status.UnknownMenu? ==>
              && Lookup(t, id).None? && ClientStore.Lookup(ct, client).Some?
              && exists i :: 0 <= i < |menus| && menus[i] == o.status.menu
                   && MenuStore.Lookup(mt, menus[i]).None?
                   && forall j :: 0 <= j < i ==> MenuStore.Lookup(mt, menus[j]).Some?
    ensures o.status == Chains.Ok ==>
              && Lookup(o.table, id) == Some(Order(id, client, date, menus, state))
              && o.table[Hashing.ModHash(id)] == [Order(id, client, date, menus, state)] + t[Hashing.ModHash(id)]
              && (forall b :: 0 <= b < Chains.Size && b != Hashing.ModHash(id) ==> o.table[b] == t[b])
              && (forall k :: k != id && Hashing.Addressable(k) ==> Lookup(o.table, k) == Lookup(t, k))
              && |Chains.Flatten(o.table)| == |Chains.Flatten(t)| + 1
    ensures Valid(t) ==> Valid(o.table)
  {
    if Lookup(t, id).Some? then Chains.Outcome(Chains.DuplicateKey, t)
    else if ClientStore.Lookup(ct, client).None? then Chains.Outcome(Chains.UnknownClient(client), t)
    else match FirstFailing(menus, (m: int) => MenuKnown(mt, m))
      case Some(i) => Chains.Outcome(Chains.UnknownMenu(menus[i]), t)
      case None => Chains.Outcome(Chains.Ok, Chains.Add(t, Hashing.ModHash, Id, Order(id, client, date, menus, state)))
  }

  /** eliminarPedido: fails exactly when the id is absent; on success only
      that node leaves its chain (the rest keeps its order, every other
      bucket is untouched), one order fewer remains and every other lookup
      is unchanged. */
  function Delete(t: OrderTable, id: int): (o: Chains.Outcome<Order>)
    requires |t| == Chains.Size && Hashing.Addressable(id)
    ensures |o.table| == Chains.Size
    ensures o.status == Chains.Ok <==> Lookup(t, id).Some?
    ensures o.status != Chains.Ok ==> o == Chains.Outcome(Chains.NotFound, t)
    ensures o.status == Chains.Ok ==>
              && (exists i :: 0 <= i <= |o.table[Hashing.ModHash(id)]| &&
                    t[Hashing.ModHash(id)] ==
                      o.table[Hashing.ModHash(id)][..i] + [Lookup(t, id).value] + o.table[Hashing.ModHash(id)][i..])
              && (forall b :: 0 <= b < Chains.Size && b != Hashing.ModHash(id) ==> o.table[b] == t[b])
              && (forall k :: k != id && Hashing.Addressable(k) ==> Lookup(o.table, k) == Lookup(t, k))
              && |Chains.Flatten(o.table)| + 1 == |Chains.Flatten(t)|
    ensures Valid(t) ==> Valid(o.table) && Lookup(o.table, id).None?
  {
    if Lookup(t, id).None? then Chains.Outcome(Chains.NotFound, t)
    else Chains.Outcome(Chains.Ok, Chains.Remove(t, Hashing.ModHash, Id, id))
  }

  /** actualizarPedido: fails exactly when the id is absent. On success the
      node is overwritten where it stands in its chain: it keeps its id,
      client, date and menus and takes the new state, whatever text it is;
      nothing else in the table changes. */
  function Update(t: OrderTable, id: int, state: string): (o: Chains.Outcome<Order>)
    requires |t| == Chains.Size && Hashing.Addressable(id) && |state| < StateCapacity
    ensures |o.table| == Chains.Size
    ensures o.status == Chains.Ok <==> Lookup(t, id).Some?
    ensures o.status != Chains.Ok ==> o == Chains.Outcome(Chains.NotFound, t)
    ensures o.status == Chains.Ok ==>
              && Lookup(o.table, id) == Some(Lookup(t, id).value.(state := state))
              && Chains.IndexOf(t[Hashing.ModHash(id)], Id, id).Some?
              && o.table[Hashing.ModHash(id)] == t[Hashing.ModHash(id)][Chains.IndexOf(t[Hashing.ModHash(id)], Id, id).value := Lookup(t, id).value.(state := state)]
              && (forall b :: 0 <= b < Chains.Size && b != Hashing.ModHash(id) ==> o.table[b] == t[b])
              && (forall k :: k != id && Hashing.Addressable(k) ==> Lookup(o.table, k) == Lookup(t, k))
              && |Chains.Flatten(o.table)| == |Chains.Flatten(t)|
    ensures Valid(t) ==> Valid(o.table)
  {
    match Lookup(t, id)
    case None => Chains.Outcome(Chains.NotFound, t)
    case Some(current) =>
      Chains.Outcome(Chains.Ok, Chains.Replace(t, Hashing.ModHash, Id, id, current.(state := state)))
  }

  /** An order for a client that does not exist is refused and the order
      table stays empty. */
  lemma UnknownClientScenario(mt: MenuStore.MenuTable, date: string, menus: seq<int>, state: string)
    requires |mt| == Chains.Size
    requires forall i :: 0 <= i < |menus| ==> Hashing.Addressable(menus[i])
    requires |date| < DateCapacity && |menus| <= MenuCapacity && |state| < StateCapacity
    ensures var o := Insert(Chains.Create(), mt, Chains.Create(), 1, 5, date, menus, state);
            o.status == Chains.UnknownClient(5) && |Chains.Flatten(o.table)| == 0
  {
    Chains.CreateIsValid(Hashing.ModHash, Id);
    Chains.CreateIsValid(Hashing.ModHash, ClientStore.Id);
  }

  /** quicksortPedidosParallel: a permutation ordered by `idPedido`. */
  method Sort(s: seq<Order>) returns (r: seq<Order>)
    ensures multiset(r) == multiset(s)
    ensures Sorting.SortedBy(r, Id)
  {
    r := Sorting.Sort(s, Id);
  }

  /** busquedaBinariaPedidosParallel: on an array ordered by `idPedido` the
      answer is a position holding `id` when one exists, and -1 otherwise. */
  method Search(s: seq<Order>, id: int) returns (i: int)
    ensures i == Sorting.Probe(s, Id, id, 0, |s| - 1)
    ensures i == -1 || (0 <= i < |s| && s[i].id == id)
    ensures Sorting.SortedBy(s, Id) ==> (i == -1 <==> forall k :: 0 <= k < |s| ==> s[k].id != id)
  {
    i := Sorting.BinarySearch(s, Id, id);
  }
}
