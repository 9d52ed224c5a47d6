/** The client table: records keyed by `idCliente`, placed by the plain
    remainder `id % 64`. A negative id whose remainder is not zero maps to
    a bucket index far outside the table, so every operation needs its id
    to be addressable. */
module ClientStore {
  import opened Common
  import Hashing
  import Chains
  import Sorting

  /** A `Cliente`. */
  datatype Client = Client(id: int, name: string, phone: string)

  type ClientTable = Chains.Table<Client>

  /** `char nombre[50]` and `char telefono[15]`, each with a terminator. */
  const NameCapacity: nat := 50
  const PhoneCapacity: nat := 15

  function Id(c: Client): int { c.id }

  predicate Valid(t: ClientTable) {
    Chains.Valid(t, Hashing.ModHash, Id)
  }

  /** buscarCliente: walks bucket `id % 64` from its head. A record comes back only
      if it carries `id` and sits in that bucket; nothing comes back exactly
      when no record of the bucket carries `id`. */
  function Lookup(t: ClientTable, id: int): (r: Option<Client>)
    requires |t| == Chains.Size && Hashing.Addressable(id)
    ensures r.Some? ==> r.value.id == id && r.value in t[Hashing.ModHash(id)]
    ensures r.None? <==> forall c :: c in t[Hashing.ModHash(id)] ==> c.id != id
  {
    Chains.Find(t, Hashing.ModHash, Id, id)
  }

  /** agregarCliente: refuses an id already present and leaves the table as
      it was; otherwise the new client heads bucket `id % 64`, a lookup of
      `id` returns it, every other lookup is unchanged and the table holds
      one more record. */
  function Insert(t: ClientTable, id: int, name: string, phone: string): (o: Chains.Outcome<Client>)
    requires |t| == Chains.Size && Hashing.Addressable(id)
    requires |name| < NameCapacity && |phone| < PhoneCapacity
    ensures |o.table| == Chains.Size
    ensures o.status == Chains.Ok <==> Lookup(t, id).None?
    ensures o.status != Chains.Ok ==> o == Chains.Outcome(Chains.DuplicateKey, t)
    ensures o.status == Chains.Ok ==>
              && Lookup(o.table, id) == Some(Client(id, name, phone))
              && o.table[Hashing.ModHash(id)] == [Client(id, name, phone)] + t[Hashing.ModHash(id)]
              && (forall b :: 0 <= b < Chains.Size && b != Hashing.ModHash(id) ==> o.table[b] == t[b])
              && (forall k :: k != id && Hashing.Addressable(k) ==> Lookup(o.table, k) == Lookup(t, k))
              && |Chains.Flatten(o.table)| == |Chains.Flatten(t)| + 1
    ensures Valid(t) ==> Valid(o.table)
  {
    if Lookup(t, id).Some? then Chains.Outcome(Chains.DuplicateKey, t)
    else Chains.Outcome(Chains.Ok, Chains.Add(t, Hashing.ModHash, Id, Client(id, name, phone)))
  }

  /** eliminarCliente: fails exactly when the id is absent; on success only
      that node leaves its chain (the rest of the chain keeps its order and
      every other bucket is untouched) and the id is gone. */
  function Delete(t: ClientTable, id: int): (o: Chains.Outcome<Client>)
    requires |t| == Chains.Size && Hashing.Addressable(id)
    ensures |o.table| == Chains.Size
    ensures o.status == Chains.Ok <==> Lookup(t, id).Some?
    ensures o.status != Chains.Ok ==> o == Chains.Outcome(Chains.NotFound, t)
    ensures o.status == Chains.Ok ==>
              && (exists i :: 0 <= i <= |o.table[Hashing.ModHash(id)]| &&
                    t[Hashing.ModHash(id)] ==
                      o.table[Hashing.ModHash(id)][..i] + [Lookup(t, id).value] + o.table[Hashing.ModHash(id)][i..])
              && (forall b :: 0 <= b < Chains.Size && b != Hashing.ModHash(id) ==> o.table[b] == t[b])
              && (forall k :: k != id && Hashing.Addressable(k) ==> Lookup(o.table, k) == Lookup(t, k))
              && |Chains.Flatten(o.table)| + 1 == |Chains.Flatten(t)|
    ensures Valid(t) ==> Valid(o.table) && Lookup(o.table, id).None?
  {
    if Lookup(t, id).None? then Chains.Outcome(Chains.NotFound, t)
    else Chains.Outcome(Chains.Ok, Chains.Remove(t, Hashing.ModHash, Id, id))
  }

  /** actualizarCliente: fails exactly when the id is absent; on success the
      node is overwritten where it stands in its chain, keeping its id and
      taking the new name and phone; nothing else in the table changes. */
  function Update(t: ClientTable, id: int, name: string, phone: string): (o: Chains.Outcome<Client>)
    requires |t| == Chains.Size && Hashing.Addressable(id)
    requires |name| < NameCapacity && |phone| < PhoneCapacity
    ensures |o.table| == Chains.Size
    ensures o.status == Chains.Ok <==> Lookup(t, id).Some?
    ensures o.status != Chains.Ok ==> o == Chains.Outcome(Chains.NotFound, t)
    ensures o.status == Chains.Ok ==>
              && Lookup(o.table, id) == Some(Client(id, name, phone))
              && Chains.IndexOf(t[Hashing.ModHash(id)], Id, id).Some?
              && o.table[Hashing.ModHash(id)] == t[Hashing.ModHash(id)][Chains.IndexOf(t[Hashing.ModHash(id)], Id, id).value := Client(id, name, phone)]
              && (forall k :: k != id && Hashing.Addressable(k) ==> Lookup(o.table, k) == Lookup(t, k))
              && (forall b :: 0 <= b < Chains.Size && b != Hashing.ModHash(id) ==> o.table[b] == t[b])
              && |Chains.Flatten(o.table)| == |Chains.Flatten(t)|
    ensures Valid(t) ==> Valid(o.table)
  {
    match Lookup(t, id)
    case None => Chains.Outcome(Chains.NotFound, t)
    case Some(current) =>
      Chains.Outcome(Chains.Ok, Chains.Replace(t, Hashing.ModHash, Id, id, current.(name := name, phone := phone)))
  }

  /** quicksortClientesParallel: a permutation ordered by `idCliente`. */
  method Sort(s: seq<Client>) returns (r: seq<Client>)
    ensures multiset(r) == multiset(s)
    ensures Sorting.SortedBy(r, Id)
  {
    r := Sorting.Sort(s, Id);
  }

  /** busquedaBinariaClientesParallel: on an array ordered by `idCliente`
      the answer is a position holding `id` when one exists, and -1
      otherwise. */
  method Search(s: seq<Client>, id: int) returns (i: int)
    ensures i == Sorting.Probe(s, Id, id, 0, |s| - 1)
    ensures i == -1 || (0 <= i < |s| && s[i].id == id)
    ensures Sorting.SortedBy(s, Id) ==> (i == -1 <==> forall k :: 0 <= k < |s| ==> s[k].id != id)
  {
    i := Sorting.BinarySearch(s, Id, id);
  }
}
