# Restaurant store: four chained hash tables

This project models the storage layer of a small restaurant-management
program written in C. The layer is four hash tables, one each for foods
(`Alimento`), clients (`Cliente`), menus (`Menu`) and orders (`Pedido`).
Each table is a fixed array of 64 buckets. Each bucket is a singly linked
chain, and a new node is always prepended to its chain.

Every table supports the same operations:
- create;
- hash an id to a bucket;
- insert;
- look up by id;
- delete;
- update;
- count the records;
- copy every record into an array (the snapshot).

Two tables check references when a record is added:
- A menu's foods must exist in the food table and be available.
- An order's client must exist in the client table, and each of its menus
  must exist in the menu table.

Each table also has a Lomuto-partition quicksort and a binary search over
its snapshot.

The model is value-based:
- A chain is a `seq` whose index 0 is the head node.
- A table is the `seq` of its 64 chains.
- Each operation returns an `Outcome`: the new table plus a `Status`. The
  status is `Ok` where the C code returns `true`; otherwise it names the
  check that refused.

Modules:
- `Common` (`common.dfy`) holds `Option` and `FirstFailing`, the "stop at
  the first id that fails validation" loop.
- `Hashing` (`hashing.dfy`) holds the mid-square hash and the `id % 64`
  hash. C's 64-bit unsigned wrap-around, truncating signed `%` and
  conversion to `unsigned int` are written out explicitly.
- `Chains` (`chains.dfy`) is the generic 64-bucket chained table. It is
  parameterised by the record key and the bucket function, and holds:
  - the representation invariant `Valid`;
  - the snapshot order `Flatten`;
  - find, prepend, unlink and in-place replace;
  - the count and copy loops;
  - the snapshot–sort–search report path.
- `Sorting` (`sorting.dfy`) holds the Lomuto partition, the quicksort and
  the binary search. They work on `seq` values updated by index.
- `FoodStore`, `ClientStore`, `MenuStore` and `OrderStore` hold each
  table's operations: validation order, refusal statuses and field updates.

Parallelism: the OpenMP `parallel sections` of the quicksort sort disjoint
index ranges. Every thread of the `parallel` binary search runs the same
search and writes the same index. Both are therefore modelled as one
sequential run.

## Model

| member | source | states |
|---|---|---|
| Common.FirstFailing | hash_menus.c:176-182 | The validation loop stops at the first failing id. It reports nothing exactly when every id passes. When it reports a position, that id fails and every earlier id passes. |
| Hashing.MidSquare | hash_alimentos.c:34-38 | The mid-square bucket is below 64 for every int id, negative ones included. What the bucket is, bits 10..15 of the square, is stated by `Hashing.MidSquareOfInt32`. |
| Hashing.MidSquareOfInt32 | hash_alimentos.c:34-38 | For a 32-bit id the 64-bit wrap never fires: the bucket is bits 10..15 of the exact square. An id and its negation share a bucket. |
| Hashing.CRem | hash_clientes.c:33-35 | C's signed `%` keeps the sign of the dividend: the result is in [0, n) for a non-negative dividend and in (-n, 0] for a negative one. It differs from the dividend by a multiple of n, which together with the range fixes it as the truncating remainder. |
| Hashing.ModHash | hash_clientes.c:33-35 | For id >= 0 the hash is `id % 64`. It is a real bucket exactly when id >= 0 or id is a multiple of 64. Any other negative id yields an index just below 2^32, far outside the table. In every case the hash differs from the id by a multiple of 64. |
| Chains.Create | hash_alimentos.c:17-27 | A new table has 64 buckets and an empty snapshot. |
| Chains.CreateIsValid | hash_clientes.c:16-26 | A new table satisfies the invariant, and no id is found in it. |
| Chains.IndexOf | hash_clientes.c:189-200 | The position of the first node whose key is `k`. It is absent exactly when no node has that key. |
| Chains.FindIn | hash_clientes.c:189-200 | The chain walk returns the first node with the key, or nothing when no node has it. |
| Chains.Find | hash_alimentos.c:205-216 | A lookup returns a record of bucket `hash(k)` with key `k`. It returns nothing exactly when no record of that bucket has key `k`. |
| Chains.Add | hash_alimentos.c:179-192 | The record is prepended to its bucket and the other buckets are untouched. A lookup of its key then returns it, every other lookup is unchanged, and the snapshot grows by one. When the key was absent the invariant is kept. |
| Chains.Unlink | hash_clientes.c:208-229 | Only the first node with the key leaves the chain, and the rest keep their order. An absent key leaves the chain as it is. |
| Chains.Remove | hash_alimentos.c:224-245 | With the key absent, nothing changes. With it present, exactly that node leaves its chain and the other nodes keep their order. Other buckets and other lookups are unchanged, and the snapshot shrinks by one. In a valid table the key is gone and the invariant holds. |
| Chains.ReplaceIn | hash_clientes.c:239-250 | The first node with the key is overwritten in place, at the same chain position. |
| Chains.Replace | hash_alimentos.c:256-280 | With the key present, the first node with that key is overwritten at its own chain position (the rest of the chain is untouched), and its lookup yields the new record. Other buckets, other lookups and the record count are unchanged, and the invariant is kept. |
| Chains.UnlinkKeepsValid | hash_clientes.c:208-229 | Unlinking from a chain with unique keys keeps them unique, and the key is no longer in the chain. |
| Chains.InFlatten | hash_alimentos.c:45-54 | A record is in the snapshot exactly when it is in some bucket. |
| Chains.FindAgreesWithSnapshot | hash_alimentos.c:45-54 | In a valid table, a lookup finds key `k` exactly when some snapshot record carries `k`, and that record is the one found. |
| Chains.SnapshotKeysUnique | hash_alimentos.c:45-54 | In a valid table no id occurs twice in the snapshot, so ids are unique across the whole table. |
| Chains.Count | hash_alimentos.c:61-71 | The node count equals the length of the snapshot. |
| Chains.Snapshot | hash_alimentos.c:45-54 | The copy is every record, bucket 0 to 63, each bucket in chain order. |
| Chains.SearchSnapshot | main.c:269-279 | Snapshot, sort by id, then binary-search. The result is a sorted permutation of the table. The search misses exactly when the lookup finds nothing, and a hit is the record the lookup finds. |
| Sorting.Swap | hash_clientes.c:90-92 | The three-step swap exchanges two positions and leaves every other position as it was. |
| Sorting.SwapPermutes | hash_clientes.c:84-86 | A swap is a permutation: the multiset of elements is unchanged. |
| Sorting.ScanStep | hash_clientes.c:81-88 | One pass of the scan loop keeps the partition invariant. The window stays a permutation with the rest untouched. Keys up to `i` stay below the pivot and keys after `i` up to the scanned position stay at least the pivot. |
| Sorting.PlacePivot | hash_clientes.c:90-94 | The final swap puts the pivot at `i + 1`. Smaller keys end up on its left, the rest on its right, and the window remains a permutation. |
| Sorting.Partition | hash_clientes.c:77-95 | The pivot position p lies in [low, high] and holds the old `a[high]`. Keys left of p are below the pivot's key, and keys right of it are at least that key. The window is permuted and nothing outside it moves. |
| Sorting.QuickSort | hash_clientes.c:103-116 | The window [low, high] ends sorted and permuted, and everything outside it is unchanged. |
| Sorting.Sort | main.c:273 | `quicksort(a, 0, n - 1)` returns a sorted permutation of its input. |
| Sorting.Probe | hash_clientes.c:125-149 | The halving search yields -1 or an index in the window whose key is the target. |
| Sorting.ProbeFinds | hash_clientes.c:125-149 | On a sorted array, a present target is never halved away. |
| Sorting.BinarySearch | hash_clientes.c:125-149 | The loop computes the halving search. Its answer is -1 or a matching index. On a sorted array it is -1 exactly when no element has the target key. |
| FoodStore.ParseAvailability | hash_alimentos.c:164-172 | Exactly "Si" is available, exactly "No" is unavailable, and every other text is refused. |
| FoodStore.Lookup | hash_alimentos.c:205-216 | `buscarAlimento` instantiates `Chains.Find` with the mid-square bucket and the food id: a found food carries the id and sits in bucket `MidSquare(id)`, and nothing is found exactly when no food of that bucket has the id. |
| FoodStore.Insert | hash_alimentos.c:163-197 | A bad availability text is refused first and a present id second; both leave the table unchanged. Success happens exactly when neither check fails. The new food then heads bucket `MidSquare(id)` with the given name and price and availability "Si" = true. Other buckets and lookups are unchanged and the count grows by one. |
| FoodStore.Delete | hash_alimentos.c:224-245 | Fails exactly when the id is absent, leaving the table as it was. On success only the found node leaves its chain and the rest keep their order; other buckets and lookups are unchanged, the count drops by one, and in a valid table the id is gone. |
| FoodStore.Update | hash_alimentos.c:256-280 | An absent id is refused first and a bad availability text second, with no field changed. On success the node is overwritten in place, at its own chain position, with the new name, price and availability. Every other node, bucket and lookup and the count are unchanged. |
| FoodStore.InsertThenDelete | hash_alimentos.c:163-245 | Deleting a just-inserted id succeeds and restores every lookup and the count. |
| FoodStore.SortByPrice | hash_alimentos.c:80-119 | The food quicksort yields a permutation ordered by price. |
| FoodStore.SearchById | hash_alimentos.c:128-152 | The food search compares ids. It returns -1 or a position holding the id, and is complete on an id-ordered array. |
| FoodStore.SearchSnapshotAsWritten | main.c:654-664 | The food report as the program runs it: snapshot, sort by price, search by id. A hit is always the right food, but a miss is not proof of absence. |
| FoodStore.PriceOrderHidesFood | hash_alimentos.c:81-85 | Two foods where the cheaper one has the larger id: after the price sort, a search for the present id 1 returns -1. |
| FoodStore.TwoFoodsContents | hash_alimentos.c:163-197 | Adding food 1 (price 2) and then food 2 (price 1) to an empty table succeeds both times: the table stays valid, finds food 1, and its snapshot holds exactly those two foods. |
| FoodStore.PriceReportMissesFood | main.c:654-664 | On that two-food table (`t == TwoFoods()`), the report as written (a permutation of the snapshot, sorted by price, then the id search `Probe` for id 1) answers -1 while a lookup of id 1 finds the food. |
| FoodStore.SearchSnapshot | main.c:654-664 | The food report sorted by id. It finds a food exactly when a lookup does, and returns that food. |
| ClientStore.Lookup | hash_clientes.c:189-200 | `buscarCliente` instantiates `Chains.Find` with bucket `id % 64` and the client id: a found client carries the id and sits in that bucket, and nothing is found exactly when no client of that bucket has the id. |
| ClientStore.Insert | hash_clientes.c:159-181 | A present id is refused with the table unchanged. Success happens exactly when the id is absent. The client then heads bucket `id % 64` with the given name and phone, a lookup returns it, other buckets and lookups are unchanged and the count grows by one. |
| ClientStore.Delete | hash_clientes.c:208-229 | Fails exactly when the id is absent. On success only that node leaves its chain, the rest keep their order, and other buckets and lookups are unchanged. |
| ClientStore.Update | hash_clientes.c:239-250 | Fails exactly when the id is absent. On success the node is overwritten in place, at its own chain position, taking the new name and phone; every other node, bucket and lookup and the count are unchanged. |
| ClientStore.Sort | hash_clientes.c:103-116 | A permutation ordered by client id. |
| ClientStore.Search | hash_clientes.c:125-149 | Returns the index the halving search `Sorting.Probe` reaches, which is -1 or a position holding the id. On an id-ordered array it is -1 exactly when the id is absent. |
| MenuStore.Lookup | hash_menus.c:210-221 | `buscarMenuPorID` instantiates `Chains.Find` with bucket `id % 64` and the menu id: a found menu carries the id and sits in that bucket, and nothing is found exactly when no menu of that bucket has the id. |
| MenuStore.Insert | hash_menus.c:170-201 | A present menu id is refused before any food is examined. Next, the first food id that is missing or unavailable is reported, with the table unchanged. Success happens exactly when the id is absent and every food is usable. The menu then stores the date and the food ids in order, heads bucket `id % 64` and is found by a lookup; other buckets and lookups are unchanged. |
| MenuStore.Delete | hash_menus.c:230-251 | Fails exactly when the id is absent. On success only the found node leaves its chain and the rest keep their order; other buckets and lookups are unchanged, the count drops by one, and in a valid table the id is gone. |
| MenuStore.Update | hash_menus.c:263-275 | Fails exactly when the id is absent; no food is checked. On success the node is overwritten in place, at its own chain position, with the date and food list as given; every other node, bucket and lookup and the count are unchanged. |
| MenuStore.Resolve | hash_menus.c:295-303 | The display looks up each food id afresh. An entry is "not found" exactly when the food table lacks the id; when the lookup finds a food, the entry shows exactly that food. |
| MenuStore.DeletedFoodDangles | hash_menus.c:295-303 | After a food is deleted, a menu that names it keeps the id. The display reports that id as not found, and every other entry resolves as before. |
| MenuStore.TacoScenario | hash_menus.c:295-303 | Food 1 is added, menu 10 naming it is added, and food 1 is deleted. Menu 10 still lists [1], and its display reports food 1 as not found. |
| MenuStore.Sort | hash_menus.c:110-123 | A permutation ordered by menu id. |
| MenuStore.Search | hash_menus.c:133-157 | Returns the index the halving search `Sorting.Probe` reaches, which is -1 or a position holding the id. On an id-ordered array it is -1 exactly when the id is absent. |
| OrderStore.Lookup | hash_pedidos.c:210-221 | `buscarPedido` instantiates `Chains.Find` with bucket `id % 64` and the order id: a found order carries the id and sits in that bucket, and nothing is found exactly when no order of that bucket has the id. |
| OrderStore.Insert | hash_pedidos.c:164-202 | A present order id is refused first, a missing client second, and the first missing menu third; each refusal leaves the table unchanged. Success happens exactly when all three checks pass. The order then stores client, date, menus in order and state, heads bucket `id % 64` and is found by a lookup; other buckets and lookups are unchanged. |
| OrderStore.Delete | hash_pedidos.c:229-250 | Fails exactly when the id is absent. On success only the found node leaves its chain and the rest keep their order; other buckets and lookups are unchanged, the count drops by one, and in a valid table the id is gone. |
| OrderStore.Update | hash_pedidos.c:259-269 | Fails exactly when the id is absent. On success the node is overwritten in place, at its own chain position, with only the state changed, to whatever text is given; every other node, bucket and lookup and the count are unchanged. |
| OrderStore.UnknownClientScenario | hash_pedidos.c:171-174 | An order for client 5, which is not in an empty client table, is refused with "unknown client" and the order table stays empty. |
| OrderStore.Sort | hash_pedidos.c:103-116 | A permutation ordered by order id. |
| OrderStore.Search | hash_pedidos.c:125-149 | Returns the index the halving search `Sorting.Probe` reaches, which is -1 or a position holding the id. On an id-ordered array it is -1 exactly when the id is absent. |

## Left out

- Console output (`printf` diagnostics, the `mostrarTabla*` listings): the
  status of each `Outcome` says which message would be printed. Only the
  food resolution of the menu listing is modelled, as `MenuStore.Resolve`.
- Memory management: `malloc` failure (which exits or returns `false`),
  `free` and the `liberarTabla*` functions. The model uses value semantics
  and never runs out of memory.
- OpenMP: sort and search are modelled as one sequential run (see above).
- Food prices are C `float`s. They are modelled as integers that are only
  stored and compared; rounding, NaN and `%.2f` formatting are not
  modelled.
- Fixed C buffers are preconditions, not byte arrays:
  - names shorter than 50 characters;
  - phones and order states shorter than 15;
  - dates shorter than 11;
  - at most 50 food or menu ids per record.
- The console loops of `main.c` (menus, `scanf`) and its random test
  data are not part of this model. Its report paths (snapshot, sort,
  search) are modelled as `Chains.SearchSnapshot`,
  `FoodStore.SearchSnapshotAsWritten` and `Sorting.Sort`.
  `serializar_datos.c` (file output) and `deserializar_datos.c`
  (unfinished YAML input) are not part of this model either.
- The client, menu and order operations require `Hashing.Addressable(id)`
  (`ModHash(id) < 64`). In C, any other id indexes outside the bucket
  array, which is undefined behaviour. This admits every id >= 0 and the
  negative multiples of 64.
- OrderStore.Insert: requires every id it references (the client and every
  listed menu) to be addressable, whether or not the C reaches that
  lookup. The C returns before looking up the client when the order id is
  a duplicate, and before the menus when the id is a duplicate or the
  client is missing; it also stops at the first missing menu. Those runs
  are well defined in C for any such id, and the model does not cover
  them. A non-addressable id that the C does look up would make that
  lookup undefined.
- The no-mutation of other tables (`agregarMenu` leaves the food table
  alone; `agregarPedido` leaves the client and menu tables alone) holds by
  construction: those tables are inputs and are not returned.

## Findings

| source | as written | input that shows it | evidently intended | confidence | as-written member | corrected member |
|---|---|---|---|---|---|---|
| main.c:654-664 | The food search report sorts the snapshot by price (`hash_alimentos.c:81`, `:85`) and then binary-searches it by id (`hash_alimentos.c:137-143`). | Food 1 at price 2 and food 2 at price 1. The price order is [food 2, food 1]. The search for id 1 probes position 0, sees id 2 > 1 and stops with -1, although food 1 is present. | Sort by id before the id search, as the other three reports do. The search then finds a food exactly when a lookup does. | not executed | FoodStore.PriceReportMissesFood | FoodStore.SearchSnapshot |
