/** The storage structure shared by the four stores: a fixed array of 64
    buckets, each a singly linked chain of records, newest first. A chain is
    a `seq` (index 0 is the head node) and a table is the `seq` of its 64
    chains. The record type is a parameter; each store supplies the record's
    key (`key`) and its bucket function (`hash`). */
module Chains {
  import opened Common
  import Hashing
  import Sorting

  const Size: nat := Hashing.TableSize

  type Table<T> = seq<seq<T>>

  /** Why a store operation refused to change the table. The source reports
      these as a `false` return plus a diagnostic line; `Ok` is `true`. The
      first three are common to every store; the others are the refusals of
      one store each (food availability text, a menu's food, an order's
      client and menus), gathered here so that one `Outcome` type serves all
      four tables. */
  datatype Status =
    | Ok
    | DuplicateKey
    | NotFound
    | InvalidAvailability
    | InvalidFood(food: int)
    | UnknownClient(client: int)
    | UnknownMenu(menu: int)

  /** The table after an operation, together with its status. */
  datatype Outcome<T> = Outcome(status: Status, table: Table<T>)

  /*
   * Representation invariant
   */

  /** No key occurs twice in a chain. */
  predicate UniqueKeys<T>(c: seq<T>, key: T -> int) {
    forall i, j :: 0 <= i < j < |c| ==> key(c[i]) != key(c[j])
  }

  /** Every record sits in the bucket its key hashes to, and no key occurs
      twice in a bucket (hence, by placement, nowhere twice in the table). */
  predicate Valid<T>(t: Table<T>, hash: int -> nat, key: T -> int) {
    && |t| == Size
    && (forall b, i :: 0 <= b < |t| && 0 <= i < |t[b]| ==> hash(key(t[b][i])) == b)
    && (forall b :: 0 <= b < |t| ==> UniqueKeys(t[b], key))
  }

  /*
   * Snapshot order
   */

  /** All records, bucket 0 first, each bucket in chain order: the order in
      which the copy routine fills its output array. */
  function Flatten<T>(t: Table<T>): seq<T>
    decreases |t|
  {
    if |t| == 0 then [] else Flatten(t[..|t| - 1]) + t[|t| - 1]
  }

  /** A fresh table: 64 empty buckets, so an empty snapshot. */
  function Create<T>(): (t: Table<T>)
    ensures |t| == Size
    ensures Flatten(t) == []
  {
    var t := seq(Size, _ => []);
    FlattenOfEmptyBuckets(t);
    t
  }

  /** A fresh table is valid for any key and bucket function, and no key
      is found in it. */
  lemma CreateIsValid<T>(hash: int -> nat, key: T -> int)
    ensures Valid(Create<T>(), hash, key)
    ensures forall k :: hash(k) < Size ==> Find(Create<T>(), hash, key, k).None?
  {
  }

  /*
   * Chain walks
   */

  /** Position of the first node of chain `c` whose key is `k`. */
  function IndexOf<T>(c: seq<T>, key: T -> int, k: int): (r: Option<nat>)
    ensures r.Some? ==> r.value < |c| && key(c[r.value]) == k
    ensures r.Some? ==> forall j :: 0 <= j < r.value ==> key(c[j]) != k
    ensures r.None? <==> forall j :: 0 <= j < |c| ==> key(c[j]) != k
    decreases |c|
  {
    if |c| == 0 then None
    else if key(c[0]) == k then Some(0)
    else match IndexOf(c[1..], key, k)
      case None => None
      case Some(i) => Some(i + 1)
  }

  /** The lookup walk: follow `next` until a node with key `k`. */
  function FindIn<T>(c: seq<T>, key: T -> int, k: int): (r: Option<T>)
    ensures IndexOf(c, key, k).None? ==> r == None
    ensures IndexOf(c, key, k).Some? ==> r == Some(c[IndexOf(c, key, k).value])
    decreases |c|
  {
    if |c| == 0 then None
    else if key(c[0]) == k then Some(c[0])
    else FindIn(c[1..], key, k)
  }

  /** The delete walk: splice out the first node with key `k` (through the
      bucket head when it is the first node, through `previo->next`
      otherwise). */
  function Unlink<T>(c: seq<T>, key: T -> int, k: int): (r: seq<T>)
    ensures IndexOf(c, key, k).None? ==> r == c
    ensures IndexOf(c, key, k).Some? ==>
              var i := IndexOf(c, key, k).value;
              r == c[..i] + c[i + 1..]
    decreases |c|
  {
    if |c| == 0 then []
    else if key(c[0]) == k then c[1..]
    else
      var rest := Unlink(c[1..], key, k);
      match IndexOf(c[1..], key, k)
      case None => assert c == [c[0]] + c[1..]; [c[0]] + rest
      case Some(i) => SpliceAfterHead(c, i); [c[0]] + rest
  }

  /** Removing position `i` of the tail and putting the head back removes
      position `i + 1` of the whole chain. */
  lemma SpliceAfterHead<T>(c: seq<T>, i: nat)
    requires i + 1 < |c|
    ensures [c[0]] + (c[1..][..i] + c[1..][i + 1..]) == c[..i + 1] + c[i + 2..]
  {
    var l := [c[0]] + (c[1..][..i] + c[1..][i + 1..]);
    var r := c[..i + 1] + c[i + 2..];
    assert |l| == |r|;
    forall j | 0 <= j < |l| ensures l[j] == r[j] {
      if j == 0 {
      } else if j <= i {
        assert l[j] == c[1..][j - 1];
      } else {
        assert l[j] == c[1..][j];
      }
    }
  }

  /** The in-place update: the first node with key `k` is overwritten with
      `x`; its position in the chain is kept. */
  function ReplaceIn<T>(c: seq<T>, key: T -> int, k: int, x: T): (r: seq<T>)
    ensures IndexOf(c, key, k).None? ==> r == c
    ensures IndexOf(c, key, k).Some? ==> r == c[IndexOf(c, key, k).value := x]
    decreases |c|
  {
    if |c| == 0 then []
    else if key(c[0]) == k then [x] + c[1..]
    else [c[0]] + ReplaceIn(c[1..], key, k, x)
  }

  /*
   * Table operations
   */

  /** buscar*: walk bucket `hash(k)`; the result is the first node with key
      `k`, or absent exactly when no node of that bucket has key `k`. */
  function Find<T>(t: Table<T>, hash: int -> nat, key: T -> int, k: int): (r: Option<T>)
    requires |t| == Size && hash(k) < Size
    ensures r.Some? ==> key(r.value) == k && r.value in t[hash(k)]
    ensures r.None? <==> forall x :: x in t[hash(k)] ==> key(x) != k
  {
    FindIn(t[hash(k)], key, k)
  }

  /** The mutation step of every insert: prepend `x` to bucket
      `hash(key(x))`. */
  function Add<T>(t: Table<T>, hash: int -> nat, key: T -> int, x: T): (r: Table<T>)
    requires |t| == Size && hash(key(x)) < Size
    ensures |r| == Size
    ensures r[hash(key(x))] == [x] + t[hash(key(x))]
    ensures forall b :: 0 <= b < Size && b != hash(key(x)) ==> r[b] == t[b]
    ensures Find(r, hash, key, key(x)) == Some(x)
    ensures forall k :: k != key(x) && hash(k) < Size ==> Find(r, hash, key, k) == Find(t, hash, key, k)
    ensures |Flatten(r)| == |Flatten(t)| + 1
    ensures Valid(t, hash, key) && Find(t, hash, key, key(x)).None? ==> Valid(r, hash, key)
  {
    var h := hash(key(x));
    var r := t[h := [x] + t[h]];
    FlattenUpdateLength(t, h, [x] + t[h]);
    assert ([x] + t[h])[1..] == t[h];
    assert Valid(t, hash, key) && Find(t, hash, key, key(x)).None? ==> Valid(r, hash, key) by {
      if Valid(t, hash, key) && Find(t, hash, key, key(x)).None? {
        var c := [x] + t[h];
        forall i, j | 0 <= i < j < |c| ensures key(c[i]) != key(c[j]) {
          assert c[j] == t[h][j - 1];
          if i > 0 {
            assert c[i] == t[h][i - 1];
          } else {
            assert c[j] in t[h];
          }
        }
        ValidAfterBucketUpdate(t, hash, key, h, c);
      }
    }
    r
  }

  /** eliminar*: unlink the first node with key `k` from its bucket. Absent
      key: nothing changes. Present key: exactly that node leaves, the rest
      of its chain keeps its order, every other bucket is untouched, and in
      a valid table the key is gone afterwards. */
  function Remove<T>(t: Table<T>, hash: int -> nat, key: T -> int, k: int): (r: Table<T>)
    requires |t| == Size && hash(k) < Size
    ensures |r| == Size
    ensures Find(t, hash, key, k).None? ==> r == t
    ensures Find(t, hash, key, k).Some? ==>
              exists i :: 0 <= i <= |r[hash(k)]| &&
                t[hash(k)] == r[hash(k)][..i] + [Find(t, hash, key, k).value] + r[hash(k)][i..]
    ensures Find(t, hash, key, k).Some? ==> |Flatten(r)| + 1 == |Flatten(t)|
    ensures forall b :: 0 <= b < Size && b != hash(k) ==> r[b] == t[b]
    ensures forall k' :: k' != k && hash(k') < Size ==> Find(r, hash, key, k') == Find(t, hash, key, k')
    ensures Valid(t, hash, key) ==> Valid(r, hash, key) && Find(r, hash, key, k).None?
  {
    var h := hash(k);
    var c' := Unlink(t[h], key, k);
    FlattenUpdateLength(t, h, c');
    RemoveSplits(t, hash, key, k);
    UnlinkKeepsOthersEverywhere(t, hash, key, k);
    assert Valid(t, hash, key) ==> Valid(t[h := c'], hash, key) && Find(t[h := c'], hash, key, k).None? by {
      if Valid(t, hash, key) {
        RemoveKeepsValid(t, hash, key, k);
      }
    }
    t[h := c']
  }

  /** The node a delete takes out sits between the two halves of its new
      chain. */
  lemma RemoveSplits<T>(t: Table<T>, hash: int -> nat, key: T -> int, k: int)
    requires |t| == Size && hash(k) < Size
    ensures Find(t, hash, key, k).Some? ==>
              exists i :: 0 <= i <= |Unlink(t[hash(k)], key, k)| &&
                t[hash(k)] == Unlink(t[hash(k)], key, k)[..i] + [Find(t, hash, key, k).value] + Unlink(t[hash(k)], key, k)[i..]
  {
    var h := hash(k);
    var c := t[h];
    assert Find(t, hash, key, k) == FindIn(c, key, k);
    if IndexOf(c, key, k).Some? {
      var i := IndexOf(c, key, k).value;
      SplitAround(c, i);
      var c' := Unlink(c, key, k);
      assert t[h] == c'[..i] + [Find(t, hash, key, k).value] + c'[i..];
    }
  }

  /** A delete from a valid table leaves it valid, without the key. */
  lemma RemoveKeepsValid<T>(t: Table<T>, hash: int -> nat, key: T -> int, k: int)
    requires Valid(t, hash, key) && hash(k) < Size
    ensures Valid(t[hash(k) := Unlink(t[hash(k)], key, k)], hash, key)
    ensures Find(t[hash(k) := Unlink(t[hash(k)], key, k)], hash, key, k).None?
  {
    var h := hash(k);
    var c := t[h];
    var c' := Unlink(c, key, k);
    UnlinkKeepsValid(c, key, k);
    forall i | 0 <= i < |c'| ensures hash(key(c'[i])) == h {
      assert c'[i] in c;
      var j :| 0 <= j < |c| && c[j] == c'[i];
    }
    ValidAfterBucketUpdate(t, hash, key, h, c');
    assert t[h := c'][h] == c';
  }

  /** actualizar*: overwrite the first node with key `k` by `x` (same key).
      Absent key: nothing changes. Present key: that node is overwritten at
      its own position in the chain, lookups of `k` now yield `x`, and every
      other node, bucket and lookup and the record count are unchanged. */
  function Replace<T>(t: Table<T>, hash: int -> nat, key: T -> int, k: int, x: T): (r: Table<T>)
    requires |t| == Size && hash(k) < Size && key(x) == k
    ensures |r| == Size
    ensures Find(t, hash, key, k).None? ==> r == t
    ensures Find(t, hash, key, k).Some? ==> Find(r, hash, key, k) == Some(x)
    ensures Find(t, hash, key, k).Some? ==>
              && IndexOf(t[hash(k)], key, k).Some?
              && r[hash(k)] == t[hash(k)][IndexOf(t[hash(k)], key, k).value := x]
    ensures forall b :: 0 <= b < Size && b != hash(k) ==> r[b] == t[b]
    ensures forall k' :: k' != k && hash(k') < Size ==> Find(r, hash, key, k') == Find(t, hash, key, k')
    ensures |Flatten(r)| == |Flatten(t)|
    ensures Valid(t, hash, key) ==> Valid(r, hash, key)
  {
    var h := hash(k);
    var c := t[h];
    var c' := ReplaceIn(c, key, k, x);
    var r := t[h := c'];
    FlattenUpdateLength(t, h, c');
    ReplaceFindsNew(c, key, k, x);
    ReplaceKeepsOthersEverywhere(t, hash, key, k, x);
    assert Valid(t, hash, key) ==> Valid(r, hash, key) by {
      if Valid(t, hash, key) {
        ReplaceKeepsValid(c, key, k, x, h, hash);
        ValidAfterBucketUpdate(t, hash, key, h, c');
      }
    }
    r
  }

  /*
   * Lemmas about the chain walks
   */

  /** Changing one bucket to a chain whose keys are unique and all hash to
      that bucket keeps the table valid. */
  lemma ValidAfterBucketUpdate<T>(t: Table<T>, hash: int -> nat, key: T -> int, b: nat, c: seq<T>)
    requires Valid(t, hash, key) && b < |t|
    requires UniqueKeys(c, key)
    requires forall i :: 0 <= i < |c| ==> hash(key(c[i])) == b
    ensures Valid(t[b := c], hash, key)
  {
  }

  /** Dropping position `i` and putting it back in the same place gives
      the original chain. */
  lemma SplitAround<T>(c: seq<T>, i: nat)
    requires i < |c|
    ensures var r := c[..i] + c[i + 1..];
            i <= |r| && c == r[..i] + [c[i]] + r[i..]
  {
    var r := c[..i] + c[i + 1..];
    assert r[..i] == c[..i];
    assert r[i..] == c[i + 1..];
  }

  /** Unlinking the node with key `k` does not change what a lookup of any
      other key finds. */
  lemma {:induction false} UnlinkKeepsOthers<T>(c: seq<T>, key: T -> int, k: int, k': int)
    requires k != k'
    ensures FindIn(Unlink(c, key, k), key, k') == FindIn(c, key, k')
    decreases |c|
  {
    if |c| == 0 {
    } else if key(c[0]) == k {
      assert Unlink(c, key, k) == c[1..];
    } else {
      var rest := Unlink(c[1..], key, k);
      assert Unlink(c, key, k) == [c[0]] + rest;
      assert ([c[0]] + rest)[1..] == rest;
      UnlinkKeepsOthers(c[1..], key, k, k');
    }
  }

  lemma UnlinkKeepsOthersEverywhere<T>(t: Table<T>, hash: int -> nat, key: T -> int, k: int)
    requires |t| == Size && hash(k) < Size
    ensures forall k' :: k' != k && hash(k') < Size ==>
              Find(t[hash(k) := Unlink(t[hash(k)], key, k)], hash, key, k') == Find(t, hash, key, k')
  {
    forall k' | k' != k && hash(k') < Size
      ensures Find(t[hash(k) := Unlink(t[hash(k)], key, k)], hash, key, k') == Find(t, hash, key, k')
    {
      if hash(k') == hash(k) {
        UnlinkKeepsOthers(t[hash(k)], key, k, k');
      }
    }
  }

  /** Overwriting the node with key `k` by a record with the same key does
      not change what a lookup of any other key finds. */
  lemma {:induction false} ReplaceKeepsOthers<T>(c: seq<T>, key: T -> int, k: int, x: T, k': int)
    requires k != k' && key(x) == k
    ensures FindIn(ReplaceIn(c, key, k, x), key, k') == FindIn(c, key, k')
    decreases |c|
  {
    if |c| == 0 {
    } else if key(c[0]) == k {
      assert ([x] + c[1..])[1..] == c[1..];
    } else {
      var rest := ReplaceIn(c[1..], key, k, x);
      assert ([c[0]] + rest)[1..] == rest;
      ReplaceKeepsOthers(c[1..], key, k, x, k');
    }
  }

  lemma ReplaceKeepsOthersEverywhere<T>(t: Table<T>, hash: int -> nat, key: T -> int, k: int, x: T)
    requires |t| == Size && hash(k) < Size && key(x) == k
    ensures forall k' :: k' != k && hash(k') < Size ==>
              Find(t[hash(k) := ReplaceIn(t[hash(k)], key, k, x)], hash, key, k') == Find(t, hash, key, k')
  {
    forall k' | k' != k && hash(k') < Size
      ensures Find(t[hash(k) := ReplaceIn(t[hash(k)], key, k, x)], hash, key, k') == Find(t, hash, key, k')
    {
      if hash(k') == hash(k) {
        ReplaceKeepsOthers(t[hash(k)], key, k, x, k');
      }
    }
  }

  /** After an overwrite, the lookup of the key finds the new record. */
  lemma ReplaceFindsNew<T>(c: seq<T>, key: T -> int, k: int, x: T)
    requires key(x) == k
    ensures IndexOf(c, key, k).Some? ==> FindIn(ReplaceIn(c, key, k, x), key, k) == Some(x)
  {
    if IndexOf(c, key, k).Some? {
      var i := IndexOf(c, key, k).value;
      var c' := ReplaceIn(c, key, k, x);
      assert c'[i] == x;
      assert forall j :: 0 <= j < i ==> c'[j] == c[j];
      assert IndexOf(c', key, k) == Some(i);
    }
  }

  /** An overwrite with an equal key keeps the chain's keys, so their
      uniqueness and their bucket. */
  lemma ReplaceKeepsValid<T>(c: seq<T>, key: T -> int, k: int, x: T, b: nat, hash: int -> nat)
    requires key(x) == k && UniqueKeys(c, key)
    requires forall i :: 0 <= i < |c| ==> hash(key(c[i])) == b
    ensures UniqueKeys(ReplaceIn(c, key, k, x), key)
    ensures forall i :: 0 <= i < |ReplaceIn(c, key, k, x)| ==> hash(key(ReplaceIn(c, key, k, x)[i])) == b
  {
    var c' := ReplaceIn(c, key, k, x);
    assert |c'| == |c| && forall i :: 0 <= i < |c| ==> key(c'[i]) == key(c[i]);
  }

  /** The tail of a chain with unique keys has unique keys, none equal
      to the head's. */
  lemma TailUnique<T>(c: seq<T>, key: T -> int)
    requires UniqueKeys(c, key) && |c| > 0
    ensures UniqueKeys(c[1..], key)
    ensures forall y :: y in c[1..] ==> key(y) != key(c[0])
  {
    var tail := c[1..];
    forall i, j | 0 <= i < j < |tail| ensures key(tail[i]) != key(tail[j]) {
      assert tail[i] == c[i + 1] && tail[j] == c[j + 1];
    }
    forall y | y in tail ensures key(y) != key(c[0]) {
      var j :| 0 <= j < |tail| && tail[j] == y;
      assert c[j + 1] == y;
    }
  }

  /** Putting a node with a fresh key in front keeps keys unique. */
  lemma ConsUnique<T>(x: T, rest: seq<T>, key: T -> int)
    requires UniqueKeys(rest, key)
    requires forall y :: y in rest ==> key(y) != key(x)
    ensures UniqueKeys([x] + rest, key)
  {
    var r := [x] + rest;
    forall i, j | 0 <= i < j < |r| ensures key(r[i]) != key(r[j]) {
      assert r[j] == rest[j - 1];
      if i > 0 {
        assert r[i] == rest[i - 1];
      } else {
        assert rest[j - 1] in rest;
      }
    }
  }

  /** Unlinking keeps a chain's keys unique and its records a subset of the
      original's; with unique keys, the unlinked key no longer occurs. */
  lemma {:induction false} UnlinkKeepsValid<T>(c: seq<T>, key: T -> int, k: int)
    requires UniqueKeys(c, key)
    ensures UniqueKeys(Unlink(c, key, k), key)
    ensures forall x :: x in Unlink(c, key, k) ==> x in c
    ensures IndexOf(Unlink(c, key, k), key, k).None?
    decreases |c|
  {
    if |c| > 0 {
      TailUnique(c, key);
      var tail := c[1..];
      if key(c[0]) != k {
        UnlinkKeepsValid(tail, key, k);
        var rest := Unlink(tail, key, k);
        ConsUnique(c[0], rest, key);
        assert ([c[0]] + rest)[1..] == rest;
      }
    }
  }

  /*
   * Lemmas about the snapshot order
   */

  lemma FlattenOfEmptyBuckets<T>(t: Table<T>)
    requires forall b :: 0 <= b < |t| ==> t[b] == []
    ensures Flatten(t) == []
    decreases |t|
  {
    if |t| > 0 {
      FlattenOfEmptyBuckets(t[..|t| - 1]);
    }
  }

  /** Replacing one bucket changes the snapshot length by the difference of
      the two chain lengths. */
  lemma {:induction false} FlattenUpdateLength<T>(t: Table<T>, b: nat, c: seq<T>)
    requires b < |t|
    ensures |Flatten(t[b := c])| == |Flatten(t)| - |t[b]| + |c|
    decreases |t|
  {
    var n := |t| - 1;
    var u := t[b := c];
    if b == n {
      assert u[..n] == t[..n];
    } else {
      assert u[..n] == t[..n][b := c];
      FlattenUpdateLength(t[..n], b, c);
    }
  }

  /** A record is in the snapshot exactly when it is in some bucket. */
  lemma {:induction false} InFlatten<T>(t: Table<T>, x: T)
    ensures x in Flatten(t) <==> exists b :: 0 <= b < |t| && x in t[b]
    decreases |t|
  {
    if |t| > 0 {
      var n := |t| - 1;
      InFlatten(t[..n], x);
      assert forall b :: 0 <= b < n ==> t[..n][b] == t[b];
    }
  }

  /** In a valid table the lookup agrees with the snapshot: a key is found
      exactly when some snapshot record carries it, and then the record found
      is that one. */
  lemma FindAgreesWithSnapshot<T>(t: Table<T>, hash: int -> nat, key: T -> int, k: int)
    requires Valid(t, hash, key) && hash(k) < Size
    ensures Find(t, hash, key, k).Some? <==> exists x :: x in Flatten(t) && key(x) == k
    ensures forall x :: x in Flatten(t) && key(x) == k ==> Find(t, hash, key, k) == Some(x)
  {
    var h := hash(k);
    var r := Find(t, hash, key, k);
    if r.Some? {
      InFlatten(t, r.value);
    }
    forall x | x in Flatten(t) && key(x) == k
      ensures Find(t, hash, key, k) == Some(x)
    {
      InFlatten(t, x);
      var b :| 0 <= b < |t| && x in t[b];
      var j :| 0 <= j < |t[b]| && t[b][j] == x;
      assert b == h;
      var i := IndexOf(t[h], key, k).value;
      assert i == j;
    }
  }

  /** Valid tables have unique keys across the whole snapshot, not only
      within each bucket. */
  lemma SnapshotKeysUnique<T>(t: Table<T>, hash: int -> nat, key: T -> int)
    requires Valid(t, hash, key)
    ensures UniqueKeys(Flatten(t), key)
  {
    PrefixKeysUnique(t, hash, key, |t|);
    assert t[..|t|] == t;
  }

  lemma {:induction false} PrefixKeysUnique<T>(t: Table<T>, hash: int -> nat, key: T -> int, n: nat)
    requires Valid(t, hash, key) && n <= |t|
    ensures UniqueKeys(Flatten(t[..n]), key)
    ensures forall x :: x in Flatten(t[..n]) ==> hash(key(x)) < n
    decreases n
  {
    if n > 0 {
      PrefixKeysUnique(t, hash, key, n - 1);
      var a := Flatten(t[..n - 1]);
      var c := t[n - 1];
      assert t[..n][..n - 1] == t[..n - 1];
      assert Flatten(t[..n]) == a + c;
      forall x | x in c ensures hash(key(x)) == n - 1 {
        var j :| 0 <= j < |c| && c[j] == x;
      }
      var s := a + c;
      forall i, j | 0 <= i < j < |s| ensures key(s[i]) != key(s[j]) {
        if j < |a| {
        } else if i >= |a| {
          assert s[i] == c[i - |a|] && s[j] == c[j - |a|];
        } else {
          assert s[i] in a && s[j] == c[j - |a|];
          assert s[j] in c;
        }
      }
    }
  }

  /*
   * Counting and copying
   */

  /** obtenerNumeroDe*: walk every chain of every bucket counting nodes. */
  method Count<T>(t: Table<T>) returns (n: int)
    requires |t| == Size
    ensures n == |Flatten(t)|
  {
    n := 0;
    var b := 0;
    while b < Size
      invariant 0 <= b <= Size
      invariant n == |Flatten(t[..b])|
    {
      var chain := t[b];
      var j := 0;
      while j < |chain|
        invariant 0 <= j <= |chain|
        invariant n == |Flatten(t[..b])| + j
      {
        n := n + 1;
        j := j + 1;
      }
      assert t[..b + 1][..b] == t[..b];
      b := b + 1;
    }
    assert t[..Size] == t;
  }

  /** copiar*DesdeTabla: append every node, bucket 0..63, chain order. The
      result is a copy: later changes to it never reach the table. */
  method Snapshot<T>(t: Table<T>) returns (s: seq<T>)
    requires |t| == Size
    ensures s == Flatten(t)
  {
    s := [];
    var b := 0;
    while b < Size
      invariant 0 <= b <= Size
      invariant s == Flatten(t[..b])
    {
      var chain := t[b];
      var j := 0;
      while j < |chain|
        invariant 0 <= j <= |chain|
        invariant s == Flatten(t[..b]) + chain[..j]
      {
        s := s + [chain[j]];
        j := j + 1;
      }
      assert t[..b + 1][..b] == t[..b];
      assert chain[..j] == chain;
      b := b + 1;
    }
    assert t[..Size] == t;
  }

  /** The report path: snapshot, sort by key, binary-search the key. In a
      valid table the search succeeds exactly for keys that a lookup finds,
      and then lands on that very record. */
  method SearchSnapshot<T>(t: Table<T>, hash: int -> nat, key: T -> int, k: int)
    returns (s: seq<T>, i: int)
    requires Valid(t, hash, key) && hash(k) < Size
    ensures multiset(s) == multiset(Flatten(t))
    ensures Sorting.SortedBy(s, key)
    ensures i == -1 <==> Find(t, hash, key, k).None?
    ensures i != -1 ==> 0 <= i < |s| && Find(t, hash, key, k) == Some(s[i])
  {
    var snap := Snapshot(t);
    s := Sorting.Sort(snap, key);
    i := Sorting.BinarySearch(s, key, k);
    FindAgreesWithSnapshot(t, hash, key, k);
    if i != -1 {
      assert s[i] in multiset(snap);
    } else {
      forall x | x in snap ensures key(x) != k {
        assert x in multiset(s);
      }
    }
  }
}
