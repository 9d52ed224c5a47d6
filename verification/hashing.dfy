/** The two bucket functions of the store: the food table's mid-square hash
    and the plain remainder used by the client, menu and order tables. C's
    fixed-width arithmetic is written out: 64-bit unsigned products wrap
    modulo 2^64, `%` on a signed int truncates toward zero, and the cast of
    a negative remainder to `unsigned int` wraps modulo 2^32. */
module Hashing {

  /** HASH_TABLE_SIZE, CLIENTES_TABLE_SIZE, MENU_TABLE_SIZE and
      PEDIDOS_TABLE_SIZE are all 64. */
  const TableSize: nat := 64

  const TwoTo32: int := 0x1_0000_0000
  const TwoTo64: int := 0x1_0000_0000_0000_0000
  const TwoTo31: int := 0x8000_0000

  /** An id that fits C's 32-bit `int`. */
  predicate IsInt32(id: int) {
    -TwoTo31 <= id < TwoTo31
  }

  /** Mid-square hash of a food id: square the id as a 64-bit unsigned value,
      keep bits 10..15 of the square, and reduce modulo the table size. */
  function MidSquare(id: int): (b: nat)
    ensures b < TableSize
  {
    var u := id % TwoTo64;              // (unsigned long long) id
    var square := (u * u) % TwoTo64;    // 64-bit unsigned product
    var midBits := (square / 1024) % 64; // (square >> 10) & ((1 << 6) - 1)
    midBits % TableSize
  }

  /** C's signed `%`: the quotient truncates toward zero, so the remainder
      has the sign of the dividend. */
  function CRem(a: int, n: int): (r: int)
    requires n > 0
    ensures a >= 0 ==> 0 <= r < n
    ensures a < 0 ==> -n < r <= 0
    ensures (a - r) % n == 0
  {
    RemainderCongruent(a, n);
    if a >= 0 then a % n else -((-a) % n)
  }

  /** `id % 64` as the client, menu and order tables compute it: a signed
      remainder converted to `unsigned int`. */
  function ModHash(id: int): (b: nat)
    ensures id >= 0 ==> b == id % TableSize
    ensures b < TableSize <==> id >= 0 || id % TableSize == 0
    ensures TableSize <= b ==> TwoTo32 - TableSize < b < TwoTo32
    ensures (b - id) % TableSize == 0
  {
    ModHashCongruent(id);
    CRem(id, TableSize) % TwoTo32
  }

  /** `id % 64`, as `unsigned int`, names a real bucket of the client, menu
      and order tables. Any other id indexes outside the bucket array. */
  predicate Addressable(id: int) {
    ModHash(id) < TableSize
  }

  /** For every 32-bit id, the 64-bit wrap-around never fires: the bucket is
      bits 10..15 of the exact square, so an id and its negation share a
      bucket. */
  lemma MidSquareOfInt32(id: int)
    requires IsInt32(id)
    ensures MidSquare(id) == (id * id / 1024) % 64
    ensures -TwoTo31 < id ==> MidSquare(-id) == MidSquare(id)
  {
    SquareBelow(id);
    SquareModulus(id);
    if -TwoTo31 < id {
      SquareBelow(-id);
      SquareModulus(-id);
      assert (-id) * (-id) == id * id;
    }
  }

  /** The square of a 32-bit id stays below 2^62. */
  lemma SquareBelow(id: int)
    requires -TwoTo31 <= id <= TwoTo31
    ensures 0 <= id * id <= TwoTo31 * TwoTo31
  {
    var a := if id < 0 then -id else id;
    assert a * a == id * id;
    NonNegativeProduct(a, TwoTo31 - a);
    NonNegativeProduct(TwoTo31 - a, TwoTo31);
    assert a * a <= a * TwoTo31 <= TwoTo31 * TwoTo31;
  }

  /** The wrapped square equals the exact square for 32-bit ids. */
  lemma SquareModulus(id: int)
    requires -TwoTo31 <= id <= TwoTo31
    requires 0 <= id * id <= TwoTo31 * TwoTo31
    ensures ((id % TwoTo64) * (id % TwoTo64)) % TwoTo64 == id * id
  {
    if id >= 0 {
      assert id % TwoTo64 == id;
    } else {
      var u := id + TwoTo64;
      assert id % TwoTo64 == u;
      assert u * u == id * id + TwoTo64 * (2 * id + TwoTo64);
      ModAddMultiple(id * id, 2 * id + TwoTo64);
    }
  }

  lemma NonNegativeProduct(a: int, b: int)
    requires 0 <= a && 0 <= b
    ensures 0 <= a * b
  {
  }

  lemma ModAddMultiple(a: int, q: int)
    requires 0 <= a < TwoTo64
    ensures (a + TwoTo64 * q) % TwoTo64 == a
  {
  }

  /** Both branches of `CRem` differ from the dividend by a multiple of n. */
  lemma RemainderCongruent(a: int, n: int)
    requires n > 0
    ensures a >= 0 ==> (a - a % n) % n == 0
    ensures a < 0 ==> (a + (-a) % n) % n == 0
  {
    if a >= 0 {
      assert a - a % n == n * (a / n);
      MultipleMod(n, a / n);
    } else {
      assert -a == n * ((-a) / n) + (-a) % n;
      assert a + (-a) % n == n * (-((-a) / n));
      MultipleMod(n, -((-a) / n));
    }
  }

  lemma MultipleMod(n: int, k: int)
    requires n > 0
    ensures (n * k) % n == 0
  {
    var d, r := (n * k) / n, (n * k) % n;
    assert n * k == n * d + r && 0 <= r < n;
    assert r == n * (k - d);
    if k - d >= 1 {
      AtLeastOneMultiple(n, k - d);
    } else if k - d <= -1 {
      AtLeastOneMultiple(n, d - k);
    }
  }

  lemma AtLeastOneMultiple(n: int, x: int)
    requires n > 0 && x >= 1
    ensures n * x >= n && n * -x <= -n
  {
    NonNegativeProduct(n, x - 1);
    assert n * x == n + n * (x - 1);
  }

  /** The unsigned cast moves a negative remainder by 2^32, a multiple of
      the table size. */
  lemma ModHashCongruent(id: int)
    ensures (CRem(id, TableSize) % TwoTo32 - id) % TableSize == 0
  {
    var c := CRem(id, TableSize);
    assert (c - id) % TableSize == 0;
    if c < 0 {
      assert c % TwoTo32 == c + TwoTo32;
      assert c % TwoTo32 - id == (c - id) + TableSize * 0x400_0000;
    }
  }
}
