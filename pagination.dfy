/** The page window of both retrieval queries: `LIMIT offset, count` with
    offset `(page - 1) * limit` computed in Java `int` arithmetic. */
module Pagination {

  const TwoTo31: int := 0x8000_0000
  const TwoTo32: int := 0x1_0000_0000

  /** A Java `int`. */
  type Int32 = x: int | -0x8000_0000 <= x < 0x8000_0000

  /** Two's-complement wrap-around of a Java `int` operation. */
  function Wrap32(x: int): (r: Int32)
    ensures (r - x) % TwoTo32 == 0
    ensures -TwoTo31 <= x < TwoTo31 ==> r == x
  {
    (x + TwoTo31) % TwoTo32 - TwoTo31
  }

  /** Congruence modulo 2^32 survives multiplying both sides by `c`. */
  lemma CongruentTimes(a: int, b: int, c: int)
    requires (a - b) % TwoTo32 == 0
    ensures (a * c - b * c) % TwoTo32 == 0
  {
    var k := (a - b) / TwoTo32;
    assert a - b == k * TwoTo32;
    assert a * c - b * c == (k * c) * TwoTo32;
  }

  /** Congruence modulo 2^32 is transitive. */
  lemma CongruentTrans(x: int, y: int, z: int)
    requires (x - y) % TwoTo32 == 0 && (y - z) % TwoTo32 == 0
    ensures (x - z) % TwoTo32 == 0
  {
    var k := (x - y) / TwoTo32;
    var m := (y - z) / TwoTo32;
    assert x - z == (k + m) * TwoTo32;
  }

  /** The offset bound as the first LIMIT argument: `(page - 1) * limit`,
      each `int` operation wrapping; it agrees with the exact product
      modulo 2^32. */
  function Offset(page: Int32, limit: Int32): (r: Int32)
    ensures (r - (page - 1) * limit) % TwoTo32 == 0
  {
    var w := Wrap32(page - 1);
    CongruentTimes(w, page - 1, limit);
    CongruentTrans(Wrap32(w * limit), w * limit, (page - 1) * limit);
    Wrap32(w * limit)
  }

  /** The offset is the exact product whenever that product fits in an `int`. */
  lemma OffsetExact(page: Int32, limit: Int32)
    requires -TwoTo31 <= (page - 1) * limit < TwoTo31
    ensures Offset(page, limit) == (page - 1) * limit
  {
    if limit != 0 && page - 1 < -TwoTo31 {
      // only page = -2^31 gets here, and then every non-zero limit overflows
      assert false;
    }
  }

  /** A large enough page number wraps the offset negative, so the LIMIT
      clause is rejected instead of reaching a later page. */
  lemma OffsetWrapsNegative()
    ensures Offset(0x4000_0001, 2) == -TwoTo31
  {
    assert Wrap32(0x4000_0001 - 1) == 0x4000_0000;
  }

  function Min(a: int, b: int): (m: int)
    ensures m <= a && m <= b && (m == a || m == b)
  {
    if a <= b then a else b
  }

  /** Number of rows a LIMIT window keeps out of `n` ordered rows. */
  function WindowSize(n: nat, offset: nat, count: nat): (k: nat)
    ensures k <= count
    ensures offset + k <= n || k == 0
  {
    if n <= offset then 0 else Min(count, n - offset)
  }

  /** `LIMIT offset, count` applied to the ordered rows `xs`. */
  function Window<T>(xs: seq<T>, offset: nat, count: nat): (w: seq<T>)
    ensures |w| == WindowSize(|xs|, offset, count)
    ensures forall i | 0 <= i < |w| :: offset + i < |xs| && w[i] == xs[offset + i]
  {
    if |xs| <= offset then [] else xs[offset..offset + Min(count, |xs| - offset)]
  }

  /** No row occurs twice in `xs`. */
  predicate Distinct<T(==)>(xs: seq<T>)
  {
    forall i, j | 0 <= i < j < |xs| :: xs[i] != xs[j]
  }

  /** Offsets of two different pages are at least one page apart. */
  lemma PageStartsApart(limit: int, page1: int, page2: int)
    requires 1 <= limit && page1 < page2
    ensures (page1 - 1) * limit + limit <= (page2 - 1) * limit
  {
    var d := page2 - page1;
    assert (page2 - 1) * limit == (page1 - 1) * limit + d * limit;
    assert d * limit == (d - 1) * limit + limit;
    assert (d - 1) * limit >= 0;
  }

  /** Two windows of `count` rows whose offsets are at least `count`
      apart share no row of a duplicate-free ordering. */
  lemma WindowsDisjoint<T>(xs: seq<T>, offset1: nat, offset2: nat, count: nat)
    requires Distinct(xs)
    requires offset1 + count <= offset2 || offset2 + count <= offset1
    ensures forall x | x in Window(xs, offset1, count) :: x !in Window(xs, offset2, count)
  {
    var w1, w2 := Window(xs, offset1, count), Window(xs, offset2, count);
    forall x | x in w1
      ensures x !in w2
    {
      var i :| 0 <= i < |w1| && w1[i] == x;
    }
  }

  /** With a positive page size and no overflow, two different pages of the
      same ordering share no row. */
  lemma PagesDisjoint<T>(xs: seq<T>, limit: Int32, page1: Int32, page2: Int32)
    requires Distinct(xs)
    requires 1 <= limit && 1 <= page1 && 1 <= page2 && page1 != page2
    requires (page1 - 1) * limit < TwoTo31 && (page2 - 1) * limit < TwoTo31
    ensures 0 <= Offset(page1, limit) && 0 <= Offset(page2, limit)
    ensures forall x | x in Window(xs, Offset(page1, limit), limit) :: x !in Window(xs, Offset(page2, limit), limit)
  {
    assert (page1 - 1) * limit >= 0 && (page2 - 1) * limit >= 0;
    OffsetExact(page1, limit);
    OffsetExact(page2, limit);
    if page1 < page2 { PageStartsApart(limit, page1, page2); } else { PageStartsApart(limit, page2, page1); }
    WindowsDisjoint(xs, Offset(page1, limit), Offset(page2, limit), limit);
  }

  /** A duplicate-free ordering with as many entries as the set it draws
      from lists every member of that set. */
  lemma CoversAll<T>(xs: seq<T>, s: set<T>)
    requires Distinct(xs) && |xs| == |s|
    requires forall x | x in xs :: x in s
    ensures forall x | x in s :: x in xs
  {
    var elems := set x | x in xs;
    DistinctCard(xs);
    assert elems <= s;
    if x :| x in s && x !in xs {
      SubsetCard(elems, s - {x});
      assert false;
    }
  }

  lemma {:induction false} DistinctCard<T>(xs: seq<T>)
    requires Distinct(xs)
    ensures |set x | x in xs| == |xs|
  {
    if xs != [] {
      var tail := xs[1..];
      DistinctCard(tail);
      assert (set x | x in xs) == (set x | x in tail) + {xs[0]};
      assert xs[0] !in tail;
    }
  }

  lemma SubsetCard<T>(a: set<T>, b: set<T>)
    requires a <= b
    ensures |a| <= |b|
    decreases b
  {
    if a != {} {
      var y :| y in a;
      SubsetCard(a - {y}, b - {y});
    }
  }
}
