/** The counting Bloom filter of src/util/np_bloom.c that the attribute policies use: four
    blocks of 255 cells, each cell an age byte and a count byte. */
module Bloom {
  import opened Bytes

  const BLOCK_CELLS := 3 * 5 * 17
  const BLOCKS := 4
  const CELLS := BLOCKS * BLOCK_CELLS
  const FREE_ITEMS := 64

  /** A np_dhkey_t as its eight 32-bit words. */
  type Words = s: seq<nat> | |s| == 8 witness [0, 0, 0, 0, 0, 0, 0, 0]

  /** The cell of a word inside its block. */
  function Cell(word: nat): nat {
    (word % 3 + 1) * (word % 5 + 1) * (word % 17 + 1) - 1
  }

  lemma CellInBlock(word: nat)
    ensures Cell(word) < BLOCK_CELLS
  {
    var a, b, c := word % 3 + 1, word % 5 + 1, word % 17 + 1;
    assert a * b <= 15 by {
      if a == 1 {} else if a == 2 {} else { assert a == 3; }
    }
    var ab := a * b;
    assert ab * c <= 15 * c by { MulMono(ab, 15, c); }
  }

  /** The cell goes by the word modulo the block's size, from the first cell to the last. */
  lemma CellIsPeriodic(word: nat)
    ensures Cell(word) == Cell(word % BLOCK_CELLS) && Cell(0) == 0 && Cell(254) == 254
  {
    hide Cell;
    var q, m := word / BLOCK_CELLS, word % BLOCK_CELLS;
    Multiples(q, m);
    SameResidues(word, m);
    assert Cell(0) == 0 && Cell(254) == 254 by { CellEnds(); }
  }

  lemma CellEnds()
    ensures Cell(0) == 0 && Cell(254) == 254
  {
  }

  lemma SameResidues(x: nat, y: nat)
    requires x % 3 == y % 3 && x % 5 == y % 5 && x % 17 == y % 17
    ensures Cell(x) == Cell(y)
  {
  }

  lemma {:induction false} Multiples(q: nat, m: nat)
    ensures var n := 255 * q + m; n % 3 == m % 3 && n % 5 == m % 5 && n % 17 == m % 17
  {
    if q > 0 {
      Multiples(q - 1, m);
      var n := 255 * (q - 1) + m;
      assert 255 * q + m == n + 255;
      By3(n);
      By5(n);
      By17(n);
    }
  }

  lemma By3(n: nat)
    ensures (n + 255) % 3 == n % 3
  {
  }

  lemma By5(n: nat)
    ensures (n + 255) % 5 == n % 5
  {
  }

  lemma By17(n: nat)
    ensures (n + 255) % 17 == n % 17
  {
  }

  lemma MulMono(x: nat, y: nat, c: nat)
    requires x <= y
    ensures x * c <= y * c
  {
  }

  /** Word k goes to block k / 2. */
  function Position(id: Words, k: nat): (p: nat)
    requires k < 8
    ensures p < CELLS && p / BLOCK_CELLS == k / 2
  {
    CellInBlock(id[k]);
    k / 2 * BLOCK_CELLS + Cell(id[k])
  }

  /** The cells of the first n words. */
  function PositionsUpTo(id: Words, n: nat): set<nat>
    requires n <= 8
  {
    set k | 0 <= k < n :: Position(id, k)
  }

  function Positions(id: Words): set<nat> {
    PositionsUpTo(id, 8)
  }

  // ------------------------------------------------------------ the cells

  function Count(b: seq<byte>, p: nat): byte
    requires 2 * p + 1 < |b|
  {
    b[2 * p + 1]
  }

  /** The cells that count something: what the filter says it contains. */
  function Support(b: seq<byte>): set<nat>
    requires |b| == 2 * CELLS
  {
    set p | 0 <= p < CELLS && Count(b, p) > 0
  }

  /** Addition of uint8_t values. */
  function Sum8(x: byte, y: byte): byte {
    (x as int + y as int) % 256
  }

  /** One step of _np_neuropil_bloom_add: the age gets its top bit, the count goes up as a uint8_t. */
  function Bumped(b: seq<byte>, p: nat): (b': seq<byte>)
    requires 2 * p + 1 < |b|
    ensures |b'| == |b|
    ensures forall q | 0 <= q && 2 * q + 1 < |b| :: Count(b', q) == if q == p then Sum8(Count(b, p), 1) else Count(b, q)
  {
    b[2 * p := if b[2 * p] < 128 then b[2 * p] + 128 else b[2 * p]][2 * p + 1 := Sum8(b[2 * p + 1], 1)]
  }

  lemma BumpedSupport(b: seq<byte>, p: nat)
    requires |b| == 2 * CELLS && p < CELLS && Count(b, p) < 255
    ensures Support(Bumped(b, p)) == Support(b) + {p}
  {
    var b' := Bumped(b, p);
    forall q | 0 <= q < CELLS ensures Count(b', q) > 0 <==> Count(b, q) > 0 || q == p {
    }
  }

  /** How often the first k words can have hit a cell: twice in a finished block. */
  function Hits(k: nat, p: nat): nat {
    if p / BLOCK_CELLS < k / 2 then 2 else if p / BLOCK_CELLS == k / 2 then k % 2 else 0
  }

  /** No cell counts more than twice the number of items. */
  ghost predicate Bounded(b: seq<byte>, items: nat) {
    |b| == 2 * CELLS && forall p | 0 <= p < CELLS :: Count(b, p) <= 2 * items
  }

  // ------------------------------------------------------------ the filter

  class Filter {
    const bits: array<byte>
    var free: nat

    ghost predicate Valid()
      reads this, bits
    {
      bits.Length == 2 * CELLS && free <= FREE_ITEMS && Bounded(bits[..], FREE_ITEMS - free)
    }

    function Contents(): set<nat>
      requires bits.Length == 2 * CELLS
      reads bits
    {
      Support(bits[..])
    }

    /** _np_neuropil_bloom_create */
    constructor ()
      ensures Valid() && fresh(bits) && free == FREE_ITEMS && Contents() == {}
    {
      bits := new byte[2 * CELLS](i => 0);
      free := FREE_ITEMS;
    }

    /** _np_neuropil_bloom_add. A filter without free items aborts. */
    method Add(id: Words) returns (ok: bool)
      requires Valid()
      modifies this, bits
      ensures Valid()
      ensures ok == (old(free) > 0)
      ensures ok ==> free == old(free) - 1 && Contents() == old(Contents()) + Positions(id)
      ensures !ok ==> free == old(free) && Contents() == old(Contents())
    {
      hide Position, Bumped, Count;
      if free == 0 {
        return false;
      }
      ghost var items, b0 := FREE_ITEMS - free, bits[..];
      for k := 0 to 8
        invariant free == old(free)
        invariant forall p | 0 <= p < CELLS :: Count(bits[..], p) <= 2 * items + Hits(k, p)
        invariant Support(bits[..]) == Support(b0) + PositionsUpTo(id, k)
      {
        var p := Position(id, k);
        ghost var b := bits[..];
        BumpArray(p);
        BumpedSupport(b, p);
        PositionsNext(id, k);
        HitsNext(b, items, k, p);
      }
      free := free - 1;
      return true;
    }

    /** _np_neuropil_bloom_union. False stands for the failed ASSERT on the number of items. */
    method Union(other: Filter) returns (ok: bool)
      requires Valid() && other.Valid() && other.bits != bits && other != this
      modifies this, bits
      ensures Valid()
      ensures ok == (old(free) + other.free >= FREE_ITEMS)
      ensures ok ==> free == old(free) + other.free - FREE_ITEMS && Contents() == old(Contents()) + other.Contents()
    {
      if (FREE_ITEMS - free) + (FREE_ITEMS - other.free) > FREE_ITEMS {
        return false;
      }
      ghost var b, c := bits[..], other.bits[..];
      for p := 0 to CELLS
        invariant free == old(free) && other.bits[..] == c
        invariant forall q | 0 <= q < p :: Count(bits[..], q) == Sum8(Count(b, q), Count(c, q))
        invariant forall q | p <= q < CELLS :: Count(bits[..], q) == Count(b, q)
      {
        var age := bits[2 * p] as int + other.bits[2 * p] as int;
        var count := Sum8(bits[2 * p + 1], other.bits[2 * p + 1]);
        SetCell(p, if age >= 255 then 255 else age, count);
      }
      UnionSupport(b, c, bits[..], FREE_ITEMS - free, FREE_ITEMS - other.free);
      free := free + other.free - FREE_ITEMS;
      return true;
    }

    /** _np_neuropil_bloom_intersect_ignore_age. False stands for the failed ASSERT. */
    method Intersect(other: Filter) returns (ok: bool)
      requires Valid() && other.Valid() && other.bits != bits && other != this
      modifies this, bits
      ensures Valid()
      ensures ok == (old(free) + other.free >= FREE_ITEMS)
      ensures ok ==> free == 0 && Contents() == old(Contents()) * other.Contents()
    {
      if other.free + free < FREE_ITEMS {
        return false;
      }
      ghost var b, c := bits[..], other.bits[..];
      for p := 0 to CELLS
        invariant free == old(free) && other.bits[..] == c
        invariant forall q | 0 <= q < p :: Count(bits[..], q) == CommonCount(Count(b, q), Count(c, q))
        invariant forall q | p <= q < CELLS :: Count(bits[..], q) == Count(b, q)
      {
        SetCell(p, bits[2 * p], CommonCount(bits[2 * p + 1], other.bits[2 * p + 1]));
      }
      IntersectSupport(b, c, bits[..], FREE_ITEMS - free, FREE_ITEMS - other.free);
      free := 0;
      return true;
    }

    /** _np_neuropil_bloom_cmp() == 0: the same cells count something. */
    method Same(other: Filter) returns (same: bool)
      requires bits.Length == 2 * CELLS && other.bits.Length == 2 * CELLS
      ensures same == (Contents() == other.Contents())
    {
      ghost var b, c := bits[..], other.bits[..];
      for p := 0 to CELLS
        invariant forall q | 0 <= q < p :: (Count(b, q) > 0) == (Count(c, q) > 0)
      {
        assert bits[2 * p + 1] == Count(b, p) && other.bits[2 * p + 1] == Count(c, p);
        if (bits[2 * p + 1] == 0 && other.bits[2 * p + 1] > 0) || (other.bits[2 * p + 1] == 0 && bits[2 * p + 1] > 0) {
          assert (p in Support(b)) != (p in Support(c));
          return false;
        }
      }
      assert Support(b) == Support(c);
      return true;
    }

    method SetCell(p: nat, age: byte, count: byte)
      requires bits.Length == 2 * CELLS && p < CELLS
      modifies bits
      ensures forall q | 0 <= q < CELLS :: Count(bits[..], q) == if q == p then count else old(Count(bits[..], q))
    {
      bits[2 * p] := age;
      bits[2 * p + 1] := count;
    }

    method BumpArray(p: nat)
      requires bits.Length == 2 * CELLS && p < CELLS
      modifies bits
      ensures bits[..] == Bumped(old(bits[..]), p)
    {
      var age, count := bits[2 * p], bits[2 * p + 1];
      bits[2 * p] := if age < 128 then age + 128 else age;
      bits[2 * p + 1] := Sum8(count, 1);
    }
  }

  lemma PositionsNext(id: Words, k: nat)
    requires k < 8
    ensures PositionsUpTo(id, k + 1) == PositionsUpTo(id, k) + {Position(id, k)}
  {
  }

  lemma HitsNext(b: seq<byte>, items: nat, k: nat, p: nat)
    requires |b| == 2 * CELLS && p < CELLS && p / BLOCK_CELLS == k / 2 && items < FREE_ITEMS
    requires forall q | 0 <= q < CELLS :: Count(b, q) <= 2 * items + Hits(k, q)
    ensures Count(b, p) < 255
    ensures forall q | 0 <= q < CELLS :: Count(Bumped(b, p), q) <= 2 * items + Hits(k + 1, q)
  {
    hide Bumped, Count;
    assert Count(b, p) <= 2 * items + Hits(k, p);
  }

  function CommonCount(x: byte, y: byte): byte {
    if x > 0 && y > 0 then Sum8(x, y) else 0
  }

  lemma UnionSupport(b: seq<byte>, c: seq<byte>, r: seq<byte>, n: nat, m: nat)
    requires Bounded(b, n) && Bounded(c, m) && n + m <= FREE_ITEMS && |r| == 2 * CELLS
    requires forall q | 0 <= q < CELLS :: Count(r, q) == Sum8(Count(b, q), Count(c, q))
    ensures Bounded(r, n + m) && Support(r) == Support(b) + Support(c)
  {
    hide Count;
  }

  lemma IntersectSupport(b: seq<byte>, c: seq<byte>, r: seq<byte>, n: nat, m: nat)
    requires Bounded(b, n) && Bounded(c, m) && n + m <= FREE_ITEMS && |r| == 2 * CELLS
    requires forall q | 0 <= q < CELLS :: Count(r, q) == CommonCount(Count(b, q), Count(c, q))
    ensures Bounded(r, FREE_ITEMS) && Support(r) == Support(b) * Support(c)
  {
    hide Count;
  }
}
