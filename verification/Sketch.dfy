/** The Count-Min Sketch: `depth` rows of `width` saturating counters. */
module Sketch {
  import opened Prelude

  datatype Entry = Entry(key: Text, count: u64)

  /** One hash function per row. */
  type Rows = (nat, Text) -> nat

  function Column(hash: Rows, width: nat, row: nat, key: Text): (c: nat)
    requires width > 0
    ensures c < width
  {
    hash(row, key) % width
  }

  function Saturated(n: nat): u64 {
    if n <= U64_MAX then n else U64_MAX
  }

  /** All counts added to keys that share column `column` of `row`. */
  function ColumnSum(hash: Rows, width: nat, adds: seq<Entry>, row: nat, column: nat): nat
    requires width > 0
  {
    if adds == [] then 0
    else
      var last := adds[|adds| - 1];
      ColumnSum(hash, width, adds[..|adds| - 1], row, column)
      + if Column(hash, width, row, last.key) == column then last.count else 0
  }

  function TrueCount(adds: seq<Entry>, key: Text): nat {
    if adds == [] then 0
    else
      var last := adds[|adds| - 1];
      TrueCount(adds[..|adds| - 1], key) + if last.key == key then last.count else 0
  }

  function TotalCount(adds: seq<Entry>): nat {
    if adds == [] then 0 else TotalCount(adds[..|adds| - 1]) + adds[|adds| - 1].count
  }

  /** What `row` says of `key`. */
  function RowEstimate(hash: Rows, width: nat, adds: seq<Entry>, row: nat, key: Text): u64
    requires width > 0
  {
    Saturated(ColumnSum(hash, width, adds, row, Column(hash, width, row, key)))
  }

  /** `r` is the least of what the rows say. */
  ghost predicate IsEstimate(r: u64, hash: Rows, depth: nat, width: nat, adds: seq<Entry>, key: Text)
    requires width > 0
  {
    && (exists row: nat :: row < depth && r == RowEstimate(hash, width, adds, row, key))
    && forall row: nat :: row < depth ==> r <= RowEstimate(hash, width, adds, row, key)
  }

  lemma {:induction false} SumsEnclose(hash: Rows, width: nat, adds: seq<Entry>, row: nat, key: Text)
    requires width > 0
    ensures TrueCount(adds, key) <= ColumnSum(hash, width, adds, row, Column(hash, width, row, key)) <= TotalCount(adds)
  {
    if adds != [] {
      SumsEnclose(hash, width, adds[..|adds| - 1], row, key);
    }
  }

  /** One-sided error: never below the saturated true count, never above the saturated total. */
  lemma EstimateBounds(r: u64, hash: Rows, depth: nat, width: nat, adds: seq<Entry>, key: Text)
    requires width > 0 && IsEstimate(r, hash, depth, width, adds, key)
    ensures Saturated(TrueCount(adds, key)) <= r <= Saturated(TotalCount(adds))
  {
    var row: nat :| row < depth && r == RowEstimate(hash, width, adds, row, key);
    SumsEnclose(hash, width, adds, row, key);
  }

  /** The counts of all keys that the hash of `row` puts where it puts `key`. */
  function Colliding(hash: Rows, width: nat, adds: seq<Entry>, row: nat, key: Text): nat
    requires width > 0
  {
    if adds == [] then 0
    else
      var last := adds[|adds| - 1];
      Colliding(hash, width, adds[..|adds| - 1], row, key)
      + if hash(row, last.key) % width == hash(row, key) % width then last.count else 0
  }

  lemma {:induction false} SumOfColliding(hash: Rows, width: nat, adds: seq<Entry>, row: nat, key: Text)
    requires width > 0
    ensures ColumnSum(hash, width, adds, row, Column(hash, width, row, key)) == Colliding(hash, width, adds, row, key)
  {
    if adds != [] {
      SumOfColliding(hash, width, adds[..|adds| - 1], row, key);
    }
  }

  /** An estimate is the least, over the rows, of the saturated counts that collide with the key. */
  lemma EstimateIs(r: u64, hash: Rows, depth: nat, width: nat, adds: seq<Entry>, key: Text)
    requires width > 0 && IsEstimate(r, hash, depth, width, adds, key)
    ensures forall row: nat :: row < depth ==> r <= Saturated(Colliding(hash, width, adds, row, key))
    ensures exists row: nat :: row < depth && r == Saturated(Colliding(hash, width, adds, row, key))
  {
    hide Column, Saturated;
    forall row: nat
      ensures RowEstimate(hash, width, adds, row, key) == Saturated(Colliding(hash, width, adds, row, key))
    {
      SumOfColliding(hash, width, adds, row, key);
    }
  }

  lemma {:induction false} NoneCollides(hash: Rows, width: nat, adds: seq<Entry>, row: nat, key: Text)
    requires width > 0
    requires forall i :: 0 <= i < |adds| && adds[i].key != key ==> hash(row, adds[i].key) % width != hash(row, key) % width
    ensures Colliding(hash, width, adds, row, key) == TrueCount(adds, key)
  {
    if adds != [] {
      NoneCollides(hash, width, adds[..|adds| - 1], row, key);
    }
  }

  /** One row in which nothing else collides with the key is enough for its estimate to be exact. */
  lemma LoneKeyIsExact(r: u64, hash: Rows, depth: nat, width: nat, adds: seq<Entry>, key: Text, row: nat)
    requires width > 0 && IsEstimate(r, hash, depth, width, adds, key) && row < depth
    requires forall i :: 0 <= i < |adds| && adds[i].key != key ==> hash(row, adds[i].key) % width != hash(row, key) % width
    ensures r == Saturated(TrueCount(adds, key))
  {
    EstimateIs(r, hash, depth, width, adds, key);
    NoneCollides(hash, width, adds, row, key);
    EstimateBounds(r, hash, depth, width, adds, key);
  }

  // ---- Order does not matter ----

  lemma {:induction false} SumWithout(hash: Rows, width: nat, adds: seq<Entry>, i: nat, row: nat, column: nat)
    requires width > 0 && i < |adds|
    ensures ColumnSum(hash, width, adds, row, column)
         == ColumnSum(hash, width, adds[..i] + adds[i + 1..], row, column)
            + if Column(hash, width, row, adds[i].key) == column then adds[i].count else 0
  {
    var n := |adds| - 1;
    if i == n {
      assert adds[..i] + adds[i + 1..] == adds[..n];
    } else {
      SumWithout(hash, width, adds[..n], i, row, column);
      var rest := adds[..i] + adds[i + 1..];
      assert rest[..|rest| - 1] == adds[..n][..i] + adds[..n][i + 1..];
      assert rest[|rest| - 1] == adds[n];
    }
  }

  lemma WithoutOne(adds: seq<Entry>, i: nat)
    requires i < |adds|
    ensures multiset(adds[..i] + adds[i + 1..]) == multiset(adds) - multiset{adds[i]}
  {
    assert adds == adds[..i] + ([adds[i]] + adds[i + 1..]);
  }

  lemma {:induction false} SumsOfSameAdds(hash: Rows, width: nat, a: seq<Entry>, b: seq<Entry>, row: nat, column: nat)
    requires width > 0 && multiset(a) == multiset(b)
    ensures ColumnSum(hash, width, a, row, column) == ColumnSum(hash, width, b, row, column)
    decreases |a|
  {
    hide Column;
    if a == [] {
      assert |multiset(b)| == 0;
    } else {
      var last := a[|a| - 1];
      var init := a[..|a| - 1];
      assert a == init + [last];
      assert last in multiset(a);
      assert last in b;
      var i :| 0 <= i < |b| && b[i] == last;
      WithoutOne(b, i);
      WithoutOne(a, |a| - 1);
      assert init + a[|a|..] == init;
      SumsOfSameAdds(hash, width, init, b[..i] + b[i + 1..], row, column);
      SumWithout(hash, width, b, i, row, column);
    }
  }

  /** The same adds in another order give the same estimate. */
  lemma OrderIndependent(r: u64, q: u64, hash: Rows, depth: nat, width: nat, a: seq<Entry>, b: seq<Entry>, key: Text)
    requires width > 0 && multiset(a) == multiset(b)
    requires IsEstimate(r, hash, depth, width, a, key) && IsEstimate(q, hash, depth, width, b, key)
    ensures r == q
  {
    forall row: nat
      ensures RowEstimate(hash, width, a, row, key) == RowEstimate(hash, width, b, row, key)
    {
      SumsOfSameAdds(hash, width, a, b, row, Column(hash, width, row, key));
    }
  }

  // ---- The sketch ----

  lemma OneAdd(cell: u64, count: u64, sum: nat)
    requires cell == Saturated(sum)
    ensures SatAdd(cell, count) == Saturated(sum + count)
  {
  }

  function Cell(width: nat, row: nat, column: nat): nat {
    row * width + column
  }

  lemma CellInRange(depth: nat, width: nat, row: nat, column: nat)
    requires row < depth && column < width
    ensures Cell(width, row, column) < depth * width
  {
    assert (row + 1) * width <= depth * width;
    assert (row + 1) * width == row * width + width;
  }

  lemma CellsAreApart(width: nat, row: nat, column: nat, row': nat, column': nat)
    requires column < width && column' < width
    requires Cell(width, row, column) == Cell(width, row', column')
    ensures row == row' && column == column'
  {
    RowsAgree(width, row, column, row', column');
    RowsAgree(width, row', column', row, column);
  }

  lemma RowsAgree(width: nat, row: nat, column: nat, row': nat, column': nat)
    requires column' < width
    requires row * width + column == row' * width + column'
    ensures row <= row'
  {
    assert row * width < (row' + 1) * width;
  }

  class CountMinSketch {
    const hash: Rows
    const depth: nat
    const width: nat
    const counters: array<u64>
    ghost var adds: seq<Entry>

    ghost predicate Shaped() {
      && depth > 0 && width > 0 && counters.Length == depth * width
      && forall row: nat, column: nat :: row < depth && column < width ==> Cell(width, row, column) < counters.Length
    }

    /** Rows before `done` have counted all of `adds`, the others all of `was`. */
    ghost predicate Counted(done: nat, adds: seq<Entry>, was: seq<Entry>)
      requires Shaped()
      reads counters
    {
      forall row: nat, column: nat :: row < depth && column < width ==>
        counters[Cell(width, row, column)] == Saturated(ColumnSum(hash, width, if row < done then adds else was, row, column))
    }

    ghost predicate Valid()
      reads this, counters
    {
      Shaped() && Counted(depth, adds, adds)
    }

    constructor (hash: Rows, depth: nat, width: nat)
      requires depth > 0 && width > 0
      ensures Valid() && fresh(counters) && adds == []
      ensures this.hash == hash && this.depth == depth && this.width == width
    {
      hide Cell;
      this.hash := hash;
      this.depth := depth;
      this.width := width;
      counters := new u64[depth * width](_ => 0);
      adds := [];
      new;
      forall row: nat, column: nat | row < depth && column < width
        ensures Cell(width, row, column) < counters.Length
      {
        CellInRange(depth, width, row, column);
      }
    }

    method Add(key: Text, count: u64)
      requires Valid()
      modifies this`adds, counters
      ensures Valid() && adds == old(adds) + [Entry(key, count)]
    {
      hide Cell, Column;
      ghost var was, now := adds, adds + [Entry(key, count)];
      assert now[..|was|] == was;
      for row := 0 to depth
        invariant Counted(row, now, was)
      {
        var column := Column(hash, width, row, key);
        var cell := Cell(width, row, column);
        ghost var before := counters[..];
        counters[cell] := SatAdd(counters[cell], count);
        forall r: nat, c: nat | r < depth && c < width && Cell(width, r, c) == cell
          ensures r == row && c == column
        {
          CellsAreApart(width, r, c, row, column);
        }
        assert forall r: nat, c: nat :: r < depth && c < width && (r != row || c != column) ==>
                 counters[Cell(width, r, c)] == before[Cell(width, r, c)];
        OneAdd(before[cell], count, ColumnSum(hash, width, was, row, column));
      }
      adds := now;
    }

    method Estimate(key: Text) returns (r: u64)
      requires Valid()
      ensures IsEstimate(r, hash, depth, width, adds, key)
    {
      hide Column, ColumnSum;
      r := counters[Cell(width, 0, Column(hash, width, 0, key))];
      assert r == RowEstimate(hash, width, adds, 0, key);
      for row := 1 to depth
        invariant exists seen: nat :: seen < row && r == RowEstimate(hash, width, adds, seen, key)
        invariant forall seen: nat :: seen < row ==> r <= RowEstimate(hash, width, adds, seen, key)
      {
        var count := counters[Cell(width, row, Column(hash, width, row, key))];
        assert count == RowEstimate(hash, width, adds, row, key);
        if count < r {
          r := count;
        }
      }
    }
  }
}
