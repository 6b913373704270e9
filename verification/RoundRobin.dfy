/** How requests without a key are spread over the shards. */
module RoundRobin {
  import opened Prelude
  import opened Http
  import G = Gateway
  import opened Router

  const CYCLE: nat := 0x1_0000_0000_0000_0000

  function Keyless(events: seq<Event>): nat {
    if events == [] then 0
    else (if events[0].Arrive? && G.KeyOf(events[0].request).None? then 1 else 0) + Keyless(events[1..])
  }

  lemma StepMovesCursor(w: World, s: System, ev: Event)
    requires Placed(s)
    ensures Step(w, s, ev).cursor == (s.cursor + if ev.Arrive? && G.KeyOf(ev.request).None? then 1 else 0) % CYCLE
  {
    hide Find, G.BeginPhase, G.AfterBegin, G.AfterComplete, Route;
  }

  /** Whatever else happens, each keyless request takes the next number, up to 2^64 and round again. */
  lemma {:induction false} CursorCounts(w: World, s: System, events: seq<Event>)
    requires Placed(s)
    ensures Run(w, s, events).cursor == (s.cursor + Keyless(events)) % CYCLE
    decreases |events|
  {
    hide Step, G.KeyOf;
    if events != [] {
      StepMovesCursor(w, s, events[0]);
      CursorCounts(w, Step(w, s, events[0]), events[1..]);
    }
  }

  /** The shard of the `i`-th keyless request from a given cursor on. */
  function ShardAt(cursor: nat, i: nat, n: nat): (shard: nat)
    requires n > 0
    ensures shard < n
  {
    (cursor + i) % CYCLE % n
  }

  lemma RoutedInTurn(w: World, s: System, events: seq<Event>, r: Request)
    requires Placed(s) && G.KeyOf(r).None?
    ensures Route(w, Run(w, s, events), r) == ShardAt(s.cursor, Keyless(events), |s.shards|)
  {
    hide G.KeyOf, Run;
    CursorCounts(w, s, events);
  }

  predicate AllDifferent(cursor: nat, n: nat)
    requires n > 0
  {
    forall i, j :: 0 <= i < j < n ==> ShardAt(cursor, i, n) != ShardAt(cursor, j, n)
  }

  function Mod(a: nat, n: nat): (r: nat)
    requires n > 0
    ensures r < n
  {
    a % n
  }

  lemma ModParts(a: nat, n: nat)
    requires n > 0
    ensures exists q: nat :: a == n * q + Mod(a, n)
  {
    assert a == n * (a / n) + a % n;
  }

  lemma AtLeastOnce(n: nat, k: nat)
    requires k >= 1
    ensures n * k >= n
  {
  }

  lemma MulOrder(n: nat, x: nat, y: nat, d: int)
    requires n * x == n * y + d && 0 - n < d < n
    ensures x == y && d == 0
  {
    if x > y {
      Distributes(n, y, x - y);
      AtLeastOnce(n, x - y);
    } else if x < y {
      Distributes(n, x, y - x);
      AtLeastOnce(n, y - x);
    }
  }

  lemma Distributes(n: nat, x: nat, k: nat)
    ensures n * (x + k) == n * x + n * k
  {
  }

  /** Numbers closer than `n` have the same remainder only if they are equal. */
  lemma CloseDiffer(a: nat, b: nat, n: nat)
    requires a < b < a + n
    ensures Mod(a, n) != Mod(b, n)
  {
    hide Mod;
    ModParts(a, n);
    ModParts(b, n);
    var p: nat :| a == n * p + Mod(a, n);
    var q: nat :| b == n * q + Mod(b, n);
    if Mod(a, n) == Mod(b, n) {
      MulOrder(n, q, p, b - a);
    }
  }

  lemma ModShift(a: nat, k: nat, n: nat)
    requires n > 0
    ensures Mod(a + n * k, n) == Mod(a, n)
  {
    hide Mod;
    ModParts(a, n);
    ModParts(a + n * k, n);
    var p: nat :| a == n * p + Mod(a, n);
    var q: nat :| a + n * k == n * q + Mod(a + n * k, n);
    assert n * q == n * (p + k) + (Mod(a, n) - Mod(a + n * k, n)) by {
      assert n * (p + k) == n * p + n * k;
    }
    MulOrder(n, q, p + k, Mod(a, n) - Mod(a + n * k, n));
  }

  lemma ShardAtIs(cursor: u64, i: nat, n: nat)
    requires n > 0 && i < n <= CYCLE
    ensures ShardAt(cursor, i, n) == if cursor + i < CYCLE then Mod(cursor + i, n) else Mod(cursor + i - CYCLE, n)
  {
  }

  /** Before the counter comes round, or when the number of shards divides 2^64. */
  lemma DifferentShards(cursor: u64, n: nat, i: nat, j: nat)
    requires 0 < n <= CYCLE && i < j < n
    requires cursor + n <= CYCLE || Mod(CYCLE, n) == 0
    ensures ShardAt(cursor, i, n) != ShardAt(cursor, j, n)
  {
    hide Mod, ShardAt;
    ShardAtIs(cursor, i, n);
    ShardAtIs(cursor, j, n);
    CloseDiffer(cursor + i, cursor + j, n);
    if cursor + i >= CYCLE {
      CloseDiffer(cursor + i - CYCLE, cursor + j - CYCLE, n);
    } else if cursor + j >= CYCLE {
      ModParts(CYCLE, n);
      var k: nat :| CYCLE == n * k + Mod(CYCLE, n);
      ModShift(cursor + j - CYCLE, k, n);
    }
  }

  /** Otherwise the requests on the two sides of the turn collide. */
  lemma SameShard(cursor: u64, n: nat)
    requires 0 < n <= CYCLE && cursor + n > CYCLE && Mod(CYCLE, n) != 0
    ensures !AllDifferent(cursor, n)
  {
    hide Mod, ShardAt;
    var before, d := CYCLE - cursor, Mod(CYCLE, n);
    var i := if before > d then before - d else 0;
    var j := i + d;
    assert 0 <= i < before <= j < n;
    ShardAtIs(cursor, i, n);
    ShardAtIs(cursor, j, n);
    ModParts(CYCLE, n);
    var k: nat :| CYCLE == n * k + d;
    ModShift(cursor + j - CYCLE, k, n);
    assert cursor + i == (cursor + j - CYCLE) + n * k;
    assert ShardAt(cursor, i, n) == ShardAt(cursor, j, n);
  }

  /** As many keyless requests as there are shards go to different shards, if and only if the counter
      does not come round among them or the number of shards divides 2^64. */
  lemma RoundRobinIff(cursor: u64, n: nat)
    requires 0 < n <= CYCLE
    ensures AllDifferent(cursor, n) <==> cursor + n <= CYCLE || CYCLE % n == 0
  {
    assert Mod(CYCLE, n) == CYCLE % n;
    hide Mod, ShardAt;
    if cursor + n <= CYCLE || Mod(CYCLE, n) == 0 {
      forall i, j | 0 <= i < j < n
        ensures ShardAt(cursor, i, n) != ShardAt(cursor, j, n)
      {
        DifferentShards(cursor, n, i, j);
      }
    } else {
      SameShard(cursor, n);
    }
  }
}
