/** Fencing over whole strict-mode runs: begins, completions, prunes and crashes in any order. */
module Fencing {
  import opened Prelude
  import opened Keys
  import opened Engine
  import opened Operations

  /** The engine, and for each key the fences handed out for it so far, oldest first. */
  datatype Trace = Trace(engine: State, issued: map<Text, seq<nat>>)

  function Issued(t: Trace, key: Text): seq<nat> {
    if key in t.issued then t.issued[key] else []
  }

  predicate OpStarts(cfg: Config, t: Trace, op: Op) {
    op.Begin? && Starts(cfg, t.engine.index, op.key, op.fp, op.now)
  }

  ghost function Step(cfg: Config, t: Trace, op: Op): Trace {
    Trace(After(cfg, t.engine, op),
          if OpStarts(cfg, t, op) then t.issued[op.key := Issued(t, op.key) + [t.engine.next]] else t.issued)
  }

  ghost function Run(cfg: Config, t: Trace, ops: seq<Op>): Trace
    decreases |ops|
  {
    if ops == [] then t else Run(cfg, Step(cfg, t, ops[0]), ops[1..])
  }

  /** An engine just started over a store, whose leases may still be held by workers of an earlier life. */
  ghost function Opened(index: Index): Trace {
    Trace(Seeded(index), map key | key in index && index[key].InProgress? :: [index[key].fence])
  }

  predicate Increasing(fences: seq<nat>) {
    forall i, j :: 0 <= i < j < |fences| ==> fences[i] < fences[j]
  }

  ghost predicate AllIncreasing(t: Trace) {
    forall key :: key in t.issued ==> Increasing(t.issued[key])
  }

  /** A lease in progress carries the newest fence of its key, and the counter is past it. */
  ghost predicate Inv(t: Trace) {
    && Fenced(t.engine)
    && (forall key :: key in t.engine.index && t.engine.index[key].InProgress? ==>
          Issued(t, key) != [] && t.engine.index[key].fence == Issued(t, key)[|Issued(t, key)| - 1])
  }

  lemma OpenedInv(index: Index)
    ensures Inv(Opened(index)) && AllIncreasing(Opened(index))
  {
  }

  lemma StepInv(cfg: Config, t: Trace, op: Op)
    requires Inv(t)
    ensures Inv(Step(cfg, t, op))
  {
  }

  /** A start of a key nobody holds, at a moment when the counter has not passed the key's last fence. */
  predicate Reissues(cfg: Config, t: Trace, op: Op) {
    && OpStarts(cfg, t, op)
    && !(op.key in t.engine.index && t.engine.index[op.key].InProgress?)
    && exists i :: 0 <= i < |Issued(t, op.key)| && Issued(t, op.key)[i] >= t.engine.next
  }

  ghost predicate NeverReissues(cfg: Config, t: Trace, ops: seq<Op>)
    decreases |ops|
  {
    ops == [] || (!Reissues(cfg, t, ops[0]) && NeverReissues(cfg, Step(cfg, t, ops[0]), ops[1..]))
  }

  lemma StepIncreasesIff(cfg: Config, t: Trace, op: Op)
    requires Inv(t) && AllIncreasing(t)
    ensures AllIncreasing(Step(cfg, t, op)) <==> !Reissues(cfg, t, op)
  {
    var u := Step(cfg, t, op);
    if OpStarts(cfg, t, op) {
      var fences, n := Issued(t, op.key), |Issued(t, op.key)|;
      assert u.issued[op.key] == fences + [t.engine.next];
      assert forall i :: 0 <= i < n ==> u.issued[op.key][i] == fences[i];
      if Reissues(cfg, t, op) {
        var i :| 0 <= i < n && fences[i] >= t.engine.next;
        assert u.issued[op.key][i] >= u.issued[op.key][n];
      } else {
        assert forall i :: 0 <= i < n ==> fences[i] <= fences[n - 1];
        assert Increasing(u.issued[op.key]);
      }
    } else {
      assert u.issued == t.issued;
    }
  }

  lemma {:induction false} DisorderStays(cfg: Config, t: Trace, ops: seq<Op>)
    requires !AllIncreasing(t)
    ensures !AllIncreasing(Run(cfg, t, ops))
    decreases |ops|
  {
    if ops != [] {
      var u := Step(cfg, t, ops[0]);
      var key :| key in t.issued && !Increasing(t.issued[key]);
      var i, j :| 0 <= i < j < |t.issued[key]| && t.issued[key][i] >= t.issued[key][j];
      assert key in u.issued && u.issued[key][i] == t.issued[key][i] && u.issued[key][j] == t.issued[key][j];
      DisorderStays(cfg, u, ops[1..]);
    }
  }

  /** In every run, with any mix of crashes, recycling and pruning, the fences of successive run tokens
      strictly increase for each key if and only if no start finds the counter behind its key. */
  lemma {:induction false} FencesIncreaseIff(cfg: Config, t: Trace, ops: seq<Op>)
    requires Inv(t) && AllIncreasing(t)
    ensures AllIncreasing(Run(cfg, t, ops)) <==> NeverReissues(cfg, t, ops)
    decreases |ops|
  {
    if ops != [] {
      var u := Step(cfg, t, ops[0]);
      StepInv(cfg, t, ops[0]);
      StepIncreasesIff(cfg, t, ops[0]);
      if AllIncreasing(u) {
        FencesIncreaseIff(cfg, u, ops[1..]);
      } else {
        DisorderStays(cfg, u, ops[1..]);
      }
    }
  }

  lemma {:induction false} RunInv(cfg: Config, t: Trace, ops: seq<Op>)
    requires Inv(t)
    ensures Inv(Run(cfg, t, ops))
    decreases |ops|
  {
    if ops != [] {
      StepInv(cfg, t, ops[0]);
      RunInv(cfg, Step(cfg, t, ops[0]), ops[1..]);
    }
  }

  /** The `i`-th token handed out for a key is accepted only while it is the newest, and the newest is
      accepted as long as the key has neither completed nor gone; each refusal says which it was. */
  lemma OnlyNewestCompletes(cfg: Config, index: Index, ops: seq<Op>, key: Text, i: nat)
    requires var t := Run(cfg, Opened(index), ops); i < |Issued(t, key)| && AllIncreasing(t)
    ensures var t := Run(cfg, Opened(index), ops);
            var answer := Engine.Complete(t.engine, Token(key, Issued(t, key)[i]));
            && (answer.Committed? <==> i == |Issued(t, key)| - 1 && key in t.engine.index && t.engine.index[key].InProgress?)
            && (answer.StaleFence? <==> i < |Issued(t, key)| - 1 && key in t.engine.index && t.engine.index[key].InProgress?)
            && (answer.AlreadyCompleted? <==> key in t.engine.index && t.engine.index[key].Completed?)
            && (answer.Unknown? <==> key !in t.engine.index)
  {
    OpenedInv(index);
    RunInv(cfg, Opened(index), ops);
    var fences := Issued(Run(cfg, Opened(index), ops), key);
    assert Increasing(fences);
  }

  // ---- Two kinds of run in which no fence comes back ----

  /** No start of a completed key, and no prune. */
  ghost predicate NoRecycling(cfg: Config, t: Trace, ops: seq<Op>)
    decreases |ops|
  {
    ops == [] || (
      && !ops[0].Prune?
      && (OpStarts(cfg, t, ops[0]) && ops[0].key in t.engine.index ==> t.engine.index[ops[0].key].InProgress?)
      && NoRecycling(cfg, Step(cfg, t, ops[0]), ops[1..]))
  }

  ghost predicate Remembered(t: Trace) {
    forall key :: key in t.issued ==> key in t.engine.index
  }

  lemma {:induction false} WithoutRecycling(cfg: Config, t: Trace, ops: seq<Op>)
    requires Inv(t) && Remembered(t) && NoRecycling(cfg, t, ops)
    ensures NeverReissues(cfg, t, ops)
    decreases |ops|
  {
    if ops != [] {
      StepInv(cfg, t, ops[0]);
      WithoutRecycling(cfg, Step(cfg, t, ops[0]), ops[1..]);
    }
  }

  predicate NoCrash(ops: seq<Op>) {
    forall i :: 0 <= i < |ops| ==> !ops[i].Crash?
  }

  ghost predicate Ahead(t: Trace) {
    forall key, i :: key in t.issued && 0 <= i < |t.issued[key]| ==> t.issued[key][i] < t.engine.next
  }

  lemma {:induction false} WithoutCrash(cfg: Config, t: Trace, ops: seq<Op>)
    requires Ahead(t) && NoCrash(ops)
    ensures NeverReissues(cfg, t, ops)
    decreases |ops|
  {
    if ops != [] {
      var u := Step(cfg, t, ops[0]);
      assert forall key, i :: key in u.issued && 0 <= i < |u.issued[key]| ==>
        u.issued[key][i] == t.engine.next || (key in t.issued && i < |t.issued[key]| && u.issued[key][i] == t.issued[key][i]);
      WithoutCrash(cfg, u, ops[1..]);
    }
  }

  /** Strict-mode runs with crashes and takeovers but no recycling or pruning, and crash-free runs even
      with both: the fences of each key strictly increase. */
  lemma FencesIncrease(cfg: Config, index: Index, ops: seq<Op>)
    requires NoRecycling(cfg, Opened(index), ops) || NoCrash(ops)
    ensures AllIncreasing(Run(cfg, Opened(index), ops))
  {
    var t := Opened(index);
    OpenedInv(index);
    if NoCrash(ops) {
      WithoutCrash(cfg, t, ops);
    } else {
      WithoutRecycling(cfg, t, ops);
    }
    FencesIncreaseIff(cfg, t, ops);
  }

  // ---- When a restart is safe ----

  ghost predicate Held(t: Trace, key: Text) {
    key in t.engine.index && t.engine.index[key].InProgress?
  }

  /** Every key that is not in progress was last handed out a fence that some key in progress reaches.
      The store and the tokens handed out show this before the restart. */
  ghost predicate SafeToRestart(t: Trace) {
    forall key :: key in t.issued && t.issued[key] != [] && !Held(t, key) ==>
      t.issued[key][|t.issued[key]| - 1] <= MaxFence(t.engine.index)
  }

  lemma SafeRestartIsAhead(cfg: Config, t: Trace)
    requires Inv(t) && AllIncreasing(t) && SafeToRestart(t)
    ensures Ahead(Step(cfg, t, Crash))
  {
    forall key, i | key in t.issued && 0 <= i < |t.issued[key]|
      ensures t.issued[key][i] <= MaxFence(t.engine.index)
    {
      var fences := t.issued[key];
      assert Increasing(fences);
      assert fences[i] <= fences[|fences| - 1];
      if Held(t, key) {
        assert t.engine.index[key].fence == fences[|fences| - 1];
      }
    }
  }

  /** At the end of time any key nobody holds can be started. */
  lemma UnsafeRestartReissues(cfg: Config, t: Trace, key: Text, fp: Digest)
    requires key in t.issued && t.issued[key] != [] && !Held(t, key)
    requires t.issued[key][|t.issued[key]| - 1] > MaxFence(t.engine.index)
    ensures !AllIncreasing(Run(cfg, Step(cfg, t, Crash), [Begin(key, fp, U64_MAX)]))
  {
    var u, op := Step(cfg, t, Crash), Begin(key, fp, U64_MAX);
    var fences, n := t.issued[key], |t.issued[key]|;
    assert OpStarts(cfg, u, op);
    var v := Step(cfg, u, op);
    assert v.issued[key] == fences + [u.engine.next];
    assert v.issued[key][n - 1] >= v.issued[key][n];
    assert [op][1..] == [];
    assert Run(cfg, u, [op]) == v;
  }

  /** After a restart every continuation without another one keeps the fences of each key increasing if
      and only if the restart is safe. */
  lemma RestartIff(cfg: Config, t: Trace)
    requires Inv(t) && AllIncreasing(t)
    ensures (forall ops :: NoCrash(ops) ==> AllIncreasing(Run(cfg, Step(cfg, t, Crash), ops))) <==> SafeToRestart(t)
  {
    hide Run, Step, AllIncreasing, Inv;
    var u := Step(cfg, t, Crash);
    if SafeToRestart(t) {
      SafeRestartIsAhead(cfg, t);
      StepInv(cfg, t, Crash);
      SameFences(cfg, t);
      forall ops | NoCrash(ops)
        ensures AllIncreasing(Run(cfg, u, ops))
      {
        WithoutCrash(cfg, u, ops);
        FencesIncreaseIff(cfg, u, ops);
      }
    } else {
      var key :| key in t.issued && t.issued[key] != [] && !Held(t, key)
                 && t.issued[key][|t.issued[key]| - 1] > MaxFence(t.engine.index);
      var fp: Digest :| true;
      UnsafeRestartReissues(cfg, t, key, fp);
      assert NoCrash([Begin(key, fp, U64_MAX)]);
    }
  }

  lemma SameFences(cfg: Config, t: Trace)
    requires AllIncreasing(t)
    ensures AllIncreasing(Step(cfg, t, Crash))
  {
  }

  // ---- Why one of the two is needed ----

  /** A key is taken over and completed, the process restarts, and the key is recycled after its TTL. */
  function Recycled(key: Text, fp: Digest, outcome: CachedOutcome): seq<Op> {
    [Begin(key, fp, 0), Begin(key, fp, 1000), Complete(Token(key, 2), outcome, 1000), Crash, Begin(key, fp, 11_000)]
  }

  /** The recycled run is handed fence 1 again, so the first worker's stale token commits. */
  lemma RecyclingAcrossCrashReissues(key: Text, fp: Digest, outcome: CachedOutcome)
    ensures var t := Run(Config(1000, 10_000), Opened(map[]), Recycled(key, fp, outcome));
            && Issued(t, key) == [1, 2, 1]
            && Engine.Complete(t.engine, Token(key, Issued(t, key)[0])).Committed?
  {
    var cfg, ops := Config(1000, 10_000), Recycled(key, fp, outcome);
    var t0 := Opened(map[]);
    assert LiveFences(map[]) == {};
    assert t0 == Trace(State(map[], 1), map[]);
    var t1 := Step(cfg, t0, ops[0]);
    assert [] + [1] == [1] && [1] + [2] == [1, 2] && [1, 2] + [1] == [1, 2, 1];
    assert t1.issued[key] == [1] && t1.engine.index[key] == InProgress(1, fp, 1000);
    assert t1 == Trace(State(map[key := InProgress(1, fp, 1000)], 2), map[key := [1]]);
    var t2 := Step(cfg, t1, ops[1]);
    assert t2.issued[key] == [1, 2] && t2.engine.index[key] == InProgress(2, fp, 2000);
    assert t2 == Trace(State(map[key := InProgress(2, fp, 2000)], 3), map[key := [1, 2]]);
    var t3 := Step(cfg, t2, ops[2]);
    var done := map[key := Completed(fp, outcome, 1000)];
    assert t3 == Trace(State(done, 3), map[key := [1, 2]]);
    var t4 := Step(cfg, t3, ops[3]);
    assert LiveFences(done) == {};
    assert t4 == Trace(State(done, 1), map[key := [1, 2]]);
    var t5 := Step(cfg, t4, ops[4]);
    assert t5.issued[key] == [1, 2, 1];
    assert t5.issued == map[key := [1, 2, 1]];
    RunSteps(cfg, t0, t1, t2, t3, t4, t5, ops);
  }

  lemma RunSteps(cfg: Config, t0: Trace, t1: Trace, t2: Trace, t3: Trace, t4: Trace, t5: Trace, ops: seq<Op>)
    requires |ops| == 5
    requires t1 == Step(cfg, t0, ops[0]) && t2 == Step(cfg, t1, ops[1]) && t3 == Step(cfg, t2, ops[2])
    requires t4 == Step(cfg, t3, ops[3]) && t5 == Step(cfg, t4, ops[4])
    ensures Run(cfg, t0, ops) == t5
  {
    hide Step;
    assert Run(cfg, t5, ops[5..]) == t5;
    assert ops[4..][1..] == ops[5..] && Run(cfg, t4, ops[4..]) == t5;
    assert ops[3..][1..] == ops[4..] && Run(cfg, t3, ops[3..]) == t5;
    assert ops[2..][1..] == ops[3..] && Run(cfg, t2, ops[2..]) == t5;
    assert ops[1..][1..] == ops[2..] && Run(cfg, t1, ops[1..]) == t5;
  }
}
