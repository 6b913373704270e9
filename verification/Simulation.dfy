/** The fault-injection simulator as a transition system: workers that outlive the gateway, lease
    takeovers, flushes, clock jumps and crashes, with the simulator's own assertions as oracles. */
module Simulation {
  import opened Prelude
  import opened Keys
  import E = Engine

  datatype Mode = Strict | GroupCommit

  /** A worker holding a run token, with the outcome it means to commit and the request it served. */
  datatype Worker = Worker(token: E.Token, outcome: CachedOutcome, fp: Digest)

  /** `disk` is what a crash recovers. The last four fields are the oracles' memory. */
  datatype Sim = Sim(
    engine: E.State,
    disk: Index,
    now: u64,
    inflight: seq<Worker>,
    committed: map<Text, CachedOutcome>,
    durable: map<Text, CachedOutcome>,
    committedFp: map<Text, Digest>,
    completes: map<Text, nat>)

  datatype Action =
    | Begin(key: Text, fp: Digest, outcome: CachedOutcome)
    | Complete(which: nat)
    | Flush
    | Advance(jump: nat)
    | Crash

  /** `requests` says which requests the workers send; `fallback` is the fingerprint the recovery
      oracle tries for a key it has none for. */
  datatype World = World(mode: Mode, cfg: E.Config, requests: (Text, Digest) -> bool, fallback: Text -> Digest)

  /** No key is used with two different requests. */
  ghost predicate OneFingerprintPerKey(w: World) {
    forall key, a, b :: w.requests(key, a) && w.requests(key, b) ==> a == b
  }

  ghost function Usual(w: World, key: Text): (fp: Digest)
    ensures OneFingerprintPerKey(w) ==> forall a :: w.requests(key, a) ==> a == fp
  {
    if exists fp :: w.requests(key, fp) then
      var fp :| w.requests(key, fp);
      fp
    else w.fallback(key)
  }

  const NEW: Sim := Sim(E.State(map[], 1), map[], 1, [], map[], map[], map[], map[])

  function Written(w: World, s: Sim, engine: E.State): Sim {
    s.(engine := engine, disk := if w.mode.Strict? then engine.index else s.disk)
  }

  predicate Enabled(w: World, s: Sim, a: Action) {
    && (a.Begin? ==> w.requests(a.key, a.fp))
    && (a.Advance? ==> s.now + a.jump <= U64_MAX)
  }

  function Count(completes: map<Text, nat>, key: Text): nat {
    if key in completes then completes[key] else 0
  }

  function AfterBegin(w: World, s: Sim, a: Action): Sim
    requires a.Begin?
  {
    var r := E.Begin(w.cfg, s.engine, a.key, a.fp, s.now);
    var t := Written(w, s, E.AfterBegin(w.cfg, s.engine, a.key, a.fp, s.now));
    if r.Run? then t.(inflight := s.inflight + [Worker(r.token, a.outcome, a.fp)]) else t
  }

  function AfterComplete(w: World, s: Sim, which: nat): Sim
    requires which < |s.inflight|
  {
    var k := s.inflight[which];
    var key := k.token.key;
    var t := Written(w, s, E.AfterComplete(s.engine, k.token, k.outcome, s.now))
      .(inflight := Without(s.inflight, which));
    if !E.Complete(s.engine, k.token).Committed? then t
    else
      var u := t.(committed := s.committed[key := k.outcome], committedFp := s.committedFp[key := k.fp]);
      if w.mode.GroupCommit? then u
      else u.(completes := s.completes[key := Count(s.completes, key) + 1],
              durable := if key in s.durable then s.durable else s.durable[key := k.outcome])
  }

  function AfterFlush(s: Sim): Sim {
    s.(disk := s.engine.index, durable := s.committed + s.durable)
  }

  ghost function AfterCrash(w: World, s: Sim): Sim {
    s.(engine := E.Seeded(s.disk), committed := if w.mode.GroupCommit? then s.durable else s.committed)
  }

  ghost function Step(w: World, s: Sim, a: Action): Sim
    requires Enabled(w, s, a)
  {
    match a
    case Begin(_, _, _) => AfterBegin(w, s, a)
    case Complete(which) => if which < |s.inflight| then AfterComplete(w, s, which) else s
    case Flush => AfterFlush(s)
    case Advance(jump) => s.(now := s.now + jump)
    case Crash => AfterCrash(w, s)
  }

  // ---- The oracles ----

  /** The replay oracles: the committed outcome, and only to the fingerprint that committed it. */
  predicate BeginFires(w: World, s: Sim, a: Action)
    requires a.Begin?
  {
    var r := E.Begin(w.cfg, s.engine, a.key, a.fp, s.now);
    r.Replay? && !(a.key in s.committed && s.committed[a.key] == r.outcome
                   && a.key in s.committedFp && s.committedFp[a.key] == a.fp)
  }

  /** Strict mode commits a key once, never answers Unknown, and never changes a durable outcome. */
  predicate CompleteFires(w: World, s: Sim, which: nat)
    requires which < |s.inflight|
  {
    var k := s.inflight[which];
    var key := k.token.key;
    match E.Complete(s.engine, k.token)
    case Committed =>
      w.mode.Strict? && (Count(s.completes, key) + 1 != 1 || (key in s.durable && s.durable[key] != k.outcome))
    case AlreadyCompleted => key !in s.committed
    case Unknown => w.mode.Strict?
    case StaleFence => false
  }

  /** Flushing makes every committed outcome durable; a durable outcome must not change. */
  predicate FlushFires(s: Sim) {
    exists key :: key in s.committed && key in s.durable && s.committed[key] != s.durable[key]
  }

  /** After recovery every outcome the oracle holds must be replayed exactly. */
  ghost predicate CrashFires(w: World, s: Sim) {
    var t := AfterCrash(w, s);
    exists key :: key in t.committed
      && E.Begin(w.cfg, t.engine, key, if key in t.committedFp then t.committedFp[key] else w.fallback(key), t.now)
         != E.Replay(t.committed[key])
  }

  ghost predicate Fires(w: World, s: Sim, a: Action)
    requires Enabled(w, s, a)
  {
    match a
    case Begin(_, _, _) => BeginFires(w, s, a)
    case Complete(which) => which < |s.inflight| && CompleteFires(w, s, which)
    case Flush => FlushFires(s)
    case Advance(_) => false
    case Crash => CrashFires(w, s)
  }

  // ---- Schedules ----

  ghost predicate Schedule(w: World, s: Sim, actions: seq<Action>)
    decreases |actions|
  {
    actions == [] || (Enabled(w, s, actions[0]) && Schedule(w, Step(w, s, actions[0]), actions[1..]))
  }

  ghost function Outcome(w: World, s: Sim, actions: seq<Action>): Sim
    requires Schedule(w, s, actions)
    decreases |actions|
  {
    if actions == [] then s else Outcome(w, Step(w, s, actions[0]), actions[1..])
  }

  ghost predicate SomeOracleFires(w: World, s: Sim, actions: seq<Action>)
    requires Schedule(w, s, actions)
    decreases |actions|
  {
    actions != [] && (Fires(w, s, actions[0]) || SomeOracleFires(w, Step(w, s, actions[0]), actions[1..]))
  }

  ghost function Clock(s: Sim, actions: seq<Action>): nat
    decreases |actions|
  {
    if actions == [] then s.now
    else Clock(s, actions[1..]) + (if actions[0].Advance? then actions[0].jump else 0)
  }

  // ---- Why none of them fires ----

  /** `outcomes` are exactly the outcomes of the completed keys of `index`. */
  ghost predicate Outcomes(outcomes: map<Text, CachedOutcome>, index: Index) {
    forall key :: (key in outcomes <==> key in index && index[key].Completed?)
               && (key in outcomes ==> outcomes[key] == index[key].outcome)
  }

  /** Nothing completed later than now. */
  ghost predicate Timely(index: Index, now: u64) {
    forall key :: key in index && index[key].Completed? ==> index[key].completedAt <= now
  }

  /** Every worker's key is stored, under the request the worker serves. */
  ghost predicate Bound(workers: seq<Worker>, index: Index) {
    forall i :: 0 <= i < |workers| ==>
      workers[i].token.key in index && index[workers[i].token.key].fingerprint == workers[i].fp
  }

  ghost predicate AllUsual(w: World, workers: seq<Worker>) {
    forall i :: 0 <= i < |workers| ==> workers[i].fp == Usual(w, workers[i].token.key)
  }

  function Without(workers: seq<Worker>, which: nat): (r: seq<Worker>)
    requires which < |workers|
    ensures |r| == |workers| - 1
    ensures forall i :: 0 <= i < |r| ==> r[i] == workers[if i < which then i else i + 1]
  {
    workers[..which] + workers[which + 1..]
  }

  ghost predicate StrictInv(s: Sim) {
    && s.disk == s.engine.index
    && s.durable == s.committed
    && (forall key :: key in s.committed ==>
          key in s.disk && key in s.committedFp && s.committedFp[key] == s.disk[key].fingerprint)
    && (forall key :: Count(s.completes, key) == if key in s.committed then 1 else 0)
    && Bound(s.inflight, s.disk)
  }

  ghost predicate UsualOnly(w: World, index: Index) {
    forall key :: key in index ==> index[key].fingerprint == Usual(w, key)
  }

  ghost predicate GroupInv(w: World, s: Sim) {
    && Outcomes(s.durable, s.disk)
    && UsualOnly(w, s.disk) && UsualOnly(w, s.engine.index)
    && (forall key :: key in s.disk && s.disk[key].Completed? ==> key in s.engine.index && s.engine.index[key] == s.disk[key])
    && (forall key :: key in s.committed ==> key in s.committedFp)
    && (forall key :: key in s.committedFp ==> s.committedFp[key] == Usual(w, key))
    && AllUsual(w, s.inflight)
  }

  ghost predicate Inv(w: World, s: Sim) {
    && Outcomes(s.committed, s.engine.index)
    && Timely(s.engine.index, s.now) && Timely(s.disk, s.now)
    && (if w.mode.Strict? then StrictInv(s) else OneFingerprintPerKey(w) && GroupInv(w, s))
  }

  lemma NewInv(w: World)
    requires w.mode.Strict? || OneFingerprintPerKey(w)
    ensures Inv(w, NEW)
  {
  }

  /** Before the TTL has passed since the clock started, nothing completed is expired. */
  lemma NotExpired(cfg: E.Config, s: KeyState, now: u64)
    requires s.Completed? && s.completedAt <= now < cfg.ttl
    ensures !E.Expired(cfg, s, now)
  {
  }

  lemma StartStrict(w: World, s: Sim, a: Action)
    requires w.mode.Strict?
    requires Inv(w, s) && a.Begin? && Enabled(w, s, a)
    requires E.Starts(w.cfg, s.engine.index, a.key, a.fp, s.now)
    requires a.key in s.engine.index ==> s.engine.index[a.key].InProgress?
    ensures Inv(w, AfterBegin(w, s, a))
  {
    var t := AfterBegin(w, s, a);
    assert t.engine.index == s.engine.index[a.key := t.engine.index[a.key]] && a.key !in s.committed;
    assert t.committed == s.committed && t.completes == s.completes && t.committedFp == s.committedFp;
    assert forall i :: 0 <= i < |s.inflight| ==> t.inflight[i] == s.inflight[i];
  }

  lemma StartGroup(w: World, s: Sim, a: Action)
    requires w.mode.GroupCommit?
    requires Inv(w, s) && a.Begin? && Enabled(w, s, a)
    requires E.Starts(w.cfg, s.engine.index, a.key, a.fp, s.now)
    requires a.key in s.engine.index ==> s.engine.index[a.key].InProgress?
    ensures Inv(w, AfterBegin(w, s, a))
  {
    var t := AfterBegin(w, s, a);
    assert t.engine.index == s.engine.index[a.key := t.engine.index[a.key]] && a.key !in s.committed;
    assert forall i :: 0 <= i < |s.inflight| ==> t.inflight[i] == s.inflight[i];
  }

  lemma BeginHolds(w: World, s: Sim, a: Action)
    requires Inv(w, s) && a.Begin? && Enabled(w, s, a) && s.now < w.cfg.ttl
    ensures !BeginFires(w, s, a) && Inv(w, Step(w, s, a))
  {
    if a.key in s.engine.index && s.engine.index[a.key].Completed? {
      NotExpired(w.cfg, s.engine.index[a.key], s.now);
      CommittedReplays(w, s, a);
    } else if E.Starts(w.cfg, s.engine.index, a.key, a.fp, s.now) {
      if w.mode.Strict? {
        StartStrict(w, s, a);
      } else {
        StartGroup(w, s, a);
      }
    } else {
      Unchanged(w, s, a);
    }
  }

  lemma Unchanged(w: World, s: Sim, a: Action)
    requires Inv(w, s) && a.Begin? && !E.Starts(w.cfg, s.engine.index, a.key, a.fp, s.now)
    ensures AfterBegin(w, s, a) == s
  {
    hide Outcomes, Timely, GroupInv;
  }

  lemma CommittedReplays(w: World, s: Sim, a: Action)
    requires Inv(w, s) && a.Begin? && Enabled(w, s, a)
    requires a.key in s.engine.index && s.engine.index[a.key].Completed?
    requires !E.Expired(w.cfg, s.engine.index[a.key], s.now)
    ensures !BeginFires(w, s, a) && AfterBegin(w, s, a) == s
  {
    Unchanged(w, s, a);
    assert a.key in s.committed;
  }

  lemma RefusedHolds(w: World, s: Sim, which: nat)
    requires Inv(w, s) && which < |s.inflight| && !E.Complete(s.engine, s.inflight[which].token).Committed?
    ensures !CompleteFires(w, s, which) && Inv(w, AfterComplete(w, s, which))
  {
    var t := AfterComplete(w, s, which);
    assert t == s.(inflight := Without(s.inflight, which));
  }

  lemma CommitStrict(w: World, s: Sim, which: nat)
    requires w.mode.Strict? && Inv(w, s)
    requires which < |s.inflight| && E.Complete(s.engine, s.inflight[which].token).Committed?
    ensures !CompleteFires(w, s, which) && Inv(w, AfterComplete(w, s, which))
  {
    var t, k := AfterComplete(w, s, which), s.inflight[which];
    var key := k.token.key;
    assert key !in s.committed && Count(s.completes, key) == 0;
    assert t.engine.index == s.engine.index[key := Completed(s.engine.index[key].fingerprint, k.outcome, s.now)];
    assert t.committed == s.committed[key := k.outcome];
    assert Outcomes(t.committed, t.engine.index);
    assert t.durable == t.committed;
    assert forall x :: Count(t.completes, x) == if x == key then 1 else Count(s.completes, x);
    assert Bound(t.inflight, t.disk);
  }

  lemma CommitGroup(w: World, s: Sim, which: nat)
    requires w.mode.GroupCommit? && Inv(w, s)
    requires which < |s.inflight| && E.Complete(s.engine, s.inflight[which].token).Committed?
    ensures !CompleteFires(w, s, which) && Inv(w, AfterComplete(w, s, which))
  {
    var t, k := AfterComplete(w, s, which), s.inflight[which];
    var key := k.token.key;
    assert t.engine.index == s.engine.index[key := Completed(s.engine.index[key].fingerprint, k.outcome, s.now)];
    assert t.committed == s.committed[key := k.outcome];
    assert Outcomes(t.committed, t.engine.index);
    assert AllUsual(w, t.inflight);
  }

  lemma CompleteHolds(w: World, s: Sim, which: nat)
    requires Inv(w, s) && which < |s.inflight|
    ensures !CompleteFires(w, s, which) && Inv(w, AfterComplete(w, s, which))
  {
    if !E.Complete(s.engine, s.inflight[which].token).Committed? {
      RefusedHolds(w, s, which);
    } else if w.mode.Strict? {
      CommitStrict(w, s, which);
    } else {
      CommitGroup(w, s, which);
    }
  }

  lemma FlushHolds(w: World, s: Sim)
    requires Inv(w, s)
    ensures !FlushFires(s) && Inv(w, Step(w, s, Flush))
  {
    assert s.committed + s.durable == s.committed;
  }

  lemma CrashHolds(w: World, s: Sim)
    requires Inv(w, s) && s.now < w.cfg.ttl
    ensures !CrashFires(w, s) && Inv(w, Step(w, s, Crash))
  {
    var t := Step(w, s, Crash);
    forall key | key in t.committed
      ensures E.Begin(w.cfg, t.engine, key, if key in t.committedFp then t.committedFp[key] else w.fallback(key), t.now)
           == E.Replay(t.committed[key])
    {
      NotExpired(w.cfg, s.disk[key], s.now);
    }
  }

  lemma StepHolds(w: World, s: Sim, a: Action)
    requires Inv(w, s) && Enabled(w, s, a) && s.now < w.cfg.ttl
    ensures !Fires(w, s, a) && Inv(w, Step(w, s, a))
  {
    match a
    case Begin(_, _, _) => BeginHolds(w, s, a);
    case Complete(which) =>
      if which < |s.inflight| {
        CompleteHolds(w, s, which);
      }
    case Flush => FlushHolds(w, s);
    case Advance(_) =>
    case Crash => CrashHolds(w, s);
  }

  lemma {:induction false} NoOracleFiresFrom(w: World, s: Sim, actions: seq<Action>)
    requires Inv(w, s) && Schedule(w, s, actions) && Clock(s, actions) < w.cfg.ttl
    ensures !SomeOracleFires(w, s, actions)
    decreases |actions|
  {
    if actions != [] {
      ClockOnlyAdvances(s, actions);
      StepHolds(w, s, actions[0]);
      ClockSplits(w, s, actions);
      NoOracleFiresFrom(w, Step(w, s, actions[0]), actions[1..]);
    }
  }

  ghost predicate LiveBelow(index: Index, n: nat) {
    forall key :: key in index && index[key].InProgress? ==> index[key].fence < n
  }

  /** One fence per action at most is ever used up. */
  ghost predicate FencesBelow(s: Sim, n: nat) {
    s.engine.next <= n && LiveBelow(s.engine.index, n) && LiveBelow(s.disk, n)
  }

  lemma EngineStaysBelow(cfg: E.Config, e: E.State, n: nat, key: Text, fp: Digest, now: u64, token: E.Token, outcome: CachedOutcome)
    requires e.next <= n && LiveBelow(e.index, n)
    ensures E.AfterBegin(cfg, e, key, fp, now).next <= n + 1
    ensures LiveBelow(E.AfterBegin(cfg, e, key, fp, now).index, n + 1)
    ensures E.AfterComplete(e, token, outcome, now).next <= n
    ensures LiveBelow(E.AfterComplete(e, token, outcome, now).index, n)
  {
  }

  lemma SeedBelow(index: Index, n: nat)
    requires LiveBelow(index, n) && n > 0
    ensures E.Seeded(index).next <= n
  {
    assert forall f :: f in LiveFences(index) ==> f < n;
  }

  lemma FencesStayBelow(w: World, s: Sim, a: Action, n: nat)
    requires FencesBelow(s, n) && n > 0 && Enabled(w, s, a)
    ensures FencesBelow(Step(w, s, a), n + 1)
  {
    hide E.AfterBegin, E.AfterComplete, E.Begin, E.Complete;
    assert LiveBelow(s.engine.index, n + 1) && LiveBelow(s.disk, n + 1);
    match a
    case Begin(key, fp, outcome) =>
      EngineStaysBelow(w.cfg, s.engine, n, key, fp, s.now, E.Token(key, 0), outcome);
    case Complete(which) =>
      if which < |s.inflight| {
        var k := s.inflight[which];
        EngineStaysBelow(w.cfg, s.engine, n, k.token.key, k.fp, s.now, k.token, k.outcome);
      }
    case Crash => SeedBelow(s.disk, n);
    case _ =>
  }

  lemma {:induction false} ClockOnlyAdvances(s: Sim, actions: seq<Action>)
    ensures s.now <= Clock(s, actions)
    decreases |actions|
  {
    if actions != [] {
      ClockOnlyAdvances(s, actions[1..]);
    }
  }

  lemma ClockSplits(w: World, s: Sim, actions: seq<Action>)
    requires actions != [] && Enabled(w, s, actions[0])
    ensures Clock(Step(w, s, actions[0]), actions[1..]) == Clock(s, actions)
  {
    hide E.AfterBegin, E.AfterComplete, E.Begin, E.Complete;
    ClockShift(s, Step(w, s, actions[0]), actions[1..]);
  }

  lemma {:induction false} ClockShift(s: Sim, t: Sim, actions: seq<Action>)
    ensures Clock(t, actions) - t.now == Clock(s, actions) - s.now
    decreases |actions|
  {
    if actions != [] {
      ClockShift(s, t, actions[1..]);
    }
  }

  /** For every schedule of begins, completions, flushes, clock jumps and crashes, of any length, in
      either durability mode, whose clock stays below the TTL: no oracle fires. Group commit needs each
      key to be used with one request only. */
  lemma NoOracleFires(w: World, actions: seq<Action>)
    requires w.mode.Strict? || OneFingerprintPerKey(w)
    requires Schedule(w, NEW, actions) && Clock(NEW, actions) < w.cfg.ttl
    ensures !SomeOracleFires(w, NEW, actions)
  {
    NewInv(w);
    NoOracleFiresFrom(w, NEW, actions);
  }

  /** A begin lost in a crash leaves a token whose fence is minted again for the next request: the
      first worker then commits its outcome under the second request's fingerprint. */
  function Mixup(key: Text, a: Digest, b: Digest, outcome: CachedOutcome): seq<Action> {
    [Begin(key, a, outcome), Crash, Begin(key, b, outcome), Complete(0), Begin(key, b, outcome)]
  }

  lemma MixupFires(w: World, key: Text, a: Digest, b: Digest, outcome: CachedOutcome)
    requires w.mode.GroupCommit? && w.cfg.ttl > 1
    requires w.requests(key, a) && w.requests(key, b) && a != b
    ensures Schedule(w, NEW, Mixup(key, a, b, outcome))
    ensures Clock(NEW, Mixup(key, a, b, outcome)) < w.cfg.ttl
    ensures SomeOracleFires(w, NEW, Mixup(key, a, b, outcome))
  {
    var acts := Mixup(key, a, b, outcome);
    var s1 := Step(w, NEW, acts[0]);
    var s2 := Step(w, s1, acts[1]);
    assert s2.engine == E.State(map[], 1) by {
      assert LiveFences(map[]) == {};
    }
    var s3 := Step(w, s2, acts[2]);
    assert s3.inflight[0] == Worker(E.Token(key, 1), outcome, a);
    var s4 := Step(w, s3, acts[3]);
    assert s4.committedFp[key] == a && s4.engine.index[key] == Completed(b, outcome, 1);
    assert BeginFires(w, s4, acts[4]);
    FiresNow(w, s4, acts[4]);
    FiresLater(w, s3, acts[3], [acts[4]]);
    FiresLater(w, s2, acts[2], [acts[3]] + [acts[4]]);
    FiresLater(w, s1, acts[1], [acts[2]] + ([acts[3]] + [acts[4]]));
    FiresLater(w, NEW, acts[0], [acts[1]] + ([acts[2]] + ([acts[3]] + [acts[4]])));
    assert acts == [acts[0]] + ([acts[1]] + ([acts[2]] + ([acts[3]] + [acts[4]])));
    StillClock(NEW, acts);
  }

  lemma FiresNow(w: World, s: Sim, a: Action)
    requires Enabled(w, s, a) && Fires(w, s, a)
    ensures Schedule(w, s, [a]) && SomeOracleFires(w, s, [a])
  {
    assert [a][1..] == [];
  }

  lemma FiresLater(w: World, s: Sim, a: Action, rest: seq<Action>)
    requires Enabled(w, s, a) && Schedule(w, Step(w, s, a), rest) && SomeOracleFires(w, Step(w, s, a), rest)
    ensures Schedule(w, s, [a] + rest) && SomeOracleFires(w, s, [a] + rest)
  {
    assert ([a] + rest)[1..] == rest;
  }

  lemma {:induction false} StillClock(s: Sim, actions: seq<Action>)
    requires forall i :: 0 <= i < |actions| ==> !actions[i].Advance?
    ensures Clock(s, actions) == s.now
    decreases |actions|
  {
    if actions != [] {
      StillClock(s, actions[1..]);
    }
  }

  ghost predicate Quiet(w: World, actions: seq<Action>) {
    Schedule(w, NEW, actions) && Clock(NEW, actions) < w.cfg.ttl ==> !SomeOracleFires(w, NEW, actions)
  }

  /** Strict mode is quiet whatever is sent; group commit exactly when no key carries two requests. */
  lemma QuietIff(w: World)
    requires w.cfg.ttl > 1
    ensures (forall actions :: Quiet(w, actions)) <==> w.mode.Strict? || OneFingerprintPerKey(w)
  {
    if w.mode.Strict? || OneFingerprintPerKey(w) {
      forall actions
        ensures Quiet(w, actions)
      {
        if Schedule(w, NEW, actions) && Clock(NEW, actions) < w.cfg.ttl {
          NoOracleFires(w, actions);
        }
      }
    } else {
      var key, a, b :| w.requests(key, a) && w.requests(key, b) && a != b;
      var outcome := CachedOutcome(200, map[], []);
      MixupFires(w, key, a, b, outcome);
      assert !Quiet(w, Mixup(key, a, b, outcome));
    }
  }
}
