/** What can happen to an engine over a strict-mode store, in any order and number. */
module Operations {
  import opened Prelude
  import opened Keys
  import opened Engine

  datatype Op =
    | Begin(key: Text, fp: Digest, now: u64)
    | Complete(token: Token, outcome: CachedOutcome, now: u64)
    | Prune(now: u64)
    | Crash

  /** In strict mode everything written is on disk, so a crash only re-seeds the counter. */
  ghost function After(cfg: Config, e: State, op: Op): State {
    match op
    case Begin(key, fp, now) => AfterBegin(cfg, e, key, fp, now)
    case Complete(token, outcome, now) => AfterComplete(e, token, outcome, now)
    case Prune(now) => AfterPrune(cfg, e, now)
    case Crash => Seeded(e.index)
  }

  ghost function AfterAll(cfg: Config, e: State, ops: seq<Op>): State
    decreases |ops|
  {
    if ops == [] then e else AfterAll(cfg, After(cfg, e, ops[0]), ops[1..])
  }

  lemma {:induction false} AfterAllAppend(cfg: Config, e: State, a: seq<Op>, b: seq<Op>)
    ensures AfterAll(cfg, e, a + b) == AfterAll(cfg, AfterAll(cfg, e, a), b)
    decreases |a|
  {
    hide After;
    if a == [] {
      assert a + b == b;
    } else {
      assert (a + b)[1..] == a[1..] + b;
      AfterAllAppend(cfg, After(cfg, e, a[0]), a[1..], b);
    }
  }

  /** A begin or prune at a time no later than `now`. */
  predicate NotAfter(op: Op, now: u64) {
    op.Begin? || op.Prune? ==> op.now <= now
  }

  /** A completed key keeps its outcome through every operation and crash until its TTL has run out:
      whoever asks again is served it or told of the mismatch. */
  lemma {:induction false} CompletedIsImmutable(cfg: Config, e: State, ops: seq<Op>, key: Text, fp: Digest, now: u64)
    requires key in e.index && e.index[key].Completed? && !Expired(cfg, e.index[key], now)
    requires forall i :: 0 <= i < |ops| ==> NotAfter(ops[i], now)
    ensures var later := AfterAll(cfg, e, ops);
            && key in later.index && later.index[key] == e.index[key]
            && Engine.Begin(cfg, later, key, fp, now)
               == if e.index[key].fingerprint == fp then Replay(e.index[key].outcome) else Mismatch
    decreases |ops|
  {
    if ops != [] {
      var next := After(cfg, e, ops[0]);
      assert key in next.index && next.index[key] == e.index[key];
      CompletedIsImmutable(cfg, next, ops[1..], key, fp, now);
    }
  }

  /** No completion of `key` is accepted during the run. */
  ghost predicate Uncompleted(cfg: Config, e: State, ops: seq<Op>, key: Text)
    decreases |ops|
  {
    ops == [] || (
      && !(ops[0].Complete? && ops[0].token.key == key && Engine.Complete(e, ops[0].token).Committed?)
      && Uncompleted(cfg, After(cfg, e, ops[0]), ops[1..], key))
  }

  /** A key in progress stays bound to the request that took it until a completion is accepted: through
      any begins, takeovers, refused completions, prunes and crashes. Any other request is a mismatch at
      any clock, past the lease too, and changes nothing. The same request waits until the lease is over
      and then runs under a new fence. */
  lemma {:induction false} HeldIsBound(cfg: Config, e: State, ops: seq<Op>, key: Text, fp: Digest, now: u64)
    requires key in e.index && e.index[key].InProgress? && Uncompleted(cfg, e, ops, key)
    ensures var later := AfterAll(cfg, e, ops);
            var answer := Engine.Begin(cfg, later, key, fp, now);
            && key in later.index && later.index[key].InProgress?
            && later.index[key].fingerprint == e.index[key].fingerprint
            && (fp != e.index[key].fingerprint ==> answer == Mismatch && AfterBegin(cfg, later, key, fp, now) == later)
            && (fp == e.index[key].fingerprint ==>
                  answer == if now < later.index[key].leaseExpiresAt then Busy else Run(Token(key, later.next)))
    decreases |ops|
  {
    if ops != [] {
      var next := After(cfg, e, ops[0]);
      assert key in next.index && next.index[key].InProgress? && next.index[key].fingerprint == e.index[key].fingerprint;
      HeldIsBound(cfg, next, ops[1..], key, fp, now);
    }
  }
}
