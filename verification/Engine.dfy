/** The idempotency engine: leases, fences, TTL and fingerprints over whatever its store shows it. */
module Engine {
  import opened Prelude
  import opened Keys

  datatype Config = Config(lease: u64, ttl: u64)

  datatype Token = Token(key: Text, fence: nat)

  datatype Answer = Run(token: Token) | Replay(outcome: CachedOutcome) | Busy | Mismatch

  datatype Completion = Committed | StaleFence | AlreadyCompleted | Unknown

  /** What the engine sees of its store, and the next fence to mint. */
  datatype State = State(index: Index, next: nat)

  /** An engine started over a store: its counter begins above every fence still in progress there. */
  ghost function Seeded(index: Index): State {
    State(index, MaxFence(index) + 1)
  }

  predicate Expired(cfg: Config, s: KeyState, now: u64)
    requires s.Completed?
  {
    now >= SatAdd(s.completedAt, cfg.ttl)
  }

  predicate LeaseOver(s: KeyState, now: u64)
    requires s.InProgress?
  {
    now >= s.leaseExpiresAt
  }

  /** Whether a request is to run the side effect itself. */
  predicate Starts(cfg: Config, index: Index, key: Text, fp: Digest, now: u64) {
    || key !in index
    || (index[key].Completed? && Expired(cfg, index[key], now))
    || (index[key].InProgress? && index[key].fingerprint == fp && LeaseOver(index[key], now))
  }

  function Begin(cfg: Config, e: State, key: Text, fp: Digest, now: u64): Answer {
    if Starts(cfg, e.index, key, fp, now) then Run(Token(key, e.next))
    else
      match e.index[key]
      case Completed(stored, outcome, _) => if stored == fp then Replay(outcome) else Mismatch
      case InProgress(_, stored, _) => if stored == fp then Busy else Mismatch
  }

  function AfterBegin(cfg: Config, e: State, key: Text, fp: Digest, now: u64): State {
    if Starts(cfg, e.index, key, fp, now)
    then State(e.index[key := InProgress(e.next, fp, SatAdd(now, cfg.lease))], e.next + 1)
    else e
  }

  function Complete(e: State, token: Token): Completion {
    if token.key !in e.index then Unknown
    else if e.index[token.key].Completed? then AlreadyCompleted
    else if e.index[token.key].fence != token.fence then StaleFence
    else Committed
  }

  function AfterComplete(e: State, token: Token, outcome: CachedOutcome, now: u64): State {
    if Complete(e, token).Committed?
    then State(e.index[token.key := Completed(e.index[token.key].fingerprint, outcome, now)], e.next)
    else e
  }

  /** Completed keys past their TTL are dropped; a key in progress is always kept. */
  predicate Kept(cfg: Config, s: KeyState, now: u64) {
    s.Completed? ==> !Expired(cfg, s, now)
  }

  function AfterPrune(cfg: Config, e: State, now: u64): State {
    State(map key | key in e.index && Kept(cfg, e.index[key], now) :: e.index[key], e.next)
  }

  // ---- One key's life ----

  /** The counter is above every fence in progress. */
  ghost predicate Fenced(e: State) {
    forall key :: key in e.index && e.index[key].InProgress? ==> e.index[key].fence < e.next
  }

  lemma SeededIsFenced(index: Index)
    ensures Fenced(Seeded(index))
  {
  }
}
