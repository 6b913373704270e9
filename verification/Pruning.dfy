/** Pruning is invisible: a strict-mode run in which expired keys were pruned at some point answers
    every later request as the run that kept them. */
module Pruning {
  import opened Prelude
  import opened Keys
  import opened Engine
  import opened Operations

  datatype Reply = Answered(answer: Answer) | Finished(completion: Completion) | Seed(next: nat) | Silent

  /** What an operation shows its caller: a begin its answer (with the fence minted), a completion its
      verdict, a restart the fence it starts counting from. */
  ghost function Shown(cfg: Config, e: State, op: Op): Reply {
    match op
    case Begin(key, fp, now) => Answered(Engine.Begin(cfg, e, key, fp, now))
    case Complete(token, _, _) => Finished(Engine.Complete(e, token))
    case Prune(_) => Silent
    case Crash => Seed(Seeded(e.index).next)
  }

  ghost function Replies(cfg: Config, e: State, ops: seq<Op>): seq<Reply>
    decreases |ops|
  {
    if ops == [] then [] else [Shown(cfg, e, ops[0])] + Replies(cfg, After(cfg, e, ops[0]), ops[1..])
  }

  /** Equal, except that completing a pruned key is refused as unknown instead of as completed. */
  predicate SameToCaller(a: Reply, b: Reply) {
    a == b || (a == Finished(AlreadyCompleted) && b == Finished(Unknown))
  }

  predicate AllSame(a: seq<Reply>, b: seq<Reply>) {
    |a| == |b| && forall i :: 0 <= i < |a| ==> SameToCaller(a[i], b[i])
  }

  /** No later begin looks at a clock behind the prune's. */
  predicate NotBefore(ops: seq<Op>, time: u64) {
    forall i :: 0 <= i < |ops| && ops[i].Begin? ==> ops[i].now >= time
  }

  /** `b` is `a` without some completed keys that were expired at `time`. */
  ghost predicate Pruned(cfg: Config, a: State, b: State, time: u64) {
    && a.next == b.next
    && (forall key :: key in b.index ==> key in a.index && a.index[key] == b.index[key])
    && (forall key :: key in a.index && key !in b.index ==> a.index[key].Completed? && Expired(cfg, a.index[key], time))
  }

  lemma SameSeed(cfg: Config, a: State, b: State, time: u64)
    requires Pruned(cfg, a, b, time)
    ensures Seeded(a.index).next == Seeded(b.index).next
  {
    forall f
      ensures f in LiveFences(a.index) <==> f in LiveFences(b.index)
    {
      if f in LiveFences(a.index) {
        var key :| key in a.index && a.index[key].InProgress? && a.index[key].fence == f;
        assert key in b.index;
      }
    }
    assert LiveFences(a.index) == LiveFences(b.index);
  }

  lemma StepStaysPruned(cfg: Config, a: State, b: State, time: u64, op: Op)
    requires Pruned(cfg, a, b, time) && (op.Begin? ==> op.now >= time)
    ensures Pruned(cfg, After(cfg, a, op), After(cfg, b, op), time)
    ensures SameToCaller(Shown(cfg, a, op), Shown(cfg, b, op))
  {
    if op.Crash? {
      SameSeed(cfg, a, b, time);
    }
  }

  lemma {:induction false} RunsStaySame(cfg: Config, a: State, b: State, time: u64, ops: seq<Op>)
    requires Pruned(cfg, a, b, time) && NotBefore(ops, time)
    ensures AllSame(Replies(cfg, a, ops), Replies(cfg, b, ops))
    decreases |ops|
  {
    if ops != [] {
      StepStaysPruned(cfg, a, b, time, ops[0]);
      RunsStaySame(cfg, After(cfg, a, ops[0]), After(cfg, b, ops[0]), time, ops[1..]);
    }
  }

  /** Inserting a prune before any continuation, crashes and further prunes included, changes no later
      answer, minted fence or post-crash seed, and makes no refused completion succeed. */
  lemma PruningIsInvisible(cfg: Config, e: State, time: u64, ops: seq<Op>)
    requires NotBefore(ops, time)
    ensures AllSame(Replies(cfg, e, ops), Replies(cfg, AfterPrune(cfg, e, time), ops))
  {
    RunsStaySame(cfg, e, AfterPrune(cfg, e, time), time, ops);
  }

  /** Exactly the begins that look at a pruned key with a clock behind its expiry can tell. */
  lemma PruneShowsIff(cfg: Config, e: State, time: u64, key: Text, fp: Digest, now: u64)
    ensures Engine.Begin(cfg, e, key, fp, now) != Engine.Begin(cfg, AfterPrune(cfg, e, time), key, fp, now)
        <==> key in e.index && e.index[key].Completed? && Expired(cfg, e.index[key], time) && !Expired(cfg, e.index[key], now)
  {
  }
}
