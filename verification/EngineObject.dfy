/** The engine as it runs over the write-ahead-log store. */
module EngineObject {
  import opened Prelude
  import opened Keys
  import opened Records
  import opened Journal
  import E = Engine
  import opened WalStore

  class Engine {
    const store: WalStore
    const cfg: E.Config
    var nextFence: nat

    function View(): E.State
      reads this, store
    {
      E.State(store.index, nextFence)
    }

    constructor WithTtl(store: WalStore, cfg: E.Config)
      ensures this.store == store && this.cfg == cfg
      ensures View() == E.Seeded(store.index)
    {
      this.store := store;
      this.cfg := cfg;
      var m := store.MaxInProgressFence();
      nextFence := m + 1;
    }

    method Flush()
      modifies store
      ensures store.State() == Step(Onced(store.hash), old(store.State()), Commit)
      ensures View() == old(View())
    {
      store.Flush();
    }

    method MintFence() returns (fence: nat)
      modifies this
      ensures fence == old(nextFence) && nextFence == old(nextFence) + 1
    {
      fence := nextFence;
      nextFence := nextFence + 1;
    }

    method Start(key: Text, fp: Digest, now: u64) returns (r: E.Answer)
      modifies this, store
      ensures r == E.Run(E.Token(key, old(nextFence)))
      ensures nextFence == old(nextFence) + 1
      ensures Stored(old(store.State()), store.State(), Write(key, InProgress(old(nextFence), fp, SatAdd(now, cfg.lease))))
    {
      var fence := MintFence();
      store.Put(key, InProgress(fence, fp, SatAdd(now, cfg.lease)));
      r := E.Run(E.Token(key, fence));
    }

    /** One write has gone to the store, and to the disk too in strict mode. */
    predicate Stored(before: Store, after: Store, w: Write) {
      var buffered := Step(Onced(store.hash), before, Buffer(w));
      after == if store.syncEach then Step(Onced(store.hash), buffered, Commit) else buffered
    }

    method Begin(key: Text, fp: Digest, now: u64) returns (r: E.Answer)
      modifies this, store
      ensures r == E.Begin(cfg, old(View()), key, fp, now)
      ensures View() == E.AfterBegin(cfg, old(View()), key, fp, now)
      ensures if r.Run? then Stored(old(store.State()), store.State(), Write(key, View().index[key]))
              else store.State() == old(store.State())
    {
      var found := store.Get(key);
      match found {
        case None =>
          r := Start(key, fp, now);
        case Some(Completed(stored, outcome, at)) =>
          if now >= SatAdd(at, cfg.ttl) {
            r := Start(key, fp, now);
          } else if stored == fp {
            r := E.Replay(outcome);
          } else {
            r := E.Mismatch;
          }
        case Some(InProgress(_, stored, expires)) =>
          if stored != fp {
            r := E.Mismatch;
          } else if now >= expires {
            r := Start(key, fp, now);
          } else {
            r := E.Busy;
          }
      }
    }

    method Complete(token: E.Token, outcome: CachedOutcome, now: u64) returns (r: E.Completion)
      modifies store
      ensures r == E.Complete(old(View()), token)
      ensures View() == E.AfterComplete(old(View()), token, outcome, now)
      ensures if r.Committed? then Stored(old(store.State()), store.State(), Write(token.key, View().index[token.key]))
              else store.State() == old(store.State())
    {
      var found := store.Get(token.key);
      match found {
        case None =>
          r := E.Unknown;
        case Some(Completed(_, _, _)) =>
          r := E.AlreadyCompleted;
        case Some(InProgress(fence, fp, _)) =>
          if fence != token.fence {
            return E.StaleFence;
          }
          store.Put(token.key, Completed(fp, outcome, now));
          r := E.Committed;
      }
    }

    method PruneExpired(now: u64) returns (ghost order: seq<Text>)
      modifies store
      ensures View() == E.AfterPrune(cfg, old(View()), now)
      ensures var op := Op.Compact((key: Text, s: KeyState) => E.Kept(cfg, s, now), order);
              Legal(op, old(store.index)) && store.State() == Step(Onced(store.hash), old(store.State()), op)
    {
      order := store.Compact((key: Text, s: KeyState) => E.Kept(cfg, s, now));
    }
  }
}
