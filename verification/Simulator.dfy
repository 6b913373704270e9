/** The simulator as it runs: a real engine over a real log, crashed and reopened from its bytes. The
    oracles are assertions in the code, as in the simulator itself. */
module Simulator {
  import opened Prelude
  import opened Keys
  import opened Frames
  import opened Texts
  import opened Records
  import opened Wal
  import J = Journal
  import opened WalStore
  import E = Engine
  import S = Simulation
  import O = EngineObject

  /** The completion record of `key` with `outcome` fits the log, whoever asked and whenever. */
  predicate Storable(key: Text, outcome: CachedOutcome) {
    && IsUtf8(key) && AllText(outcome.headers)
    && |Payload(key, Completed(GENESIS, outcome, 0))| < 0x1_0000_0000
  }

  lemma StorableIsFaithful(hash: Hash, key: Text, outcome: CachedOutcome, fp: Digest, at: u64)
    requires Storable(key, outcome)
    ensures Faithful(Onced(hash), Write(key, Completed(fp, outcome, at)))
  {
    hide IsUtf8, PutHeaders;
    assert |Payload(key, Completed(fp, outcome, at))| == |Payload(key, Completed(GENESIS, outcome, 0))|;
    FaithfulIff(hash, Write(key, Completed(fp, outcome, at)));
  }

  lemma LeaseIsFaithful(hash: Hash, key: Text, outcome: CachedOutcome, fence: nat, fp: Digest, lease: u64)
    requires Storable(key, outcome) && fence <= U64_MAX
    ensures Faithful(Onced(hash), Write(key, InProgress(fence, fp, lease)))
  {
    hide IsUtf8, PutHeaders;
    FaithfulIff(hash, Write(key, InProgress(fence, fp, lease)));
  }

  /** Reopening a file that holds an index starts clean books on it. */
  lemma Reopened(hash: Hash, file: Bytes, index: Index, root: Digest)
    requires Holds(Onced(hash), file, index, root)
    ensures Open(Onced(hash), file).Ok?
    ensures J.Fresh(Onced(hash), file) == J.Store(file, [], index, root)
    ensures J.Keeps(Onced(hash), J.Store(file, [], index, root), J.Ledger(index, root, []))
  {
    hide Replay, J.Keeps;
    HeldOpens(Onced(hash), file, index, root);
    OncedIsClosed(hash);
    J.FreshKeeps(Onced(hash), file);
    assert file[..|file|] == file;
  }

  lemma KeepsIndex(fmt: Format, st: J.Store, l: J.Ledger)
    requires J.Keeps(fmt, st, l)
    ensures st.index == J.Visible(l) && Holds(fmt, st.file, l.durable, l.root)
  {
  }

  lemma CommittedState(e: E.State, token: E.Token, outcome: CachedOutcome, now: u64)
    ensures var after := E.AfterComplete(e, token, outcome, now).index;
            E.Complete(e, token).Committed? ==>
              token.key in e.index && token.key in after
              && after[token.key] == Completed(e.index[token.key].fingerprint, outcome, now)
  {
  }

  class Simulator {
    const world: S.World
    const hash: Hash
    var engine: O.Engine
    var now: u64
    var inflight: seq<S.Worker>
    var committed: map<Text, CachedOutcome>
    var durable: map<Text, CachedOutcome>
    var committedFp: map<Text, Digest>
    var completes: map<Text, nat>
    ghost var books: J.Ledger

    ghost function View(): S.Sim
      reads this, engine, engine.store
    {
      S.Sim(engine.View(), books.durable, now, inflight, committed, durable, committedFp, completes)
    }

    /** The log's bytes say what the model's disk says. */
    ghost predicate Valid()
      reads this, engine, engine.store
    {
      && engine.cfg == world.cfg && engine.store.hash == hash
      && engine.store.syncEach == world.mode.Strict?
      && J.Keeps(Onced(hash), engine.store.State(), books)
      && (world.mode.Strict? ==> books.buffered == [] && books.durable == engine.store.index)
      && (forall i :: 0 <= i < |inflight| ==> Storable(inflight[i].token.key, inflight[i].outcome))
    }

    constructor (world: S.World, hash: Hash)
      ensures this.world == world && this.hash == hash
      ensures Valid() && View() == S.NEW
      ensures fresh(engine) && fresh(engine.store)
    {
      var r := OpenLog(hash, []);
      NothingHeld(Onced(hash));
      HeldOpens(Onced(hash), [], map[], GENESIS);
      var store := new WalStore.Recover(hash, [], r.value, world.mode.Strict?);
      this.world := world;
      this.hash := hash;
      engine := new O.Engine.WithTtl(store, world.cfg);
      now, inflight := 1, [];
      committed, durable, committedFp, completes := map[], map[], map[], map[];
      books := J.Ledger(map[], GENESIS, []);
      new;
      J.EmptyAppend(Onced(hash), GENESIS);
      assert LiveFences(map[]) == {};
    }

    /** What a write through the engine does to the books. */
    ghost function Booked(w: Write): J.Ledger
      reads this
    {
      var l := books.(buffered := books.buffered + [w]);
      if world.mode.Strict? then J.LedgerStep(Onced(hash), l, J.Commit) else l
    }

    lemma Books(before: J.Store, after: J.Store, w: Write)
      requires J.Keeps(Onced(hash), before, books) && engine.store.hash == hash
      requires engine.store.syncEach == world.mode.Strict?
      requires engine.Stored(before, after, w) && Faithful(Onced(hash), w)
      requires world.mode.Strict? ==> books.buffered == []
      ensures J.Keeps(Onced(hash), after, Booked(w))
      ensures world.mode.Strict? ==> Booked(w).buffered == [] && Booked(w).durable == after.index
      ensures !world.mode.Strict? ==> Booked(w).durable == books.durable
    {
      J.BufferKeeps(Onced(hash), before, books, w);
      if world.mode.Strict? {
        var fmt := Onced(hash);
        J.CommitKeeps(fmt, J.Step(fmt, before, J.Buffer(w)), J.LedgerStep(fmt, books, J.Buffer(w)));
      }
    }

    method DoBegin(key: Text, fp: Digest, outcome: CachedOutcome) returns (r: E.Answer)
      requires Valid() && !S.BeginFires(world, View(), S.Begin(key, fp, outcome))
      requires Storable(key, outcome) && engine.nextFence <= U64_MAX
      modifies this, engine, engine.store
      ensures Valid() && engine == old(engine)
      ensures View() == S.AfterBegin(world, old(View()), S.Begin(key, fp, outcome))
    {
      hide J.Keeps, Faithful, J.Step, J.LedgerStep, Storable, Onced;
      ghost var before := engine.store.State();
      r := engine.Begin(key, fp, now);
      match r {
        case Run(token) =>
          ghost var w := Write(key, engine.View().index[key]);
          LeaseIsFaithful(hash, key, outcome, token.fence, fp, SatAdd(now, world.cfg.lease));
          Books(before, engine.store.State(), w);
          books := Booked(w);
          inflight := inflight + [S.Worker(token, outcome, fp)];
        case Replay(replayed) =>
          assert key in committed && committed[key] == replayed;
          assert key in committedFp && committedFp[key] == fp;
        case Busy =>
        case Mismatch =>
      }
    }

    /** The oracles' share of a committed completion. */
    method RecordCommit(worker: S.Worker)
      requires world.mode.Strict? ==> S.Count(completes, worker.token.key) == 0
      requires world.mode.Strict? && worker.token.key in durable ==> durable[worker.token.key] == worker.outcome
      modifies this`committed, this`committedFp, this`completes, this`durable
      ensures var key := worker.token.key;
              && committed == old(committed)[key := worker.outcome]
              && committedFp == old(committedFp)[key := worker.fp]
              && (if world.mode.Strict?
                  then completes == old(completes)[key := S.Count(old(completes), key) + 1]
                       && durable == (if key in old(durable) then old(durable) else old(durable)[key := worker.outcome])
                  else completes == old(completes) && durable == old(durable))
    {
      var key := worker.token.key;
      committed := committed[key := worker.outcome];
      committedFp := committedFp[key := worker.fp];
      if world.mode.Strict? {
        var count := S.Count(completes, key) + 1;
        completes := completes[key := count];
        assert count == 1;
        MarkDurable(key, worker.outcome);
      }
    }

    method DoComplete(which: nat) returns (r: E.Completion)
      requires Valid() && which < |inflight| && !S.CompleteFires(world, View(), which)
      modifies this, engine.store
      ensures Valid() && engine == old(engine)
      ensures View() == S.AfterComplete(world, old(View()), which)
    {
      hide J.Keeps, Faithful, J.Step, J.LedgerStep, Storable, Onced, E.Complete, E.AfterComplete;
      CommittedState(engine.View(), inflight[which].token, inflight[which].outcome, now);
      var worker, key := inflight[which], inflight[which].token.key;
      inflight := S.Without(inflight, which);
      ghost var before := engine.store.State();
      r := engine.Complete(worker.token, worker.outcome, now);
      match r {
        case Committed =>
          ghost var w := Write(key, engine.View().index[key]);
          StorableIsFaithful(hash, key, worker.outcome, w.state.fingerprint, now);
          Books(before, engine.store.State(), w);
          books := Booked(w);
          RecordCommit(worker);
        case StaleFence =>
        case AlreadyCompleted =>
          assert key in committed;
        case Unknown =>
          assert world.mode.GroupCommit?;
      }
    }

    method MarkDurable(key: Text, outcome: CachedOutcome)
      requires key in durable ==> durable[key] == outcome
      modifies this`durable
      ensures durable == if key in old(durable) then old(durable) else old(durable)[key := outcome]
    {
      if key in durable {
        assert durable[key] == outcome;
      } else {
        durable := durable[key := outcome];
      }
    }

    method MarkAllDurable()
      requires !S.FlushFires(View())
      modifies this`durable
      ensures durable == committed + old(durable)
    {
      ghost var was := durable;
      var left := committed.Keys;
      while left != {}
        invariant left <= committed.Keys
        invariant forall key :: key in was ==> key in durable && durable[key] == was[key]
        invariant forall key :: key in durable ==> key in was || (key in committed && key !in left && durable[key] == committed[key])
        invariant forall key :: key in committed && key !in left ==> key in durable
        decreases left
      {
        var key :| key in left;
        MarkDurable(key, committed[key]);
        left := left - {key};
      }
      assert durable == committed + was;
    }

    method DoFlush()
      requires Valid() && !S.FlushFires(View())
      modifies this, engine.store
      ensures Valid() && engine == old(engine)
      ensures View() == S.AfterFlush(old(View()))
    {
      hide Storable, J.Keeps, Onced, S.FlushFires;
      MarkAllDurable();
      KeepsIndex(Onced(hash), engine.store.State(), books);
      J.CommitKeeps(Onced(hash), engine.store.State(), books);
      engine.Flush();
      books := J.LedgerStep(Onced(hash), books, J.Commit);
    }

    method DoAdvanceClock(jump: nat)
      requires Valid() && now + jump <= U64_MAX
      modifies this`now
      ensures Valid() && engine == old(engine)
      ensures View() == old(View()).(now := old(now) + jump)
    {
      hide J.Keeps, Storable, Onced;
      now := now + jump;
    }

    method CheckRecovered()
      requires engine.cfg == world.cfg
      requires forall key :: key in committed ==> Recovers(key)
      modifies engine, engine.store
      ensures engine.View() == old(engine.View()) && engine.store.State() == old(engine.store.State())
    {
      var left := committed.Keys;
      while left != {}
        invariant left <= committed.Keys
        invariant engine.View() == old(engine.View()) && engine.store.State() == old(engine.store.State())
        decreases left
      {
        var key :| key in left;
        assert old(Recovers(key));
        var fp := if key in committedFp then committedFp[key] else world.fallback(key);
        var got := engine.Begin(key, fp, now);
        assert got == E.Replay(committed[key]);
        left := left - {key};
      }
    }

    ghost predicate Recovers(key: Text)
      requires key in committed
      reads this, engine, engine.store
    {
      var fp := if key in committedFp then committedFp[key] else world.fallback(key);
      E.Begin(world.cfg, engine.View(), key, fp, now) == E.Replay(committed[key])
    }

    /** The process dies between two operations and recovers from the bytes of its log. */
    method DoCrash()
      requires Valid() && !S.CrashFires(world, View())
      modifies this
      ensures Valid() && fresh(engine) && fresh(engine.store)
      ensures View() == S.AfterCrash(world, old(View()))
    {
      hide Storable, Replay, J.Keeps, E.Begin, Onced;
      KeepsIndex(Onced(hash), engine.store.State(), books);
      var bytes := engine.store.file;
      Reopened(hash, bytes, books.durable, books.root);
      var r := OpenLog(hash, bytes);
      assert r.Ok?;
      var store := new WalStore.Recover(hash, bytes, r.value, world.mode.Strict?);
      engine := new O.Engine.WithTtl(store, world.cfg);
      books := J.Ledger(books.durable, books.root, []);
      if world.mode.GroupCommit? {
        committed := durable;
      }
      assert View() == S.AfterCrash(world, old(View()));
      assert forall key :: key in committed ==> Recovers(key);
      CheckRecovered();
    }

    ghost predicate Objects()
      reads this, engine, engine.store
    {
      Valid() && S.Inv(world, View()) && now < world.cfg.ttl
    }

    method Perform(a: S.Action)
      requires Objects() && S.Enabled(world, View(), a)
      requires a.Begin? ==> Storable(a.key, a.outcome) && engine.nextFence <= U64_MAX
      modifies this, engine, engine.store
      ensures Valid() && S.Inv(world, View()) && View() == S.Step(world, old(View()), a)
      ensures engine == old(engine) || (fresh(engine) && fresh(engine.store))
      ensures engine == old(engine) ==> engine.store == old(engine.store)
    {
      hide J.Keeps, Storable, Onced, S.Inv, S.BeginFires, S.CompleteFires, S.FlushFires, S.CrashFires;
      hide S.AfterBegin, S.AfterComplete, S.AfterFlush, S.AfterCrash;
      S.StepHolds(world, View(), a);
      match a {
        case Begin(key, fp, outcome) =>
          var _ := DoBegin(key, fp, outcome);
        case Complete(which) =>
          if which < |inflight| {
            var _ := DoComplete(which);
          }
        case Flush =>
          DoFlush();
        case Advance(jump) =>
          DoAdvanceClock(jump);
        case Crash =>
          DoCrash();
      }
    }

    /** Any schedule whose clock stays below the TTL is performed to its end: no assertion stops it. */
    method Run(actions: seq<S.Action>)
      requires Valid() && View() == S.NEW
      requires world.mode.Strict? || S.OneFingerprintPerKey(world)
      requires S.Schedule(world, S.NEW, actions) && S.Clock(S.NEW, actions) < world.cfg.ttl
      requires forall i :: 0 <= i < |actions| && actions[i].Begin? ==> Storable(actions[i].key, actions[i].outcome)
      requires |actions| < U64_MAX
      modifies this, engine, engine.store
      ensures Valid() && View() == S.Outcome(world, S.NEW, actions)
    {
      hide Valid, J.Keeps, Storable, Onced, S.Inv, S.Step;
      S.NewInv(world);
      assert actions[0..] == actions;
      var i := 0;
      while i < |actions|
        invariant 0 <= i <= |actions|
        invariant Valid() && S.Inv(world, View()) && S.FencesBelow(View(), i + 1)
        invariant S.Schedule(world, View(), actions[i..]) && S.Clock(View(), actions[i..]) < world.cfg.ttl
        invariant S.Outcome(world, S.NEW, actions) == S.Outcome(world, View(), actions[i..])
        invariant engine == old(engine) || (fresh(engine) && fresh(engine.store))
        invariant engine == old(engine) ==> engine.store == old(engine.store)
      {
        var a := actions[i];
        assert actions[i..][0] == a && actions[i..][1..] == actions[i + 1..];
        S.ClockOnlyAdvances(View(), actions[i..]);
        S.ClockSplits(world, View(), actions[i..]);
        S.FencesStayBelow(world, View(), a, i + 1);
        Perform(a);
        i := i + 1;
      }
    }
  }
}
