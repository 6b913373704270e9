/** Splitting the keys over shards cannot be seen from outside: for every interleaving the router answers
    as one engine over the union of the shards' stores would, up to the names of the fences. */
module Sharding {
  import opened Prelude
  import opened Keys
  import opened Http
  import E = Engine
  import G = Gateway
  import opened Router

  /** Tokens of the sharded router and the tokens the single engine holds in their place. */
  type Renaming = map<E.Token, E.Token>

  predicate SameState(key: Text, x: KeyState, y: KeyState, ren: Renaming) {
    match x
    case Completed(_, _, _) => y == x
    case InProgress(fence, fp, lease) =>
      && y.InProgress? && y.fingerprint == fp && y.leaseExpiresAt == lease
      && E.Token(key, fence) in ren && ren[E.Token(key, fence)] == E.Token(key, y.fence)
  }

  /** A completed key past its TTL by `since`: whether a sweep has dropped it cannot matter any more. */
  predicate Stale(cfg: E.Config, since: u64, s: KeyState) {
    s.Completed? && E.Expired(cfg, s, since)
  }

  predicate SameKey(cfg: E.Config, since: u64, key: Text, x: Index, y: Index, ren: Renaming) {
    && (key in x && key in y ==> SameState(key, x[key], y[key], ren))
    && (key in x && key !in y ==> Stale(cfg, since, x[key]))
    && (key in y && key !in x ==> Stale(cfg, since, y[key]))
  }

  ghost predicate SameKeys(w: World, since: u64, a: System, b: System, ren: Renaming)
    requires a.shards != [] && b.shards != []
  {
    forall key ::
      SameKey(w.service.cfg, since, key, a.shards[ShardOf(w, |a.shards|, key)].engine.index, b.shards[0].engine.index, ren)
  }

  predicate SameTicket(w: World, n: nat, p: Pending, q: Pending, ren: Renaming)
    requires n > 0
  {
    && p.now == q.now
    && (p.ticket.token.None? <==> q.ticket.token.None?)
    && (p.ticket.token.Some? ==>
          && p.ticket.token.value in ren && ren[p.ticket.token.value] == q.ticket.token.value
          && p.shard == ShardOf(w, n, p.ticket.token.value.key))
  }

  ghost predicate SameTickets(w: World, n: nat, x: map<nat, Pending>, y: map<nat, Pending>, ren: Renaming)
    requires n > 0
  {
    && x.Keys == y.Keys
    && forall id :: id in x ==> SameTicket(w, n, x[id], y[id], ren)
  }

  /** Keys keep their names, distinct tokens stay distinct, and no token is still to be minted. */
  ghost predicate Injective(w: World, a: System, b: System, ren: Renaming)
    requires a.shards != [] && b.shards != []
  {
    && (forall t :: t in ren ==>
          && ren[t].key == t.key
          && t.fence < a.shards[ShardOf(w, |a.shards|, t.key)].engine.next
          && ren[t].fence < b.shards[0].engine.next)
    && forall t, u :: t in ren && u in ren && ren[t] == ren[u] ==> t == u
  }

  ghost predicate Related(w: World, since: u64, a: System, b: System, ren: Renaming) {
    && Placed(a) && Placed(b) && |b.shards| == 1
    && a.arrived == b.arrived
    && SameKeys(w, since, a, b, ren) && SameTickets(w, |a.shards|, a.open, b.open, ren) && Injective(w, a, b, ren)
    && Aggregate(a) == Aggregate(b)
  }

  // ---- One engine step ----

  /** The renaming after a begin: a minted token is paired with the one minted in its place. */
  function Grown(p: E.Answer, q: E.Answer, ren: Renaming): Renaming {
    if p.Run? && q.Run? then ren[p.token := q.token] else ren
  }

  lemma BeginMatches(cfg: E.Config, since: u64, x: E.State, y: E.State, key: Text, fp: Digest, now: u64, ren: Renaming)
    requires SameKey(cfg, since, key, x.index, y.index, ren) && now >= since
    ensures var p, q := E.Begin(cfg, x, key, fp, now), E.Begin(cfg, y, key, fp, now);
            && (p.Run? <==> q.Run?) && (!p.Run? ==> p == q)
            && SameKey(cfg, since, key, E.AfterBegin(cfg, x, key, fp, now).index, E.AfterBegin(cfg, y, key, fp, now).index, Grown(p, q, ren))
  {
  }

  lemma CompleteMatches(cfg: E.Config, since: u64, x: E.State, y: E.State, t: E.Token, outcome: CachedOutcome, now: u64, ren: Renaming)
    requires SameKey(cfg, since, t.key, x.index, y.index, ren)
    requires t in ren && ren[t].key == t.key
    requires forall u, v :: u in ren && v in ren && ren[u] == ren[v] ==> u == v
    ensures SameKey(cfg, since, t.key, E.AfterComplete(x, t, outcome, now).index, E.AfterComplete(y, ren[t], outcome, now).index, ren)
    ensures E.Complete(x, t).Committed? <==> E.Complete(y, ren[t]).Committed?
  {
    if t.key in x.index && x.index[t.key].InProgress? {
      var u := E.Token(t.key, x.index[t.key].fence);
      assert u in ren;
      assert ren[u] == ren[t] <==> u == t;
    }
  }

  // ---- One router step ----

  lemma Counts(w: World, a: System, b: System, ev: Event)
    requires Placed(a) && Placed(b) && Aggregate(a) == Aggregate(b)
    requires Moved(w, a, ev) == Moved(w, b, ev)
    ensures Aggregate(Step(w, a, ev)) == Aggregate(Step(w, b, ev))
  {
    AggregateMoves(w, a, ev);
    AggregateMoves(w, b, ev);
  }

  lemma KeysAfterArrive(w: World, since: u64, a: System, b: System, r: Request, now: u64, ren: Renaming)
    requires Related(w, since, a, b, ren) && G.KeyOf(r).Some? && now >= since
    ensures var key := G.KeyOf(r).value;
            var p := G.Ask(w.service, a.shards[Route(w, a, r)], key, r, now);
            var q := G.Ask(w.service, b.shards[0], key, r, now);
            && (p.Run? <==> q.Run?) && (!p.Run? ==> p == q)
            && SameKeys(w, since, Arrived(w, a, r, now), Arrived(w, b, r, now), Grown(p, q, ren))
  {
    hide G.KeyOf, G.Fingerprint, E.Begin, E.AfterBegin, SameState, Aggregate, SameTickets;
    var key := G.KeyOf(r).value;
    var i := Route(w, a, r);
    var x, y := a.shards[i].engine, b.shards[0].engine;
    var fp := G.Fingerprint(w.service, r);
    assert SameKey(w.service.cfg, since, key, x.index, y.index, ren);
    BeginMatches(w.service.cfg, since, x, y, key, fp, now, ren);
    Mints(w.service.cfg, x, key, fp, now);
    var p, q := E.Begin(w.service.cfg, x, key, fp, now), E.Begin(w.service.cfg, y, key, fp, now);
    var a', b' := Arrived(w, a, r, now), Arrived(w, b, r, now);
    assert Route(w, b, r) == 0;
    forall k
      ensures SameKey(w.service.cfg, since, k, a'.shards[ShardOf(w, |a'.shards|, k)].engine.index, b'.shards[0].engine.index, Grown(p, q, ren))
    {
      if k != key {
        assert SameKey(w.service.cfg, since, k, a.shards[ShardOf(w, |a.shards|, k)].engine.index, y.index, ren);
        OtherKey(w.service.cfg, x, key, fp, now, k);
        OtherKey(w.service.cfg, y, key, fp, now, k);
        StaysSame(w.service.cfg, since, k, a.shards[ShardOf(w, |a.shards|, k)].engine.index, y.index, ren, p, q);
      }
    }
  }

  lemma OtherKey(cfg: E.Config, x: E.State, key: Text, fp: Digest, now: u64, k: Text)
    requires k != key
    ensures k in E.AfterBegin(cfg, x, key, fp, now).index <==> k in x.index
    ensures k in x.index ==> E.AfterBegin(cfg, x, key, fp, now).index[k] == x.index[k]
  {
  }

  lemma StaysSame(cfg: E.Config, since: u64, k: Text, x: Index, y: Index, ren: Renaming, p: E.Answer, q: E.Answer)
    requires SameKey(cfg, since, k, x, y, ren)
    requires p.Run? ==> p.token.key != k
    ensures SameKey(cfg, since, k, x, y, Grown(p, q, ren))
  {
  }

  lemma Mints(cfg: E.Config, x: E.State, key: Text, fp: Digest, now: u64)
    ensures var answer := E.Begin(cfg, x, key, fp, now);
            && (answer.Run? ==> answer.token == E.Token(key, x.next))
            && E.AfterBegin(cfg, x, key, fp, now).next == if answer.Run? then x.next + 1 else x.next
  {
  }

  function AfterEvent(w: World, a: System, b: System, ev: Event, ren: Renaming): Renaming
    requires Placed(a) && Placed(b)
  {
    if ev.Arrive? && G.KeyOf(ev.request).Some? then
      var key := G.KeyOf(ev.request).value;
      Grown(G.Ask(w.service, a.shards[Route(w, a, ev.request)], key, ev.request, ev.now),
            G.Ask(w.service, b.shards[Route(w, b, ev.request)], key, ev.request, ev.now), ren)
    else ren
  }

  lemma GrownIsInjective(w: World, since: u64, a: System, b: System, r: Request, now: u64, ren: Renaming)
    requires Related(w, since, a, b, ren) && G.KeyOf(r).Some? && now >= since
    ensures Injective(w, Arrived(w, a, r, now), Arrived(w, b, r, now), AfterEvent(w, a, b, Arrive(r, now), ren))
  {
    hide Aggregate, E.Begin, E.AfterBegin, G.Fingerprint, G.KeyOf, SameKeys, SameTickets, ShardOf, G.BeginPhase, G.Merge;
    var key, fp := G.KeyOf(r).value, G.Fingerprint(w.service, r);
    KeysAfterArrive(w, since, a, b, r, now, ren);
    Mints(w.service.cfg, a.shards[Route(w, a, r)].engine, key, fp, now);
    Mints(w.service.cfg, b.shards[0].engine, key, fp, now);
  }

  lemma TicketsGrow(w: World, n: nat, x: map<nat, Pending>, y: map<nat, Pending>, ren: Renaming, ren': Renaming)
    requires n > 0 && SameTickets(w, n, x, y, ren)
    requires forall t :: t in ren ==> t in ren' && ren'[t] == ren[t]
    ensures SameTickets(w, n, x, y, ren')
  {
  }

  /** A minted token is new, so the renaming only grows. */
  lemma Grows(w: World, since: u64, a: System, b: System, r: Request, now: u64, ren: Renaming)
    requires Related(w, since, a, b, ren) && G.KeyOf(r).Some?
    ensures var ren' := AfterEvent(w, a, b, Arrive(r, now), ren);
            forall t :: t in ren ==> t in ren' && ren'[t] == ren[t]
  {
    hide Aggregate, E.Begin, E.AfterBegin, G.Fingerprint, G.KeyOf, SameKeys, SameTickets, ShardOf;
    Mints(w.service.cfg, a.shards[Route(w, a, r)].engine, G.KeyOf(r).value, G.Fingerprint(w.service, r), now);
  }

  lemma TicketsAdd(w: World, n: nat, x: map<nat, Pending>, y: map<nat, Pending>, ren: Renaming, id: nat, p: Pending, q: Pending)
    requires n > 0 && SameTickets(w, n, x, y, ren) && SameTicket(w, n, p, q, ren)
    ensures SameTickets(w, n, x[id := p], y[id := q], ren)
  {
  }

  lemma TicketsAfterArrive(w: World, since: u64, a: System, b: System, r: Request, now: u64, ren: Renaming)
    requires Related(w, since, a, b, ren) && G.KeyOf(r).Some? && now >= since
    ensures SameTickets(w, |a.shards|, Arrived(w, a, r, now).open, Arrived(w, b, r, now).open,
                        AfterEvent(w, a, b, Arrive(r, now), ren))
  {
    hide Aggregate, E.Begin, E.AfterBegin, G.AfterBegin, G.Fingerprint, G.KeyOf, G.PhaseOf, SameKeys, SameTickets, ShardOf, Injective;
    var key, fp := G.KeyOf(r).value, G.Fingerprint(w.service, r);
    var i := Route(w, a, r);
    KeysAfterArrive(w, since, a, b, r, now, ren);
    Grows(w, since, a, b, r, now, ren);
    var ren' := AfterEvent(w, a, b, Arrive(r, now), ren);
    TicketsGrow(w, |a.shards|, a.open, b.open, ren, ren');
    var p, q := G.Ask(w.service, a.shards[i], key, r, now), G.Ask(w.service, b.shards[0], key, r, now);
    G.PhaseForwards(p);
    G.PhaseForwards(q);
    Mints(w.service.cfg, a.shards[i].engine, key, fp, now);
    if p.Run? {
      TicketsAdd(w, |a.shards|, a.open, b.open, ren', a.arrived,
                 Pending(i, G.Ticket(Some(p.token)), now), Pending(0, G.Ticket(Some(q.token)), now));
    }
  }

  lemma KeyedArrival(w: World, since: u64, a: System, b: System, r: Request, now: u64, ren: Renaming)
    requires Related(w, since, a, b, ren) && G.KeyOf(r).Some? && now >= since
    ensures Related(w, since, Arrived(w, a, r, now), Arrived(w, b, r, now), AfterEvent(w, a, b, Arrive(r, now), ren))
    ensures Reply(w, a, Arrive(r, now)) == Reply(w, b, Arrive(r, now))
  {
    hide Aggregate, E.Begin, E.AfterBegin, G.AfterBegin, G.Fingerprint, G.KeyOf, G.PhaseOf, G.Counted, SameKeys, SameTickets, ShardOf, Injective, Arrived;
    KeysAfterArrive(w, since, a, b, r, now, ren);
    GrownIsInjective(w, since, a, b, r, now, ren);
    TicketsAfterArrive(w, since, a, b, r, now, ren);
    var key := G.KeyOf(r).value;
    var p, q := G.Ask(w.service, a.shards[Route(w, a, r)], key, r, now), G.Ask(w.service, b.shards[0], key, r, now);
    RunCounts(p, q);
    G.PhaseForwards(p);
    G.PhaseForwards(q);
    Counts(w, a, b, Arrive(r, now));
    assert Step(w, a, Arrive(r, now)) == Arrived(w, a, r, now);
    assert Step(w, b, Arrive(r, now)) == Arrived(w, b, r, now);
    assert Arrived(w, a, r, now).arrived == a.arrived + 1 && Arrived(w, b, r, now).arrived == b.arrived + 1 by {
      ArrivalNumber(w, a, r, now);
      ArrivalNumber(w, b, r, now);
    }
  }

  lemma ArrivalNumber(w: World, s: System, r: Request, now: u64)
    requires s.shards != []
    ensures Arrived(w, s, r, now).arrived == s.arrived + 1
  {
  }

  lemma RunCounts(p: E.Answer, q: E.Answer)
    requires (p.Run? <==> q.Run?) && (!p.Run? ==> p == q)
    ensures G.Counted(p) == G.Counted(q)
  {
  }

  lemma KeylessArrival(w: World, since: u64, a: System, b: System, r: Request, now: u64, ren: Renaming)
    requires Related(w, since, a, b, ren) && G.KeyOf(r).None?
    ensures Related(w, since, Arrived(w, a, r, now), Arrived(w, b, r, now), ren)
    ensures Reply(w, a, Arrive(r, now)) == Reply(w, b, Arrive(r, now))
  {
    hide Aggregate, G.KeyOf, G.Merge, SameKey, SameTickets, ShardOf;
    Counts(w, a, b, Arrive(r, now));
    var a', b' := Arrived(w, a, r, now), Arrived(w, b, r, now);
    assert forall i :: 0 <= i < |a.shards| ==> a'.shards[i].engine == a.shards[i].engine;
    assert b'.shards[0].engine == b.shards[0].engine;
    TicketsAdd(w, |a.shards|, a.open, b.open, ren, a.arrived,
               Pending(Route(w, a, r), G.Ticket(None), now), Pending(0, G.Ticket(None), now));
  }

  lemma KeysAfterFinish(w: World, since: u64, a: System, b: System, id: nat, forwarded: Option<Response>, ren: Renaming)
    requires Related(w, since, a, b, ren) && id in a.open
    ensures SameKeys(w, since, Finished(a, id, forwarded), Finished(b, id, forwarded), ren)
  {
    hide Aggregate, E.AfterComplete, SameState, ShardOf, G.Merge, G.ToOutcome;
    var p, q := a.open[id], b.open[id];
    assert SameTicket(w, |a.shards|, p, q, ren);
    var a', b' := Finished(a, id, forwarded), Finished(b, id, forwarded);
    if p.ticket.token.Some? && G.Final(forwarded) {
      var t, outcome := p.ticket.token.value, G.ToOutcome(forwarded.value);
      var x, y := a.shards[p.shard].engine, b.shards[0].engine;
      assert SameKey(w.service.cfg, since, t.key, x.index, y.index, ren);
      CompleteMatches(w.service.cfg, since, x, y, t, outcome, p.now, ren);
      forall k
        ensures SameKey(w.service.cfg, since, k, a'.shards[ShardOf(w, |a'.shards|, k)].engine.index, b'.shards[0].engine.index, ren)
      {
        if k != t.key {
          assert SameKey(w.service.cfg, since, k, a.shards[ShardOf(w, |a.shards|, k)].engine.index, y.index, ren);
          OtherToken(x, t, outcome, p.now, k);
          OtherToken(y, ren[t], outcome, p.now, k);
        }
      }
    } else {
      assert forall i :: 0 <= i < |a.shards| ==> a'.shards[i].engine == a.shards[i].engine;
      assert b'.shards[0].engine == b.shards[0].engine;
    }
  }

  lemma OtherToken(x: E.State, t: E.Token, outcome: CachedOutcome, now: u64, k: Text)
    requires k != t.key
    ensures k in E.AfterComplete(x, t, outcome, now).index <==> k in x.index
    ensures k in x.index ==> E.AfterComplete(x, t, outcome, now).index[k] == x.index[k]
  {
  }

  lemma Finishing(w: World, since: u64, a: System, b: System, id: nat, forwarded: Option<Response>, ren: Renaming)
    requires Related(w, since, a, b, ren) && id in a.open
    ensures Related(w, since, Finished(a, id, forwarded), Finished(b, id, forwarded), ren)
    ensures Reply(w, a, Finish(id, forwarded)) == Reply(w, b, Finish(id, forwarded))
  {
    hide Aggregate, SameKeys, Injective, SameTicket, G.AfterComplete, G.CompletePhase, G.Settled, ShardOf;
    SameSettled(w, |a.shards|, a.open[id], b.open[id], forwarded, ren);
    KeysAfterFinish(w, since, a, b, id, forwarded, ren);
    StaysInjective(w, a, b, id, forwarded, ren);
    Counts(w, a, b, Finish(id, forwarded));
  }

  lemma StaysInjective(w: World, a: System, b: System, id: nat, forwarded: Option<Response>, ren: Renaming)
    requires Placed(a) && Placed(b) && id in a.open && id in b.open && Injective(w, a, b, ren)
    ensures Injective(w, Finished(a, id, forwarded), Finished(b, id, forwarded), ren)
  {
    hide G.AfterComplete, ShardOf;
    FinishKeepsCounters(a, id, forwarded);
    FinishKeepsCounters(b, id, forwarded);
  }

  lemma FinishKeepsCounters(s: System, id: nat, forwarded: Option<Response>)
    requires Placed(s) && id in s.open
    ensures var t := Finished(s, id, forwarded);
            forall i :: 0 <= i < |s.shards| ==> t.shards[i].engine.next == s.shards[i].engine.next
  {
    hide G.Merge, G.ToOutcome, G.Settled, E.Complete;
  }

  lemma SameSettled(w: World, n: nat, p: Pending, q: Pending, forwarded: Option<Response>, ren: Renaming)
    requires n > 0 && SameTicket(w, n, p, q, ren)
    ensures G.Settled(p.ticket, forwarded) == G.Settled(q.ticket, forwarded)
    ensures G.CompletePhase(p.ticket, forwarded) == G.CompletePhase(q.ticket, forwarded)
  {
    hide G.Tag, G.TaggedStatus, G.Final, Ascii, ShardOf;
  }

  predicate OnTime(ev: Event, since: u64) {
    ev.Arrive? && G.KeyOf(ev.request).Some? ==> ev.now >= since
  }

  /** The time of the latest sweep. */
  function Later(ev: Event, since: u64): u64 {
    if ev.Prune? && ev.now > since then ev.now else since
  }

  /** A sweep drops only what has outlived its TTL, wherever it is. */
  lemma SweptSame(cfg: E.Config, since: u64, key: Text, x: E.State, y: E.State, x': E.State, y': E.State, now: u64, ren: Renaming)
    requires SameKey(cfg, since, key, x.index, y.index, ren)
    requires x' == x || x' == E.AfterPrune(cfg, x, now)
    requires y' == y || y' == E.AfterPrune(cfg, y, now)
    ensures SameKey(cfg, if now > since then now else since, key, x'.index, y'.index, ren)
  {
  }

  lemma Sweeping(w: World, since: u64, a: System, b: System, shard: nat, now: u64, ren: Renaming)
    requires Related(w, since, a, b, ren)
    ensures Related(w, Later(Prune(shard, now), since), Step(w, a, Prune(shard, now)), Step(w, b, Prune(shard, now)), ren)
  {
    hide Aggregate, SameKey, SameTicket, ShardOf, E.AfterPrune;
    var ev := Prune(shard, now);
    Counts(w, a, b, ev);
    var a', b', later := Step(w, a, ev), Step(w, b, ev), Later(ev, since);
    forall i | 0 <= i < |a.shards|
      ensures a'.shards[i].engine == a.shards[i].engine
           || a'.shards[i].engine == E.AfterPrune(w.service.cfg, a.shards[i].engine, now)
      ensures a'.shards[i].engine.next == a.shards[i].engine.next
    {
      PruneKeepsCounter(w.service.cfg, a.shards[i].engine, now);
    }
    PruneKeepsCounter(w.service.cfg, b.shards[0].engine, now);
    forall key
      ensures SameKey(w.service.cfg, later, key, a'.shards[ShardOf(w, |a'.shards|, key)].engine.index, b'.shards[0].engine.index, ren)
    {
      var i := ShardOf(w, |a.shards|, key);
      SweptSame(w.service.cfg, since, key, a.shards[i].engine, b.shards[0].engine,
                a'.shards[i].engine, b'.shards[0].engine, now, ren);
    }
  }

  lemma PruneKeepsCounter(cfg: E.Config, e: E.State, now: u64)
    ensures E.AfterPrune(cfg, e, now).next == e.next
  {
  }

  lemma StepMatches(w: World, since: u64, a: System, b: System, ev: Event, ren: Renaming)
    requires Related(w, since, a, b, ren) && OnTime(ev, since)
    ensures Related(w, Later(ev, since), Step(w, a, ev), Step(w, b, ev), AfterEvent(w, a, b, ev, ren))
    ensures Reply(w, a, ev) == Reply(w, b, ev)
  {
    hide Aggregate, SameKeys, Injective, SameTicket, Arrived, Finished, Swept, Reply;
    match ev {
      case Arrive(r, now) =>
        if G.KeyOf(r).Some? {
          KeyedArrival(w, since, a, b, r, now, ren);
        } else {
          KeylessArrival(w, since, a, b, r, now, ren);
        }
      case Finish(id, forwarded) =>
        if id in a.open {
          Finishing(w, since, a, b, id, forwarded, ren);
        } else {
          Unanswered(w, a, ev);
          Unanswered(w, b, ev);
        }
      case Refuse =>
        Unanswered(w, a, ev);
        Unanswered(w, b, ev);
        Refusing(w, since, a, b, ren);
      case Prune(shard, now) =>
        Unanswered(w, a, ev);
        Unanswered(w, b, ev);
        Sweeping(w, since, a, b, shard, now, ren);
    }
  }

  lemma Unanswered(w: World, s: System, ev: Event)
    requires Placed(s) && !ev.Arrive? && (ev.Finish? ==> ev.id !in s.open)
    ensures Reply(w, s, ev) == None
  {
  }

  lemma Refusing(w: World, since: u64, a: System, b: System, ren: Renaming)
    requires Related(w, since, a, b, ren)
    ensures Related(w, since, Step(w, a, Refuse), Step(w, b, Refuse), ren)
  {
    hide Aggregate, SameKey, SameTicket, ShardOf;
    Counts(w, a, b, Refuse);
  }

  // ---- Whole runs ----

  /** No keyed request looks at a clock behind an earlier sweep's. Without sweeps this asks nothing. */
  predicate Timely(events: seq<Event>, since: u64) {
    events == [] || (OnTime(events[0], since) && Timely(events[1..], Later(events[0], since)))
  }

  function LatestSweep(events: seq<Event>, since: u64): u64 {
    if events == [] then since else LatestSweep(events[1..], Later(events[0], since))
  }

  /** Related systems answer alike and stay related, whatever happens in whatever order. */
  lemma {:induction false} RunsMatch(w: World, since: u64, a: System, b: System, events: seq<Event>, ren: Renaming)
    returns (grown: Renaming)
    requires Related(w, since, a, b, ren) && Timely(events, since)
    ensures Replies(w, a, events) == Replies(w, b, events)
    ensures Related(w, LatestSweep(events, since), Run(w, a, events), Run(w, b, events), grown)
    decreases |events|
  {
    hide Related, Step, Reply, OnTime, Later;
    assert Placed(a) && Placed(b) by {
      RelatedIsPlaced(w, since, a, b, ren);
    }
    if events == [] {
      grown := ren;
    } else {
      StepMatches(w, since, a, b, events[0], ren);
      grown := RunsMatch(w, Later(events[0], since), Step(w, a, events[0]), Step(w, b, events[0]), events[1..],
                         AfterEvent(w, a, b, events[0], ren));
    }
  }

  lemma RelatedIsPlaced(w: World, since: u64, a: System, b: System, ren: Renaming)
    requires Related(w, since, a, b, ren)
    ensures Placed(a) && Placed(b)
  {
  }

  /** Each shard holds only keys routed to it. */
  ghost predicate Owned(w: World, engines: seq<E.State>) {
    && engines != []
    && forall i, key :: 0 <= i < |engines| && key in engines[i].index ==> ShardOf(w, |engines|, key) == i
  }

  function Union(engines: seq<E.State>): Index {
    if engines == [] then map[] else Union(engines[..|engines| - 1]) + engines[|engines| - 1].index
  }

  lemma {:induction false} UnionHolds(engines: seq<E.State>, i: nat, key: Text)
    requires i < |engines|
    requires forall j :: 0 <= j < |engines| && key in engines[j].index ==> j == i
    ensures key in Union(engines) <==> key in engines[i].index
    ensures key in Union(engines) ==> Union(engines)[key] == engines[i].index[key]
  {
    var n := |engines| - 1;
    if i < n {
      UnionHolds(engines[..n], i, key);
    } else {
      UnionMisses(engines[..n], key);
    }
  }

  lemma {:induction false} UnionMisses(engines: seq<E.State>, key: Text)
    requires forall j :: 0 <= j < |engines| ==> key !in engines[j].index
    ensures key !in Union(engines)
  {
    if engines != [] {
      UnionMisses(engines[..|engines| - 1], key);
    }
  }

  ghost function Identity(index: Index): Renaming {
    map key | key in index && index[key].InProgress? :: E.Token(key, index[key].fence) := E.Token(key, index[key].fence)
  }

  lemma StartsSame(w: World, engines: seq<E.State>, key: Text)
    requires Owned(w, engines)
    ensures var x := engines[ShardOf(w, |engines|, key)].index;
            && SameKey(w.service.cfg, 0, key, x, Union(engines), Identity(Union(engines)))
            && (key in Union(engines) ==> key in x && Union(engines)[key] == x[key])
  {
    hide Union, ShardOf;
    UnionHolds(engines, ShardOf(w, |engines|, key), key);
    var index := Union(engines);
    if key in index && index[key].InProgress? {
      assert E.Token(key, index[key].fence) in Identity(index);
    }
  }

  lemma StartedParts(engines: seq<E.State>)
    requires engines != []
    ensures var s := Started(engines);
            && |s.shards| == |engines| && s.open == map[] && s.arrived == 0
            && forall i :: 0 <= i < |engines| ==> s.shards[i].engine == engines[i]
  {
  }

  /** One engine over the union of the shards' stores. */
  ghost predicate Single(engines: seq<E.State>, one: E.State) {
    one.index == Union(engines) && E.Fenced(one)
  }

  lemma StartsInjective(w: World, engines: seq<E.State>, one: E.State)
    requires Owned(w, engines) && Single(engines, one)
    requires forall i :: 0 <= i < |engines| ==> E.Fenced(engines[i])
    ensures Injective(w, Started(engines), Started([one]), Identity(one.index))
  {
    hide Union, ShardOf, Started, SameKey;
    StartedParts(engines);
    StartedParts([one]);
    forall t | t in Identity(one.index)
      ensures Identity(one.index)[t] == t && t.fence < engines[ShardOf(w, |engines|, t.key)].next && t.fence < one.next
    {
      StartsSame(w, engines, t.key);
    }
  }

  lemma StartsRelated(w: World, engines: seq<E.State>, one: E.State)
    requires Owned(w, engines) && Single(engines, one)
    requires forall i :: 0 <= i < |engines| ==> E.Fenced(engines[i])
    ensures Related(w, 0, Started(engines), Started([one]), Identity(one.index))
  {
    hide Aggregate, Union, Identity, Injective, ShardOf, Started, SameKey;
    StartedAgree(engines, [one]);
    StartedParts(engines);
    StartedParts([one]);
    StartsInjective(w, engines, one);
    var a, b := Started(engines), Started([one]);
    forall key
      ensures SameKey(w.service.cfg, 0, key, a.shards[ShardOf(w, |a.shards|, key)].engine.index, b.shards[0].engine.index, Identity(one.index))
    {
      StartsSame(w, engines, key);
    }
  }

  lemma StartedAgree(p: seq<E.State>, q: seq<E.State>)
    requires p != [] && q != []
    ensures Placed(Started(p)) && Placed(Started(q)) && Aggregate(Started(p)) == Aggregate(Started(q))
  {
    hide Aggregate, Started;
    StartedBalances(p);
    StartedBalances(q);
  }

  /** The router over any shards, swept one at a time, gives every request the answers one engine over
      the union of their stores gives it, keeps the same counters, and ends in the same state up to an
      injective renaming of its fences and to keys past their TTL. */
  lemma ShardingIsInvisible(w: World, engines: seq<E.State>, one: E.State, events: seq<Event>)
    requires Owned(w, engines) && Single(engines, one) && Timely(events, 0)
    requires forall i :: 0 <= i < |engines| ==> E.Fenced(engines[i])
    ensures Placed(Started(engines)) && Placed(Started([one]))
    ensures Replies(w, Started(engines), events) == Replies(w, Started([one]), events)
    ensures Aggregate(Run(w, Started(engines), events)) == Aggregate(Run(w, Started([one]), events))
    ensures exists ren ::
              Related(w, LatestSweep(events, 0), Run(w, Started(engines), events), Run(w, Started([one]), events), ren)
  {
    hide Union, Aggregate, Replies, Run, Timely, LatestSweep;
    StartsRelated(w, engines, one);
    var grown := RunsMatch(w, 0, Started(engines), Started([one]), events, Identity(one.index));
  }

  /** Whether a keyed request is answered at once depends on what its engine's store shows for the key. */
  lemma AnsweredAtOnce(w: World, s: System, r: Request, now: u64, key: Text)
    requires Placed(s) && G.KeyOf(r) == Some(key)
    ensures var e, fp := s.shards[Route(w, s, r)].engine, G.Fingerprint(w.service, r);
            Reply(w, s, Arrive(r, now))
            == match G.PhaseOf(E.Begin(w.service.cfg, e, key, fp, now)) case Done(x) => Some(x) case Forward(_) => None
  {
    hide G.KeyOf, G.PhaseOf, G.Fingerprint, E.Begin;
  }

  lemma TwoReplies(w: World, s: System, shard: nat, time: u64, r: Request, now: u64)
    requires Placed(s)
    ensures Replies(w, s, [Prune(shard, time), Arrive(r, now)])
         == [None, Reply(w, Step(w, s, Prune(shard, time)), Arrive(r, now))]
  {
    hide Step, Reply;
    var events, t := [Prune(shard, time), Arrive(r, now)], Step(w, s, Prune(shard, time));
    Unanswered(w, s, Prune(shard, time));
    assert events[1..] == [Arrive(r, now)] && [Arrive(r, now)][1..] == [];
    assert Replies(w, t, [Arrive(r, now)]) == [Reply(w, t, Arrive(r, now))] + [];
  }

  /** Two engines, one of which may have been pruned, answer a request under `key` differently. */
  lemma PrunedOnOneSide(cfg: E.Config, x: E.State, y: E.State, p: bool, q: bool, time: u64, key: Text, fp: Digest, now: u64)
    requires (key in x.index <==> key in y.index) && (key in x.index ==> x.index[key] == y.index[key])
    ensures var x', y' := if p then E.AfterPrune(cfg, x, time) else x, if q then E.AfterPrune(cfg, y, time) else y;
            var a, b := E.Begin(cfg, x', key, fp, now), E.Begin(cfg, y', key, fp, now);
            && (a.Run? != b.Run? <==>
                  p != q && key in x.index && Stale(cfg, time, x.index[key]) && !E.Expired(cfg, x.index[key], now))
            && (!a.Run? && !b.Run? ==> a == b)
  {
  }

  /** The condition on the clocks is exact. After a sweep of one shard a request is answered differently
      by the router and by the single engine, whose only shard is number 0, if and only if one of the two
      has lost the key to the sweep and the request's clock is behind the key's expiry. */
  lemma UntimelyShowsIff(w: World, engines: seq<E.State>, one: E.State, shard: nat, time: u64, r: Request, now: u64, key: Text)
    requires Owned(w, engines) && Single(engines, one) && shard < |engines| && G.KeyOf(r) == Some(key)
    ensures var events := [Prune(shard, time), Arrive(r, now)];
            Replies(w, Started(engines), events) != Replies(w, Started([one]), events)
            <==>
            && (ShardOf(w, |engines|, key) == shard) != (shard == 0)
            && key in one.index && Stale(w.service.cfg, time, one.index[key]) && !E.Expired(w.service.cfg, one.index[key], now)
  {
    hide Union, ShardOf, Started, Replies, Reply, SameKey, E.Begin, E.AfterPrune, G.PhaseOf, G.Fingerprint, G.KeyOf, Aggregate;
    var a, b := Started(engines), Started([one]);
    StartedParts(engines);
    StartedParts([one]);
    StartedAgree(engines, [one]);
    StartsSame(w, engines, key);
    TwoReplies(w, a, shard, time, r, now);
    TwoReplies(w, b, shard, time, r, now);
    var a', b' := Step(w, a, Prune(shard, time)), Step(w, b, Prune(shard, time));
    AnsweredAtOnce(w, a', r, now, key);
    AnsweredAtOnce(w, b', r, now, key);
    var i, cfg, fp := ShardOf(w, |engines|, key), w.service.cfg, G.Fingerprint(w.service, r);
    UnionHolds(engines, i, key);
    PrunedOnOneSide(cfg, engines[i], one, i == shard, shard == 0, time, key, fp, now);
    assert a'.shards[i].engine == if i == shard then E.AfterPrune(cfg, engines[i], time) else engines[i];
    assert b'.shards[0].engine == if shard == 0 then E.AfterPrune(cfg, one, time) else one;
    G.PhaseForwards(E.Begin(cfg, a'.shards[i].engine, key, fp, now));
    G.PhaseForwards(E.Begin(cfg, b'.shards[0].engine, key, fp, now));
  }

  /** The engines of a router started over the given stores. */
  ghost function SeededEach(stores: seq<Index>): (engines: seq<E.State>)
    ensures |engines| == |stores|
    ensures forall i :: 0 <= i < |stores| ==> engines[i] == E.Seeded(stores[i])
  {
    if stores == [] then [] else [E.Seeded(stores[0])] + SeededEach(stores[1..])
  }

  /** A router restarted over any stores, empty ones included, answers as one engine restarted over the
      union of them. */
  lemma RestartedRouter(w: World, stores: seq<Index>, events: seq<Event>)
    requires stores != [] && Timely(events, 0)
    requires forall i, key :: 0 <= i < |stores| && key in stores[i] ==> ShardOf(w, |stores|, key) == i
    ensures var engines := SeededEach(stores);
            var one := E.Seeded(Union(engines));
            && Placed(Started(engines)) && Placed(Started([one]))
            && Replies(w, Started(engines), events) == Replies(w, Started([one]), events)
            && Aggregate(Run(w, Started(engines), events)) == Aggregate(Run(w, Started([one]), events))
  {
    hide SeededEach, Union, Aggregate, Replies, Run, Timely, E.Fenced, Started, ShardOf;
    var engines := SeededEach(stores);
    var one := E.Seeded(Union(engines));
    forall i | 0 <= i < |engines|
      ensures E.Fenced(engines[i])
    {
      E.SeededIsFenced(stores[i]);
    }
    E.SeededIsFenced(Union(engines));
    ShardingIsInvisible(w, engines, one, events);
  }
}
