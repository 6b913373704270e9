/** The sharded router with many requests in flight. Beginning and completing a request are atomic, each
    under its shard's lock; the forward between them holds no lock, so requests interleave freely. */
module Router {
  import opened Prelude
  import opened Http
  import E = Engine
  import opened G = Gateway

  /** Every shard has the same settings. Keys are routed by a stable hash. */
  datatype World = World(service: Service, hash: Text -> nat)

  /** A request whose forward is under way. */
  datatype Pending = Pending(shard: nat, ticket: Ticket, now: u64)

  datatype System = System(
    shards: seq<G.State>, cursor: u64, denied: nat, open: map<nat, Pending>, arrived: nat)

  /** `Arrive` is a request past the abuse stage; the requests are numbered as they arrive. `Finish` is
      the backend's answer to a request in flight, `None` if the forward failed. `Refuse` is a denial.
      `Prune` is one round of the background sweep, which locks one shard at a time. */
  datatype Event =
    | Arrive(request: Request, now: u64)
    | Finish(id: nat, forwarded: Option<Response>)
    | Refuse
    | Prune(shard: nat, now: u64)

  function ShardOf(w: World, n: nat, key: Text): (i: nat)
    requires n > 0
    ensures i < n
  {
    w.hash(key) % n
  }

  function Route(w: World, s: System, r: Request): (i: nat)
    requires s.shards != []
    ensures i < |s.shards|
  {
    match KeyOf(r)
    case Some(key) => ShardOf(w, |s.shards|, key)
    case None => s.cursor % |s.shards|
  }

  function AfterRoute(cursor: u64, r: Request): u64 {
    if KeyOf(r).Some? then cursor else if cursor == U64_MAX then 0 else cursor + 1
  }

  function Arrived(w: World, s: System, r: Request, now: u64): System
    requires s.shards != []
  {
    var i := Route(w, s, r);
    var phase := BeginPhase(w.service, s.shards[i], r, now);
    System(
      s.shards[i := G.AfterBegin(w.service, s.shards[i], r, now)],
      AfterRoute(s.cursor, r),
      s.denied,
      if phase.Forward? then s.open[s.arrived := Pending(i, phase.ticket, now)] else s.open,
      s.arrived + 1)
  }

  /** Tickets in flight name shards that exist. */
  predicate Placed(s: System) {
    && s.shards != []
    && forall id :: id in s.open ==> s.open[id].shard < |s.shards|
  }

  /** Requests in flight carry numbers already given out. */
  predicate Numbered(s: System) {
    forall id :: id in s.open ==> id < s.arrived
  }

  function Finished(s: System, id: nat, forwarded: Option<Response>): System
    requires Placed(s) && id in s.open
  {
    var p := s.open[id];
    s.(shards := s.shards[p.shard := G.AfterComplete(s.shards[p.shard], p.ticket, forwarded, p.now)],
       open := s.open - {id})
  }

  function Swept(cfg: E.Config, s: System, shard: nat, now: u64): System
    requires shard < |s.shards|
  {
    var g := s.shards[shard];
    s.(shards := s.shards[shard := G.State(E.AfterPrune(cfg, g.engine, now), g.metrics)])
  }

  function Step(w: World, s: System, ev: Event): (t: System)
    requires Placed(s)
    ensures Placed(t) && |t.shards| == |s.shards|
  {
    match ev
    case Arrive(request, now) => Arrived(w, s, request, now)
    case Finish(id, forwarded) => if id in s.open then Finished(s, id, forwarded) else s
    case Refuse => s.(denied := s.denied + 1)
    case Prune(shard, now) => if shard < |s.shards| then Swept(w.service.cfg, s, shard, now) else s
  }

  function Run(w: World, s: System, events: seq<Event>): (t: System)
    requires Placed(s)
    ensures Placed(t) && |t.shards| == |s.shards|
    decreases |events|
  {
    if events == [] then s else Run(w, Step(w, s, events[0]), events[1..])
  }

  lemma {:induction false} RunOneMore(w: World, s: System, events: seq<Event>, ev: Event)
    requires Placed(s)
    ensures Run(w, s, events + [ev]) == Step(w, Run(w, s, events), ev)
    decreases |events|
  {
    hide Step;
    if events == [] {
      assert events + [ev] == [ev] && [ev][1..] == [];
    } else {
      assert (events + [ev])[1..] == events[1..] + [ev];
      RunOneMore(w, Step(w, s, events[0]), events[1..], ev);
    }
  }

  /** A whole sweep, when nothing comes in between: every shard in turn. */
  function Sweep(n: nat, now: u64): seq<Event> {
    if n == 0 then [] else Sweep(n - 1, now) + [Prune(n - 1, now)]
  }

  /** What the client of the event is told, if it is told anything yet. */
  function Reply(w: World, s: System, ev: Event): Option<Response>
    requires Placed(s)
  {
    match ev
    case Arrive(request, now) =>
      (match BeginPhase(w.service, s.shards[Route(w, s, request)], request, now)
       case Done(response) => Some(response)
       case Forward(_) => None)
    case Finish(id, forwarded) =>
      if id in s.open then Some(CompletePhase(s.open[id].ticket, forwarded)) else None
    case Refuse => None
    case Prune(_, _) => None
  }

  function Replies(w: World, s: System, events: seq<Event>): seq<Option<Response>>
    requires Placed(s)
    decreases |events|
  {
    if events == [] then [] else [Reply(w, s, events[0])] + Replies(w, Step(w, s, events[0]), events[1..])
  }

  // ---- Counters ----

  function Total(shards: seq<G.State>): Metrics {
    if shards == [] then NOTHING else Merge(Total(shards[..|shards| - 1]), shards[|shards| - 1].metrics)
  }

  function Aggregate(s: System): Metrics {
    Merge(Total(s.shards), G.Denied(s.denied))
  }

  lemma {:induction false} TotalMoves(shards: seq<G.State>, i: nat, g: G.State, d: Metrics)
    requires i < |shards| && g.metrics == Merge(shards[i].metrics, d)
    ensures Total(shards[i := g]) == Merge(Total(shards), d)
  {
    var n := |shards| - 1;
    if i == n {
      assert shards[i := g][..n] == shards[..n];
    } else {
      assert shards[i := g][..n] == shards[..n][i := g];
      TotalMoves(shards[..n], i, g, d);
    }
  }

  /** What an event adds to the aggregated counters. */
  function Moved(w: World, s: System, ev: Event): Metrics
    requires Placed(s)
  {
    match ev
    case Arrive(request, now) =>
      (match KeyOf(request)
       case Some(key) => Counted(Ask(w.service, s.shards[Route(w, s, request)], key, request, now))
       case None => NOTHING.(requests := 1))
    case Finish(id, forwarded) => if id in s.open then Settled(s.open[id].ticket, forwarded) else NOTHING
    case Refuse => G.Denied(1)
    case Prune(_, _) => NOTHING
  }

  lemma AggregateMoves(w: World, s: System, ev: Event)
    requires Placed(s)
    ensures Aggregate(Step(w, s, ev)) == Merge(Aggregate(s), Moved(w, s, ev))
  {
    hide Merge, Counted, Settled, G.Denied, KeyOf, Ask, ShardOf, E.AfterBegin, E.AfterComplete, E.AfterPrune;
    MergeSwaps(Total(s.shards), Moved(w, s, ev), G.Denied(s.denied));
    match ev {
      case Arrive(request, now) =>
        var i := Route(w, s, request);
        TotalMoves(s.shards, i, G.AfterBegin(w.service, s.shards[i], request, now), Moved(w, s, ev));
      case Finish(id, forwarded) =>
        if id in s.open {
          var p := s.open[id];
          TotalMoves(s.shards, p.shard, G.AfterComplete(s.shards[p.shard], p.ticket, forwarded, p.now), Moved(w, s, ev));
        } else {
          MergeNothing(Aggregate(s));
        }
      case Refuse =>
        DeniedAdds(s.denied, 1);
        MergeSwaps(Total(s.shards), G.Denied(s.denied), G.Denied(1));
      case Prune(shard, now) =>
        MergeNothing(Aggregate(s));
        if shard < |s.shards| {
          MergeNothing(s.shards[shard].metrics);
          MergeNothing(Total(s.shards));
          TotalMoves(s.shards, shard, Swept(w.service.cfg, s, shard, now).shards[shard], NOTHING);
        }
    }
  }

  lemma DeniedAdds(m: nat, n: nat)
    ensures Merge(G.Denied(m), G.Denied(n)) == G.Denied(m + n)
  {
  }

  /** How a request ends. */
  datatype Ending = Created | Replayed | ToldToWait | Mismatched | Failed | PassedThrough | TurnedAway

  /** How the request of the event ends, if it ends with it. */
  function EndingOf(w: World, s: System, ev: Event): Option<Ending>
    requires Placed(s)
  {
    match ev
    case Arrive(request, now) =>
      (match KeyOf(request)
       case None => None
       case Some(key) =>
         match Ask(w.service, s.shards[Route(w, s, request)], key, request, now)
         case Run(_) => None
         case Replay(_) => Some(Replayed)
         case Busy => Some(ToldToWait)
         case Mismatch => Some(Mismatched))
    case Finish(id, forwarded) =>
      if id !in s.open then None
      else if s.open[id].ticket.token.Some? && Final(forwarded) then Some(Created)
      else if s.open[id].ticket.token.None? && forwarded.Some? then Some(PassedThrough)
      else Some(Failed)
    case Refuse => Some(TurnedAway)
    case Prune(_, _) => None
  }

  function Tally(w: World, s: System, events: seq<Event>, ending: Ending): nat
    requires Placed(s)
    decreases |events|
  {
    if events == [] then 0
    else (if EndingOf(w, s, events[0]) == Some(ending) then 1 else 0)
         + Tally(w, Step(w, s, events[0]), events[1..], ending)
  }

  function Arrivals(events: seq<Event>): nat {
    if events == [] then 0 else (if events[0].Arrive? then 1 else 0) + Arrivals(events[1..])
  }

  function Reading(m: Metrics, ending: Ending): nat {
    match ending
    case Created => m.created
    case Replayed => m.replayed
    case ToldToWait => m.inProgress
    case Mismatched => m.mismatch
    case Failed => m.upstreamError
    case PassedThrough => m.passthrough
    case TurnedAway => m.denied
  }

  lemma ReadingsMove(w: World, s: System, ev: Event, ending: Ending)
    requires Placed(s)
    ensures Reading(Moved(w, s, ev), ending) == if EndingOf(w, s, ev) == Some(ending) then 1 else 0
    ensures Moved(w, s, ev).requests == if ev.Arrive? then 1 else 0
  {
    hide Find, E.Begin, Route;
  }

  lemma ReadingsAdd(a: Metrics, b: Metrics, ending: Ending)
    ensures Reading(Merge(a, b), ending) == Reading(a, ending) + Reading(b, ending)
  {
  }

  /** Each aggregated counter is the number of requests that ended its way, and `requests` the number
      that arrived. */
  lemma {:induction false} CountersAreTallies(w: World, s: System, events: seq<Event>, ending: Ending)
    requires Placed(s)
    ensures Reading(Aggregate(Run(w, s, events)), ending) == Reading(Aggregate(s), ending) + Tally(w, s, events, ending)
    ensures Aggregate(Run(w, s, events)).requests == Aggregate(s).requests + Arrivals(events)
    decreases |events|
  {
    hide Aggregate, Moved, EndingOf, Reading, Step;
    if events != [] {
      AggregateMoves(w, s, events[0]);
      ReadingsMove(w, s, events[0], ending);
      ReadingsAdd(Aggregate(s), Moved(w, s, events[0]), ending);
      CountersAreTallies(w, Step(w, s, events[0]), events[1..], ending);
    }
  }

  // ---- Conservation ----

  /** Every request counted in is counted out once or still in flight. */
  ghost predicate Balanced(s: System) {
    && Unsettled(Aggregate(s)) == |s.open|
    && forall id :: id in s.open ==> id < s.arrived
  }

  lemma MovedCounts(w: World, s: System, ev: Event)
    requires Placed(s)
    ensures Unsettled(Moved(w, s, ev))
         == match ev
            case Arrive(request, now) =>
              if BeginPhase(w.service, s.shards[Route(w, s, request)], request, now).Forward? then 1 else 0
            case Finish(id, _) => if id in s.open then -1 else 0
            case Refuse => 0
            case Prune(_, _) => 0
  {
    hide Counted, Settled, PhaseOf, Ask, Find;
    match ev {
      case Arrive(request, now) =>
        if KeyOf(request).Some? {
          PhasesCount(Ask(w.service, s.shards[Route(w, s, request)], KeyOf(request).value, request, now), Ticket(None), None);
        }
      case Finish(id, forwarded) =>
        if id in s.open {
          PhasesCount(E.Busy, s.open[id].ticket, forwarded);
        }
      case Refuse =>
      case Prune(_, _) =>
    }
  }

  lemma StepBalances(w: World, s: System, ev: Event)
    requires Placed(s) && Balanced(s)
    ensures Balanced(Step(w, s, ev))
  {
    hide Aggregate, Moved, Unsettled, Merge, G.AfterBegin, G.AfterComplete, BeginPhase;
    AggregateMoves(w, s, ev);
    UnsettledAdds(Aggregate(s), Moved(w, s, ev));
    MovedCounts(w, s, ev);
    if ev.Finish? && ev.id in s.open {
      assert (s.open - {ev.id}).Keys == s.open.Keys - {ev.id};
      assert |s.open - {ev.id}| == |s.open| - 1;
    }
  }

  /** In every state reached from one whose books balance, the books balance: the requests of all shards
      are the created, replayed, in-progress, mismatched, failed and passed-through ones and the forwards
      still under way. */
  lemma {:induction false} Conservation(w: World, s: System, events: seq<Event>)
    requires Placed(s) && Balanced(s)
    ensures var t := Run(w, s, events);
            var m := Aggregate(t);
            m.requests == m.created + m.replayed + m.inProgress + m.mismatch + m.upstreamError + m.passthrough + |t.open|
    decreases |events|
  {
    if events != [] {
      StepBalances(w, s, events[0]);
      Conservation(w, Step(w, s, events[0]), events[1..]);
    }
  }

  /** A router whose shards start over the given engines, nothing counted and nothing in flight. */
  function Started(engines: seq<E.State>): System {
    System(StartedShards(engines), 0, 0, map[], 0)
  }

  function StartedShards(engines: seq<E.State>): (r: seq<G.State>)
    ensures |r| == |engines|
    ensures forall i :: 0 <= i < |r| ==> r[i] == G.State(engines[i], NOTHING)
  {
    if engines == [] then [] else [G.State(engines[0], NOTHING)] + StartedShards(engines[1..])
  }

  lemma {:induction false} IdleTotal(shards: seq<G.State>)
    requires forall i :: 0 <= i < |shards| ==> shards[i].metrics == NOTHING
    ensures Total(shards) == NOTHING
  {
    hide Merge;
    if shards != [] {
      IdleTotal(shards[..|shards| - 1]);
      MergeNothing(NOTHING);
    }
  }

  lemma StartedBalances(engines: seq<E.State>)
    requires engines != []
    ensures Placed(Started(engines)) && Balanced(Started(engines)) && Aggregate(Started(engines)) == NOTHING
  {
    hide Merge, StartedShards;
    IdleTotal(StartedShards(engines));
    MergeNothing(NOTHING);
  }
}
