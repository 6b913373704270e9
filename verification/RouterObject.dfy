/** The router as it runs: each method is one locked step of one shard, or a read of all of them. */
module RouterObject {
  import opened Prelude
  import opened Keys
  import opened Http
  import E = Engine
  import opened EngineObject
  import opened WalStore
  import G = Gateway
  import opened GatewayObject
  import opened Limiter
  import opened Rules
  import R = Router
  import W = Wire

  /** "x-forwarded-for". */
  const FORWARDED_FOR: Text := [120, 45, 102, 111, 114, 119, 97, 114, 100, 101, 100, 45, 102, 111, 114]

  /** "anonymous". */
  const ANONYMOUS: Text := [97, 110, 111, 110, 121, 109, 111, 117, 115]

  function Identity(r: Request): Text {
    match Find(r.headers, FORWARDED_FOR)
    case Some(who) => who
    case None => ANONYMOUS
  }

  function TooManyRequests(rule: Text, action: Action): Response {
    var name := match action
      case Challenge => Ascii("challenge")
      case Throttle => Ascii("throttle")
      case Block => Ascii("block");
    Response(429, [(G.ONCED_STATUS, Ascii("denied")), (Ascii("Onced-Rule"), rule), (Ascii("Onced-Action"), name)], [])
  }

  /** A 429 without a body that names the rule and what to do about it. */
  predicate IsRefusal(x: Response, rule: Text, action: Action) {
    && x.status == 429 && x.body == [] && |x.headers| == 3
    && x.headers[0] == (Ascii("Onced-Status"), Ascii("denied"))
    && x.headers[1] == (Ascii("Onced-Rule"), rule)
    && x.headers[2].0 == Ascii("Onced-Action")
    && (action.Challenge? ==> x.headers[2].1 == Ascii("challenge"))
    && (action.Throttle? ==> x.headers[2].1 == Ascii("throttle"))
    && (action.Block? ==> x.headers[2].1 == Ascii("block"))
  }

  lemma RefusalSpelled(rule: Text, action: Action)
    ensures IsRefusal(TooManyRequests(rule, action), rule, action)
  {
    hide Ascii;
  }

  lemma IdentitySpelled()
    ensures W.NoCapitals("x-forwarded-for") && W.AnyCase(FORWARDED_FOR, "x-forwarded-for")
    ensures ANONYMOUS == Ascii("anonymous")
  {
    hide Ascii;
  }

  /** A caller is known by its first header called X-Forwarded-For, in any case, and is otherwise
      anonymous. */
  lemma IdentityMeans(r: Request)
    ensures W.NoneNamed(r.headers, "x-forwarded-for") ==> Identity(r) == Ascii("anonymous")
    ensures forall i: nat :: W.FirstNamed(r.headers, "x-forwarded-for", i) ==> Identity(r) == r.headers[i].1
  {
    hide W.AnyCase, W.NoneNamed, W.FirstNamed, Find, Ascii;
    IdentitySpelled();
    W.FindMeans(r.headers, FORWARDED_FOR, "x-forwarded-for");
  }

  class Router {
    const shards: seq<Gateway>
    const abuse: seq<RuleSet>
    const hash: Text -> nat
    const mac: Bytes -> Digest
    const cfg: E.Config
    var denied: nat
    var cursor: u64

    /** The objects behind the shards' locks. */
    ghost function Locked(): set<object> {
      set i, o | 0 <= i < |shards| && o in Behind(shards[i]) :: o
    }

    static ghost function Behind(g: Gateway): set<object> {
      {g, g.engine, g.engine.store}
    }

    lemma LockedHolds(i: nat)
      requires i < |shards|
      ensures Behind(shards[i]) <= Locked()
    {
    }

    /** The shards share their settings and nothing else. */
    ghost predicate Valid() {
      && shards != [] && abuse != []
      && (forall i :: 0 <= i < |shards| ==> shards[i].Service() == G.Service(cfg, mac))
      && forall i, j :: 0 <= i < j < |shards| ==> Behind(shards[i]) !! Behind(shards[j])
    }

    ghost function World(): R.World {
      R.World(G.Service(cfg, mac), hash)
    }

    ghost function Views(n: nat): (r: seq<G.State>)
      requires n <= |shards|
      reads Locked()
      ensures |r| == n && forall i :: 0 <= i < n ==> r[i] == shards[i].View()
    {
      if n == 0 then [] else
        assert Behind(shards[n - 1]) <= Locked();
        Views(n - 1) + [shards[n - 1].View()]
    }

    /** The system this router is, given the requests in flight. */
    ghost function View(open: map<nat, R.Pending>, arrived: nat): R.System
      reads this, Locked()
    {
      R.System(Views(|shards|), cursor, denied, open, arrived)
    }

    constructor (shards: seq<Gateway>, abuse: seq<RuleSet>, hash: Text -> nat, mac: Bytes -> Digest, cfg: E.Config)
      requires shards != [] && abuse != []
      requires forall i :: 0 <= i < |shards| ==> shards[i].Service() == G.Service(cfg, mac)
      requires forall i, j :: 0 <= i < j < |shards| ==> Behind(shards[i]) !! Behind(shards[j])
      ensures Valid() && this.shards == shards && this.abuse == abuse && this.hash == hash
      ensures this.mac == mac && this.cfg == cfg && denied == 0 && cursor == 0
    {
      this.shards := shards;
      this.abuse := abuse;
      this.hash := hash;
      this.mac := mac;
      this.cfg := cfg;
      denied := 0;
      cursor := 0;
    }

    method RouteShard(request: Request) returns (i: nat)
      requires Valid()
      modifies this`cursor
      ensures i < |shards|
      ensures forall open, arrived :: i == R.Route(World(), old(View(open, arrived)), request)
      ensures cursor == R.AfterRoute(old(cursor), request)
      ensures G.KeyOf(request).Some? ==> i == hash(G.KeyOf(request).value) % |shards| && cursor == old(cursor)
      ensures G.KeyOf(request).None? ==> i == old(cursor) % |shards|
    {
      hide Find;
      match G.KeyOf(request) {
        case Some(key) =>
          i := hash(key) % |shards|;
        case None =>
          i := cursor % |shards|;
          cursor := if cursor == U64_MAX then 0 else cursor + 1;
      }
    }

    method BeginOn(i: nat, request: Request, now: u64) returns (phase: G.Phase)
      requires Valid() && i < |shards|
      modifies Behind(shards[i])
      ensures phase == G.BeginPhase(G.Service(cfg, mac), old(shards[i].View()), request, now)
      ensures Views(|shards|)
           == old(Views(|shards|))[i := G.AfterBegin(G.Service(cfg, mac), old(shards[i].View()), request, now)]
    {
      hide G.BeginPhase, G.AfterBegin;
      phase := shards[i].BeginPhase(request, now);
    }

    method CompleteOn(i: nat, ticket: G.Ticket, forwarded: Option<Response>, now: u64) returns (response: Response)
      requires Valid() && i < |shards|
      modifies Behind(shards[i])
      ensures response == G.CompletePhase(ticket, forwarded)
      ensures Views(|shards|)
           == old(Views(|shards|))[i := G.AfterComplete(old(shards[i].View()), ticket, forwarded, now)]
    {
      hide G.CompletePhase, G.AfterComplete;
      response := shards[i].CompletePhase(ticket, forwarded, now);
    }

    method AggregateMetrics() returns (total: G.Metrics)
      requires Valid()
      ensures forall open, arrived :: total == R.Aggregate(View(open, arrived))
    {
      hide G.Merge;
      total := G.NOTHING;
      for n := 0 to |shards|
        invariant total == R.Total(Views(n))
      {
        total := G.Merge(total, shards[n].metrics);
        assert Views(n + 1)[..n] == Views(n);
      }
      total := G.Merge(total, G.Denied(denied));
    }

    method PruneShard(n: nat, now: u64)
      requires Valid() && n < |shards|
      modifies shards[n].engine.store
      ensures var g := old(shards[n].View());
              Views(|shards|) == old(Views(|shards|))[n := G.State(E.AfterPrune(cfg, g.engine, now), g.metrics)]
    {
      hide E.AfterPrune;
      shards[n].PruneExpired(now);
    }

    /** The sweep prunes every shard, one lock at a time. `open` and `arrived` describe the requests in
        flight, which it does not touch. */
    method PruneExpired(now: u64, ghost open: map<nat, R.Pending>, ghost arrived: nat)
      requires Valid() && R.Placed(View(open, arrived))
      modifies Locked()
      ensures View(open, arrived) == R.Run(World(), old(View(open, arrived)), R.Sweep(|shards|, now))
    {
      hide E.AfterPrune, Router.Views, Router.Locked, R.Run, R.Step;
      ghost var before := View(open, arrived);
      assert R.Run(World(), before, R.Sweep(0, now)) == before by {
        NothingRun(World(), before);
      }
      for n := 0 to |shards|
        invariant View(open, arrived) == R.Run(World(), before, R.Sweep(n, now))
      {
        ghost var s := View(open, arrived);
        R.RunOneMore(World(), before, R.Sweep(n, now), R.Prune(n, now));
        OneShardSwept(World(), s, n, now);
        LockedHolds(n);
        PruneShard(n, now);
      }
    }

    function RulesFor(who: Text): RuleSet
      requires abuse != []
    {
      abuse[hash(who) % |abuse|]
    }

    /** The rule set of the caller's identity counts the request and may turn it away, naming the rule
        that tripped first. */
    method DenyIfAbusive(request: Request, now: u64) returns (response: Option<Response>, ghost verdict: Verdict)
      requires Valid() && RulesFor(Identity(request)).Valid()
      modifies this`denied, RulesFor(Identity(request)).Limiters()
      ensures var rules := RulesFor(Identity(request));
              && rules.Valid() && rules.Judges(verdict, Identity(request))
              && forall i :: 0 <= i < |rules.rules| ==> rules.Counted(i, Identity(request), now)
      ensures match verdict
              case Allow => response == None && denied == old(denied)
              case Deny(rule, action) =>
                response.Some? && IsRefusal(response.value, rule, action) && denied == old(denied) + 1
      ensures RulesFor(Identity(request)) == abuse[hash(Identity(request)) % |abuse|]
    {
      hide Identity, Tracks, Admitted, Recorded, TooManyRequests, IsRefusal;
      var rules := RulesFor(Identity(request));
      var judged := rules.Evaluate(Identity(request), now);
      verdict := judged;
      match judged {
        case Allow =>
          response := None;
        case Deny(rule, action) =>
          denied := denied + 1;
          RefusalSpelled(rule, action);
          response := Some(TooManyRequests(rule, action));
      }
    }

    /** A request past the abuse stage, with nobody served between its phases: an arrival, and if it is
        forwarded, its finish. `open` and `arrived` describe the requests already in flight. */
    method Dispatch(request: Request, now: u64, upstream: Request -> Option<Response>,
                    ghost open: map<nat, R.Pending>, ghost arrived: nat)
      returns (response: Response)
      requires Valid() && arrived !in open && R.Placed(View(open, arrived))
      modifies this`cursor, Locked()
      ensures var t := R.Step(World(), old(View(open, arrived)), R.Arrive(request, now));
              match R.Reply(World(), old(View(open, arrived)), R.Arrive(request, now))
              case Some(answer) => response == answer && View(open, arrived + 1) == t
              case None =>
                && Some(response) == R.Reply(World(), t, R.Finish(arrived, upstream(request)))
                && View(open, arrived + 1) == R.Step(World(), t, R.Finish(arrived, upstream(request)))
    {
      hide G.BeginPhase, G.AfterBegin, G.CompletePhase, G.AfterComplete, R.Route, R.AfterRoute, R.Step, R.Reply, Router.Views, Router.Locked;
      ghost var s := View(open, arrived);
      var i := RouteShard(request);
      assert i == R.Route(World(), s, request);
      assert Views(|shards|) == s.shards;
      LockedHolds(i);
      var phase := BeginOn(i, request, now);
      match phase {
        case Done(answer) =>
          ServedAtOnce(World(), s, request, now, answer);
          response := answer;
        case Forward(ticket) =>
          ForwardedAndServed(World(), s, request, now, ticket, upstream(request));
          ghost var begun := G.AfterBegin(World().service, s.shards[i], request, now);
          assert Views(|shards|) == s.shards[i := begun];
          response := CompleteOn(i, ticket, upstream(request), now);
          assert Views(|shards|) == s.shards[i := G.AfterComplete(begun, ticket, upstream(request), now)];
      }
    }
  }

  lemma NothingRun(w: R.World, s: R.System)
    requires R.Placed(s)
    ensures R.Run(w, s, []) == s
  {
  }

  lemma OneShardSwept(w: R.World, s: R.System, n: nat, now: u64)
    requires R.Placed(s) && n < |s.shards|
    ensures var g := s.shards[n];
            R.Step(w, s, R.Prune(n, now))
            == s.(shards := s.shards[n := G.State(E.AfterPrune(w.service.cfg, g.engine, now), g.metrics)])
  {
  }

  lemma ServedAtOnce(w: R.World, s: R.System, r: Request, now: u64, answer: Response)
    requires R.Placed(s) && G.BeginPhase(w.service, s.shards[R.Route(w, s, r)], r, now) == G.Done(answer)
    ensures R.Reply(w, s, R.Arrive(r, now)) == Some(answer)
    ensures var i := R.Route(w, s, r);
            R.Step(w, s, R.Arrive(r, now))
            == R.System(s.shards[i := G.AfterBegin(w.service, s.shards[i], r, now)],
                        R.AfterRoute(s.cursor, r), s.denied, s.open, s.arrived + 1)
  {
    hide G.BeginPhase, G.AfterBegin, R.Route, R.AfterRoute;
  }

  lemma ForwardedAndServed(w: R.World, s: R.System, r: Request, now: u64, ticket: G.Ticket, forwarded: Option<Response>)
    requires R.Placed(s) && s.arrived !in s.open
    requires G.BeginPhase(w.service, s.shards[R.Route(w, s, r)], r, now) == G.Forward(ticket)
    ensures R.Reply(w, s, R.Arrive(r, now)) == None
    ensures var i := R.Route(w, s, r);
            var t := R.Step(w, s, R.Arrive(r, now));
            && R.Reply(w, t, R.Finish(s.arrived, forwarded)) == Some(G.CompletePhase(ticket, forwarded))
            && R.Step(w, t, R.Finish(s.arrived, forwarded))
               == R.System(
                    s.shards[i := G.AfterComplete(G.AfterBegin(w.service, s.shards[i], r, now), ticket, forwarded, now)],
                    R.AfterRoute(s.cursor, r), s.denied, s.open, s.arrived + 1)
  {
    hide G.BeginPhase, G.AfterBegin, G.CompletePhase, G.AfterComplete, R.Route, R.AfterRoute;
    var t := R.Step(w, s, R.Arrive(r, now));
    assert t.open[s.arrived] == R.Pending(R.Route(w, s, r), ticket, now);
    assert t.open - {s.arrived} == s.open;
  }
}
