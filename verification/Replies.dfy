/** What clients receive, field by field. */
module Replies {
  import opened Prelude
  import opened Keys
  import opened Http
  import W = Wire
  import E = Engine
  import G = Gateway
  import opened Router

  /** A response of the gateway's own: a status, one header that says why, and no body. */
  predicate Bare(x: Response, status: u16, why: string) {
    x.status == status && x.headers == [(Ascii("Onced-Status"), Ascii(why))] && x.body == []
  }

  /** A response of somebody else's with one header added. */
  predicate Marked(x: Response, status: u16, headers: seq<Header>, body: Bytes, how: string) {
    x.status == status && x.headers == headers + [(Ascii("Onced-Status"), Ascii(how))] && x.body == body
  }

  /** The backend's response `r` served again from the store. */
  ghost predicate Replays(x: Response, r: Response) {
    exists shown :: Marked(x, r.status, shown, r.body, "replayed") && G.Gathers(shown, r.headers)
  }

  /** What the client of a forwarded request is told when the backend has answered, or has failed to:
      the backend's response itself, marked if it is the one that is kept. */
  predicate Settles(x: Response, keyed: bool, forwarded: Option<Response>) {
    match forwarded
    case None => Bare(x, 502, "upstream-error")
    case Some(r) =>
      if keyed && r.status < 500 then Marked(x, r.status, r.headers, r.body, "created")
      else x.status == r.status && x.headers == r.headers && x.body == r.body
  }

  lemma CompleteSettles(ticket: G.Ticket, forwarded: Option<Response>)
    ensures Settles(G.CompletePhase(ticket, forwarded), ticket.token.Some?, forwarded)
  {
    hide Ascii;
  }

  lemma OwnResponses()
    ensures Bare(G.TaggedStatus(409, Ascii("in-progress")), 409, "in-progress")
    ensures Bare(G.TaggedStatus(422, Ascii("mismatch")), 422, "mismatch")
  {
    hide Ascii;
  }

  lemma ReplayIsMarked(r: Response)
    ensures Replays(G.Tag(G.FromOutcome(G.ToOutcome(r)), Ascii("replayed")), r)
  {
    hide Ascii, G.Gathers, G.FromOutcome, G.ToOutcome;
    G.ReplayGathers(r);
    var y := G.FromOutcome(G.ToOutcome(r));
    assert Marked(G.Tag(y, Ascii("replayed")), r.status, y.headers, r.body, "replayed");
  }

  // ---- A forwarded request ----

  predicate Spares(events: seq<Event>, id: nat) {
    forall i :: 0 <= i < |events| ==> !(events[i].Finish? && events[i].id == id)
  }

  lemma StepSpares(w: World, s: System, ev: Event, id: nat)
    requires Placed(s) && Numbered(s) && id in s.open && !(ev.Finish? && ev.id == id)
    ensures var t := Step(w, s, ev);
            Numbered(t) && id in t.open && t.open[id] == s.open[id]
  {
    hide G.BeginPhase, G.AfterBegin, G.AfterComplete, Route, E.AfterPrune;
  }

  lemma {:induction false} StaysOpen(w: World, s: System, events: seq<Event>, id: nat)
    requires Placed(s) && Numbered(s) && id in s.open && Spares(events, id)
    ensures var t := Run(w, s, events);
            id in t.open && t.open[id] == s.open[id]
    decreases |events|
  {
    hide Step;
    if events != [] {
      assert !(events[0].Finish? && events[0].id == id);
      StepSpares(w, s, events[0], id);
      StaysOpen(w, Step(w, s, events[0]), events[1..], id);
    }
  }

  lemma TicketOpens(w: World, s: System, r: Request, now: u64)
    requires Placed(s) && Numbered(s) && Reply(w, s, Arrive(r, now)) == None
    ensures var t := Step(w, s, Arrive(r, now));
            && Numbered(t) && s.arrived in t.open
            && (t.open[s.arrived].ticket.token.Some? <==> G.KeyOf(r).Some?)
  {
    hide Find, G.PhaseOf, Route, G.AfterBegin, G.Fingerprint, E.Begin;
    if G.KeyOf(r).Some? {
      G.PhaseForwards(G.Ask(w.service, s.shards[Route(w, s, r)], G.KeyOf(r).value, r, now));
    }
  }

  /** A request that is told nothing when it arrives is forwarded. Whatever happens meanwhile, when its
      backend answers its client is told that answer. */
  lemma ForwardIsAnswered(w: World, s: System, r: Request, now: u64, events: seq<Event>, forwarded: Option<Response>)
    requires Placed(s) && Numbered(s) && Reply(w, s, Arrive(r, now)) == None && Spares(events, s.arrived)
    ensures var t := Run(w, Step(w, s, Arrive(r, now)), events);
            var told := Reply(w, t, Finish(s.arrived, forwarded));
            told.Some? && Settles(told.value, G.KeyOf(r).Some?, forwarded)
  {
    hide Step, Run, Settles, Spares, G.CompletePhase, Find;
    TicketOpens(w, s, r, now);
    var u := Step(w, s, Arrive(r, now));
    StaysOpen(w, u, events, s.arrived);
    CompleteSettles(u.open[s.arrived].ticket, forwarded);
  }

  predicate SameStores(s: System, t: System) {
    |t.shards| == |s.shards| && forall i :: 0 <= i < |s.shards| ==> t.shards[i].engine == s.shards[i].engine
  }

  /** A request without a key passes straight through: it is always forwarded, its client receives exactly
      the backend's response or a 502 if the forward failed, and no store changes. */
  lemma KeylessPassesThrough(w: World, s: System, r: Request, now: u64, events: seq<Event>, forwarded: Option<Response>)
    requires Placed(s) && Numbered(s) && W.NoneNamed(r.headers, "idempotency-key") && Spares(events, s.arrived)
    ensures Reply(w, s, Arrive(r, now)) == None && SameStores(s, Step(w, s, Arrive(r, now)))
    ensures var t := Run(w, Step(w, s, Arrive(r, now)), events);
            var told := Reply(w, t, Finish(s.arrived, forwarded));
            && told.Some? && SameStores(t, Step(w, t, Finish(s.arrived, forwarded)))
            && match forwarded
               case Some(x) => told.value.status == x.status && told.value.headers == x.headers && told.value.body == x.body
               case None => Bare(told.value, 502, "upstream-error")
  {
    hide Run, Spares, G.Merge, Route, W.NoneNamed;
    KeyMeans(r);
    ForwardIsAnswered(w, s, r, now, events, forwarded);
    var u := Step(w, s, Arrive(r, now));
    TicketOpens(w, s, r, now);
    StaysOpen(w, u, events, s.arrived);
  }

  // ---- The idempotency key ----

  lemma KeySpelled()
    ensures W.NoCapitals("idempotency-key") && W.AnyCase(G.IDEMPOTENCY_KEY, "idempotency-key")
  {
  }

  /** A request's key is the value of its first header called Idempotency-Key, in any case. */
  lemma KeyMeans(r: Request)
    ensures W.NoneNamed(r.headers, "idempotency-key") ==> G.KeyOf(r) == None
    ensures forall i: nat :: W.FirstNamed(r.headers, "idempotency-key", i) ==> G.KeyOf(r) == Some(r.headers[i].1)
  {
    hide W.AnyCase, W.NoneNamed, W.FirstNamed, Find;
    KeySpelled();
    W.FindMeans(r.headers, G.IDEMPOTENCY_KEY, "idempotency-key");
  }

  // ---- Other requests under a key ----

  function StoreOf(w: World, s: System, k: Text): Index
    requires s.shards != []
  {
    s.shards[ShardOf(w, |s.shards|, k)].engine.index
  }

  /** `k` is in use for the request `first`: in progress, however long ago, or completed and not expired. */
  predicate InUseFor(w: World, s: System, k: Text, first: Request, now: u64)
    requires s.shards != []
  {
    && k in StoreOf(w, s, k) && StoreOf(w, s, k)[k].fingerprint == G.Fingerprint(w.service, first)
    && (StoreOf(w, s, k)[k].Completed? ==> !E.Expired(w.service.cfg, StoreOf(w, s, k)[k], now))
  }

  /** Under a key in use for one request, a request with another method, target or body is told 422 and
      changes no store, at any clock, or the keyed hash has collided on the two. */
  lemma OtherContentRefused(w: World, s: System, k: Text, first: Request, r: Request, now: u64)
    requires Placed(s) && InUseFor(w, s, k, first, now) && G.KeyOf(r) == Some(k) && !G.SameContent(first, r)
    requires G.Received(first) && G.Received(r) && G.UpTo(first, G.MAX_FIELD) && G.UpTo(r, G.MAX_FIELD)
    ensures || G.MacCollision(w.service, first, r)
            || (var told := Reply(w, s, Arrive(r, now));
                told.Some? && Bare(told.value, 422, "mismatch") && SameStores(s, Step(w, s, Arrive(r, now))))
  {
    hide ParseRequest, Find, Ascii, G.Fingerprint, G.SameContent, G.MacCollision, G.UpTo, G.Merge, ShardOf;
    if G.Fingerprint(w.service, first) == G.Fingerprint(w.service, r) {
      G.FingerprintTells(w.service, first, r);
    } else {
      OwnResponses();
    }
  }

  /** The same request, whatever its headers, is told to wait while the lease lasts and forwarded after it,
      or served what was stored. */
  lemma SameContentServed(w: World, s: System, k: Text, first: Request, r: Request, now: u64, x: Response)
    requires Placed(s) && InUseFor(w, s, k, first, now) && G.KeyOf(r) == Some(k) && G.SameContent(first, r)
    ensures var told := Reply(w, s, Arrive(r, now));
            match StoreOf(w, s, k)[k]
            case InProgress(_, _, expires) =>
              if now < expires then told.Some? && Bare(told.value, 409, "in-progress") else told == None
            case Completed(_, outcome, _) =>
              outcome == G.ToOutcome(x) ==> told.Some? && Replays(told.value, x)
  {
    hide Find, Ascii, G.Fingerprint, G.Merge, ShardOf, Replays, G.FromOutcome, G.ToOutcome;
    G.FingerprintIs(w.service, first, r);
    OwnResponses();
    ReplayIsMarked(x);
  }
}
