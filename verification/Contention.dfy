/** Many requests under one fresh key at once: the backend is asked once, everyone who asks the same waits
    or is served what it answered, and everyone who asks something else is refused. Other keys' requests
    and sweeps of the shards may be interleaved freely. */
module Contention {
  import opened Prelude
  import opened Keys
  import opened Http
  import E = Engine
  import G = Gateway
  import opened Router
  import opened Replies

  /** What happens to one key: a request under it is decided, or the backend answers for it. */
  datatype Move = Asked(request: Request, answer: E.Answer) | Backend(forwarded: Option<Response>)

  predicate Carries(p: Pending, k: Text) {
    p.ticket.token.Some? && p.ticket.token.value.key == k
  }

  /** No forward for `k` is under way. */
  predicate NoTicket(s: System, k: Text) {
    forall id :: id in s.open ==> !Carries(s.open[id], k)
  }

  function MoveOf(w: World, s: System, ev: Event, k: Text): Option<Move>
    requires Placed(s)
  {
    match ev
    case Arrive(r, now) =>
      if G.KeyOf(r) != Some(k) then None
      else Some(Asked(r, G.Ask(w.service, s.shards[Route(w, s, r)], k, r, now)))
    case Finish(id, forwarded) =>
      if id in s.open && Carries(s.open[id], k) then Some(Backend(forwarded)) else None
    case Refuse => None
    case Prune(_, _) => None
  }

  function Moves(w: World, s: System, events: seq<Event>, k: Text): seq<Move>
    requires Placed(s)
    decreases |events|
  {
    if events == [] then []
    else
      var rest := Moves(w, Step(w, s, events[0]), events[1..], k);
      match MoveOf(w, s, events[0], k)
      case Some(m) => [m] + rest
      case None => rest
  }

  /** What the clients of `k` are told at its moves. */
  function KeyReplies(w: World, s: System, events: seq<Event>, k: Text): seq<Option<Response>>
    requires Placed(s)
    decreases |events|
  {
    if events == [] then []
    else
      (if MoveOf(w, s, events[0], k).Some? then [Reply(w, s, events[0])] else [])
      + KeyReplies(w, Step(w, s, events[0]), events[1..], k)
  }

  const WAIT: Response := G.TaggedStatus(409, Ascii("in-progress"))
  const REFUSED: Response := G.TaggedStatus(422, Ascii("mismatch"))

  function Replayed(outcome: CachedOutcome): Response {
    G.Tag(G.FromOutcome(outcome), Ascii("replayed"))
  }

  function Settling(forwarded: Option<Response>): Response {
    match forwarded
    case None => G.BAD_GATEWAY
    case Some(r) => if r.status < 500 then G.Tag(r, Ascii("created")) else r
  }

  function Told(m: Move): Option<Response> {
    match m
    case Asked(_, Run(_)) => None
    case Asked(_, Replay(outcome)) => Some(Replayed(outcome))
    case Asked(_, Busy) => Some(WAIT)
    case Asked(_, Mismatch) => Some(REFUSED)
    case Backend(forwarded) => Some(Settling(forwarded))
  }

  lemma MoveIsTold(w: World, s: System, ev: Event, k: Text)
    requires Placed(s) && MoveOf(w, s, ev, k).Some?
    ensures Reply(w, s, ev) == Told(MoveOf(w, s, ev, k).value)
  {
    hide Find, Ascii, G.Fingerprint, E.Begin, Route;
  }

  lemma {:induction false} MovesAreReplies(w: World, s: System, events: seq<Event>, k: Text)
    requires Placed(s)
    ensures var m, replies := Moves(w, s, events, k), KeyReplies(w, s, events, k);
            |m| == |replies| && forall i :: 0 <= i < |m| ==> replies[i] == Told(m[i])
    decreases |events|
  {
    hide Step, MoveOf, Reply, Told;
    if events != [] {
      if MoveOf(w, s, events[0], k).Some? {
        MoveIsTold(w, s, events[0], k);
      }
      MovesAreReplies(w, Step(w, s, events[0]), events[1..], k);
    }
  }

  // ---- The shape of one key's history ----

  /** Which requests are the same as the first one. */
  type Same = Request -> bool

  function ByFingerprint(sv: G.Service, fp: Digest): Same {
    r => G.Fingerprint(sv, r) == fp
  }

  predicate Waits(same: Same, m: Move) {
    m.Asked? && m.answer == if same(m.request) then E.Busy else E.Mismatch
  }

  predicate Serves(same: Same, outcome: CachedOutcome, m: Move) {
    m.Asked? && m.answer == if same(m.request) then E.Replay(outcome) else E.Mismatch
  }

  predicate AllWait(m: seq<Move>, same: Same) {
    forall i :: 0 <= i < |m| ==> Waits(same, m[i])
  }

  predicate AllServe(m: seq<Move>, same: Same, outcome: CachedOutcome) {
    forall i :: 0 <= i < |m| ==> Serves(same, outcome, m[i])
  }

  /** Waiting until the one answer of the backend; after it replays of that answer, or waiting on if it
      was not final. */
  predicate OneAnswer(m: seq<Move>, same: Same) {
    m == [] ||
    match m[0]
    case Asked(_, _) => Waits(same, m[0]) && OneAnswer(m[1..], same)
    case Backend(forwarded) =>
      if G.Final(forwarded) then AllServe(m[1..], same, G.ToOutcome(forwarded.value)) else AllWait(m[1..], same)
  }

  predicate OneRun(m: seq<Move>, same: Same) {
    m != [] ==> m[0].Asked? && m[0].answer.Run? && same(m[0].request) && OneAnswer(m[1..], same)
  }

  /** Everyone who asks under `k` does so before a lease taken at `t0` runs out, and sweeps come before
      an answer of that time expires. */
  predicate Contends(w: World, events: seq<Event>, t0: u64, k: Text) {
    forall i :: 0 <= i < |events| ==> Asks(w, events[i], k, t0)
  }

  predicate Asks(w: World, ev: Event, k: Text, t0: u64) {
    && (ev.Arrive? && G.KeyOf(ev.request) == Some(k) ==> ev.now < SatAdd(t0, w.service.cfg.lease))
    && (ev.Prune? ==> ev.now < SatAdd(t0, w.service.cfg.ttl))
  }

  /** The first request under `k`. */
  function FirstAsk(events: seq<Event>, k: Text): Option<Event> {
    if events == [] then None
    else if events[0].Arrive? && G.KeyOf(events[0].request) == Some(k) then Some(events[0])
    else FirstAsk(events[1..], k)
  }

  /** The first request under `k`, if there is one, asks `fp` at `t0`. */
  predicate Opens(w: World, events: seq<Event>, k: Text, fp: Digest, t0: u64) {
    match FirstAsk(events, k)
    case Some(Arrive(r, now)) => G.Fingerprint(w.service, r) == fp && now == t0
    case _ => true
  }

  ghost predicate Untouched(w: World, s: System, k: Text) {
    Placed(s) && Numbered(s) && k !in StoreOf(w, s, k) && NoTicket(s, k)
  }

  ghost predicate Held(w: World, s: System, k: Text, fp: Digest, t0: u64, id: nat, fence: nat) {
    && Placed(s) && Numbered(s)
    && k in StoreOf(w, s, k)
    && StoreOf(w, s, k)[k] == InProgress(fence, fp, SatAdd(t0, w.service.cfg.lease))
    && id in s.open
    && s.open[id] == Pending(ShardOf(w, |s.shards|, k), G.Ticket(Some(E.Token(k, fence))), t0)
    && forall other :: other in s.open && other != id ==> !Carries(s.open[other], k)
  }

  ghost predicate Waiting(w: World, s: System, k: Text, fp: Digest, t0: u64, fence: nat) {
    && Placed(s) && Numbered(s)
    && k in StoreOf(w, s, k)
    && StoreOf(w, s, k)[k] == InProgress(fence, fp, SatAdd(t0, w.service.cfg.lease))
    && NoTicket(s, k)
  }

  ghost predicate Answered(w: World, s: System, k: Text, fp: Digest, t0: u64, outcome: CachedOutcome) {
    && Placed(s) && Numbered(s)
    && k in StoreOf(w, s, k)
    && StoreOf(w, s, k)[k] == Completed(fp, outcome, t0)
    && NoTicket(s, k)
  }

  // ---- Steps ----

  /** An event that is no move for `k` leaves its state and its tickets alone. */
  lemma Elsewhere(w: World, s: System, ev: Event, k: Text)
    requires Placed(s) && Numbered(s) && MoveOf(w, s, ev, k).None?
    requires ev.Prune? && k in StoreOf(w, s, k) ==> E.Kept(w.service.cfg, StoreOf(w, s, k)[k], ev.now)
    ensures var t := Step(w, s, ev);
            && Numbered(t)
            && (k in StoreOf(w, t, k) <==> k in StoreOf(w, s, k))
            && (k in StoreOf(w, s, k) ==> StoreOf(w, t, k)[k] == StoreOf(w, s, k)[k])
            && (forall id :: id in s.open && Carries(s.open[id], k) ==> id in t.open && t.open[id] == s.open[id])
            && (forall id :: id in t.open && Carries(t.open[id], k) ==> id in s.open && t.open[id] == s.open[id])
  {
    hide Find, G.Merge, G.Counted, G.Settled, G.Fingerprint, ShardOf, G.PhaseOf;
    match ev {
      case Arrive(r, now) =>
        if G.KeyOf(r).Some? {
          G.PhaseForwards(G.Ask(w.service, s.shards[Route(w, s, r)], G.KeyOf(r).value, r, now));
        }
      case Finish(_, _) =>
      case Refuse =>
      case Prune(_, _) =>
    }
  }

  /** A request that is not told to run changes no store and opens no ticket. */
  lemma NotRun(w: World, s: System, r: Request, now: u64, k: Text)
    requires Placed(s) && Numbered(s) && G.KeyOf(r) == Some(k)
    requires !G.Ask(w.service, s.shards[Route(w, s, r)], k, r, now).Run?
    ensures var t := Step(w, s, Arrive(r, now));
            Numbered(t) && t.open == s.open && StoreOf(w, t, k) == StoreOf(w, s, k)
  {
    hide Find, G.Merge, G.Counted, ShardOf, G.PhaseOf;
    G.PhaseForwards(G.Ask(w.service, s.shards[Route(w, s, r)], k, r, now));
  }

  lemma AnsweredStep(w: World, s: System, ev: Event, k: Text, fp: Digest, t0: u64, outcome: CachedOutcome)
    requires Answered(w, s, k, fp, t0, outcome) && Asks(w, ev, k, t0)
    requires w.service.cfg.lease <= w.service.cfg.ttl
    ensures Answered(w, Step(w, s, ev), k, fp, t0, outcome)
    ensures var m := MoveOf(w, s, ev, k); m.Some? ==> Serves(ByFingerprint(w.service, fp), outcome, m.value)
  {
    hide Step, ShardOf, Find, G.Fingerprint;
    if MoveOf(w, s, ev, k).None? {
      Elsewhere(w, s, ev, k);
    } else {
      assert ev.Arrive?;
      NotRun(w, s, ev.request, ev.now, k);
    }
  }

  lemma WaitingStep(w: World, s: System, ev: Event, k: Text, fp: Digest, t0: u64, fence: nat)
    requires Waiting(w, s, k, fp, t0, fence) && Asks(w, ev, k, t0)
    ensures Waiting(w, Step(w, s, ev), k, fp, t0, fence)
    ensures var m := MoveOf(w, s, ev, k); m.Some? ==> Waits(ByFingerprint(w.service, fp), m.value)
  {
    hide Step, ShardOf, Find, G.Fingerprint;
    if MoveOf(w, s, ev, k).None? {
      Elsewhere(w, s, ev, k);
    } else {
      assert ev.Arrive?;
      NotRun(w, s, ev.request, ev.now, k);
    }
  }

  /** The backend answers for the held key. */
  lemma HeldFinish(w: World, s: System, k: Text, fp: Digest, t0: u64, id: nat, fence: nat, forwarded: Option<Response>)
    requires Held(w, s, k, fp, t0, id, fence)
    ensures var t := Step(w, s, Finish(id, forwarded));
            if G.Final(forwarded) then Answered(w, t, k, fp, t0, G.ToOutcome(forwarded.value))
            else Waiting(w, t, k, fp, t0, fence)
  {
    hide ShardOf, G.Merge, G.Settled, G.ToOutcome;
  }

  lemma HeldStep(w: World, s: System, ev: Event, k: Text, fp: Digest, t0: u64, id: nat, fence: nat)
    requires Held(w, s, k, fp, t0, id, fence) && Asks(w, ev, k, t0)
    requires !(ev.Finish? && ev.id == id)
    ensures Held(w, Step(w, s, ev), k, fp, t0, id, fence)
    ensures var m := MoveOf(w, s, ev, k); m.Some? ==> Waits(ByFingerprint(w.service, fp), m.value)
  {
    hide Step, ShardOf, Find, G.Fingerprint;
    if MoveOf(w, s, ev, k).None? {
      Elsewhere(w, s, ev, k);
    } else {
      assert ev.Arrive?;
      NotRun(w, s, ev.request, ev.now, k);
    }
  }

  lemma UntouchedAsk(w: World, s: System, r: Request, now: u64, k: Text) returns (fence: nat)
    requires Untouched(w, s, k) && G.KeyOf(r) == Some(k)
    ensures Held(w, Step(w, s, Arrive(r, now)), k, G.Fingerprint(w.service, r), now, s.arrived, fence)
    ensures MoveOf(w, s, Arrive(r, now), k) == Some(Asked(r, E.Run(E.Token(k, fence))))
  {
    hide Find, G.Merge, G.Counted, ShardOf, G.PhaseOf, G.Fingerprint;
    fence := s.shards[Route(w, s, r)].engine.next;
    G.PhaseForwards(G.Ask(w.service, s.shards[Route(w, s, r)], k, r, now));
  }

  // ---- Whole runs ----

  lemma {:induction false} FromAnswered(w: World, s: System, events: seq<Event>, k: Text, fp: Digest, t0: u64, outcome: CachedOutcome)
    requires Answered(w, s, k, fp, t0, outcome) && Contends(w, events, t0, k)
    requires w.service.cfg.lease <= w.service.cfg.ttl
    ensures AllServe(Moves(w, s, events, k), ByFingerprint(w.service, fp), outcome)
    decreases |events|
  {
    hide Step, MoveOf, StoreOf, Numbered, NoTicket;
    if events != [] {
      AnsweredStep(w, s, events[0], k, fp, t0, outcome);
      FromAnswered(w, Step(w, s, events[0]), events[1..], k, fp, t0, outcome);
    }
  }

  lemma {:induction false} FromWaiting(w: World, s: System, events: seq<Event>, k: Text, fp: Digest, t0: u64, fence: nat)
    requires Waiting(w, s, k, fp, t0, fence) && Contends(w, events, t0, k)
    ensures AllWait(Moves(w, s, events, k), ByFingerprint(w.service, fp))
    decreases |events|
  {
    hide Step, MoveOf, StoreOf, Numbered, NoTicket;
    if events != [] {
      WaitingStep(w, s, events[0], k, fp, t0, fence);
      FromWaiting(w, Step(w, s, events[0]), events[1..], k, fp, t0, fence);
    }
  }

  predicate HasAnswer(m: seq<Move>) {
    exists i :: 0 <= i < |m| && m[i].Backend?
  }

  lemma {:induction false} FromHeld(w: World, s: System, events: seq<Event>, k: Text, fp: Digest, t0: u64, id: nat, fence: nat)
    requires Held(w, s, k, fp, t0, id, fence) && Contends(w, events, t0, k)
    requires w.service.cfg.lease <= w.service.cfg.ttl
    ensures OneAnswer(Moves(w, s, events, k), ByFingerprint(w.service, fp))
    ensures NoTicket(Run(w, s, events), k) ==> HasAnswer(Moves(w, s, events, k))
    decreases |events|
  {
    hide Step, ShardOf, G.KeyOf, Numbered, G.Ask, G.ToOutcome, Route, SatAdd;
    if events == [] {
      assert Carries(s.open[id], k);
    } else {
      var ev, rest := events[0], events[1..];
      assert Contends(w, rest, t0, k);
      var t := Step(w, s, ev);
      var m := Moves(w, s, events, k);
      if ev.Finish? && ev.id == id {
        HeldFinish(w, s, k, fp, t0, id, fence, ev.forwarded);
        if G.Final(ev.forwarded) {
          FromAnswered(w, t, rest, k, fp, t0, G.ToOutcome(ev.forwarded.value));
        } else {
          FromWaiting(w, t, rest, k, fp, t0, fence);
        }
        assert m[0] == Backend(ev.forwarded) && m[1..] == Moves(w, t, rest, k);
      } else {
        HeldStep(w, s, ev, k, fp, t0, id, fence);
        FromHeld(w, t, rest, k, fp, t0, id, fence);
        assert m == Moves(w, t, rest, k) || (Waits(ByFingerprint(w.service, fp), m[0]) && m[1..] == Moves(w, t, rest, k));
      }
    }
  }

  lemma {:induction false} FromUntouched(w: World, s: System, events: seq<Event>, k: Text, fp: Digest, t0: u64)
    requires Untouched(w, s, k) && Contends(w, events, t0, k)
    requires Opens(w, events, k, fp, t0)
    requires w.service.cfg.lease <= w.service.cfg.ttl
    ensures var m := Moves(w, s, events, k);
            OneRun(m, ByFingerprint(w.service, fp)) && (m != [] && NoTicket(Run(w, s, events), k) ==> HasAnswer(m))
    decreases |events|
  {
    hide Step, ShardOf, Numbered, G.Ask, Find, Route, SatAdd, OneAnswer, Carries;
    if events != [] {
      var ev, rest := events[0], events[1..];
      assert Contends(w, rest, t0, k);
      var m := Moves(w, s, events, k);
      if ev.Arrive? && G.KeyOf(ev.request) == Some(k) {
        var fence := UntouchedAsk(w, s, ev.request, ev.now, k);
        FromHeld(w, Step(w, s, ev), rest, k, fp, t0, s.arrived, fence);
        assert m[1..] == Moves(w, Step(w, s, ev), rest, k);
      } else {
        Elsewhere(w, s, ev, k);
        FromUntouched(w, Step(w, s, ev), rest, k, fp, t0);
      }
    }
  }

  // ---- What the clients see ----

  /** The history of a key, with the backend's answer at its `j`-th move, or at its end while the answer
      is outstanding. The first request is forwarded and told nothing yet. Everyone who asks something
      else is refused with a 422. Everyone who asks the same is told 409 until the answer, and then served
      it if it is below 500. The answer itself goes to the first. */
  ghost predicate OneHistory(m: seq<Move>, replies: seq<Option<Response>>, same: Same, j: nat) {
    && |replies| == |m| && 1 <= j <= |m|
    && m[0].Asked? && m[0].answer.Run? && same(m[0].request) && replies[0] == None
    && (forall i :: 1 <= i < j ==> m[i].Asked? && Refrains(replies[i], same(m[i].request)))
    && (j < |m| ==> m[j].Backend? && SettledAs(replies[j], m[j].forwarded) && ServedAfter(m, replies, same, j, m[j].forwarded))
  }

  ghost predicate ServedAfter(m: seq<Move>, replies: seq<Option<Response>>, same: Same, j: nat, forwarded: Option<Response>)
    requires |replies| == |m|
  {
    forall i :: j < i < |m| ==>
      && m[i].Asked?
      && if forwarded.Some? && forwarded.value.status < 500 then ReplayedAs(replies[i], same(m[i].request), forwarded.value)
         else Refrains(replies[i], same(m[i].request))
  }

  /** Told to wait, or refused. */
  predicate Refrains(x: Option<Response>, same: bool) {
    x.Some? && if same then Bare(x.value, 409, "in-progress") else Bare(x.value, 422, "mismatch")
  }

  predicate SettledAs(x: Option<Response>, forwarded: Option<Response>) {
    x.Some? && Settles(x.value, true, forwarded)
  }

  /** Served again, or refused. */
  ghost predicate ReplayedAs(x: Option<Response>, same: bool, r: Response) {
    x.Some? && if same then Replays(x.value, r) else Bare(x.value, 422, "mismatch")
  }

  /** Where the backend's answer stands among the moves. */
  lemma {:induction false} AnswerAt(m: seq<Move>, same: Same) returns (j: nat)
    requires OneAnswer(m, same)
    ensures j <= |m|
    ensures forall i :: 0 <= i < j ==> Waits(same, m[i])
    ensures j < |m| ==>
              && m[j].Backend?
              && forall i :: j < i < |m| ==>
                   if G.Final(m[j].forwarded) then Serves(same, G.ToOutcome(m[j].forwarded.value), m[i]) else Waits(same, m[i])
    ensures HasAnswer(m) ==> j < |m|
  {
    hide G.Final, G.ToOutcome;
    j := 0;
    if m != [] && m[0].Asked? {
      var rest := m[1..];
      j := AnswerAt(rest, same);
      j := j + 1;
      assert forall i :: 1 <= i < |m| ==> m[i] == rest[i - 1];
    } else if m != [] {
      assert forall i :: 1 <= i < |m| ==> m[i] == m[1..][i - 1];
    }
  }

  lemma WaitsTold(same: Same, m: Move)
    requires Waits(same, m)
    ensures m.Asked? && !m.answer.Run? && Refrains(Told(m), same(m.request))
  {
    hide Ascii;
    OwnResponses();
  }

  lemma ServesTold(same: Same, r: Response, m: Move)
    requires Serves(same, G.ToOutcome(r), m)
    ensures m.Asked? && !m.answer.Run? && ReplayedAs(Told(m), same(m.request), r)
  {
    hide Ascii, Replays, G.FromOutcome, G.ToOutcome;
    OwnResponses();
    ReplayIsMarked(r);
  }

  lemma BackendTold(m: Move)
    requires m.Backend?
    ensures SettledAs(Told(m), m.forwarded)
  {
    hide Ascii;
  }

  lemma HistoryTold(m: seq<Move>, replies: seq<Option<Response>>, same: Same) returns (j: nat)
    requires m != [] && OneRun(m, same)
    requires |replies| == |m| && forall i :: 0 <= i < |m| ==> replies[i] == Told(m[i])
    ensures OneHistory(m, replies, same, j) && (HasAnswer(m) ==> j < |m|)
    ensures forall i :: 0 < i < |m| ==> !(m[i].Asked? && m[i].answer.Run?)
  {
    hide Told, G.ToOutcome, OneAnswer, Waits, Serves, Refrains, SettledAs, ReplayedAs;
    var rest := m[1..];
    j := AnswerAt(rest, same);
    j := j + 1;
    FirstTold(m[0]);
    assert j < |m| ==> m[j] == rest[j - 1];
    if j < |m| {
      BackendTold(m[j]);
    }
    forall i | 1 <= i < |m| && i != j
      ensures m[i].Asked? && !m[i].answer.Run?
      ensures i < j || !G.Final(m[j].forwarded) ==> Refrains(replies[i], same(m[i].request))
      ensures i > j && G.Final(m[j].forwarded) ==> ReplayedAs(replies[i], same(m[i].request), m[j].forwarded.value)
    {
      assert m[i] == rest[i - 1];
      if i > j && G.Final(m[j].forwarded) {
        ServesTold(same, m[j].forwarded.value, m[i]);
      } else {
        WaitsTold(same, m[i]);
      }
    }
  }

  lemma FirstTold(m: Move)
    requires m.Asked? && m.answer.Run?
    ensures Told(m) == None
  {
  }

  /** From a fresh key, with a lease no longer than the TTL, under every interleaving: the backend is
      asked at most once under the key, and what each client is told follows one history. Once nothing is
      in flight the backend has answered, so if it answered below 500 exactly one response was created
      and all others asking the same were replayed or told to wait. */
  lemma ForwardedOnce(w: World, s: System, events: seq<Event>, k: Text, fp: Digest, t0: u64)
    requires Untouched(w, s, k) && Contends(w, events, t0, k) && Opens(w, events, k, fp, t0)
    requires w.service.cfg.lease <= w.service.cfg.ttl
    ensures var m := Moves(w, s, events, k);
            && (forall i :: 0 < i < |m| ==> !(m[i].Asked? && m[i].answer.Run?))
            && (m != [] ==> exists j: nat ::
                  && OneHistory(m, KeyReplies(w, s, events, k), ByFingerprint(w.service, fp), j)
                  && (NoTicket(Run(w, s, events), k) ==> j < |m|))
  {
    hide StoreOf, Numbered, Contends, Opens, Moves, KeyReplies, Run, NoTicket, OneRun, OneHistory, HasAnswer, Told;
    var m, replies := Moves(w, s, events, k), KeyReplies(w, s, events, k);
    FromUntouched(w, s, events, k, fp, t0);
    MovesAreReplies(w, s, events, k);
    if m != [] {
      var j := HistoryTold(m, replies, ByFingerprint(w.service, fp));
      assert OneHistory(m, replies, ByFingerprint(w.service, fp), j);
    }
  }

  // ---- The same in terms of what is asked ----

  function ByContent(first: Request): Same {
    r => G.SameContent(first, r)
  }

  ghost predicate Delivered(r: Request) {
    G.Received(r) && G.UpTo(r, G.MAX_FIELD)
  }

  /** Every request under `k` is one the parser delivers, with fields of at most 2^32 bytes. */
  ghost predicate AllDelivered(events: seq<Event>, k: Text) {
    forall i :: 0 <= i < |events| && events[i].Arrive? && G.KeyOf(events[i].request) == Some(k) ==> Delivered(events[i].request)
  }

  ghost predicate AskedDelivered(m: seq<Move>) {
    forall i :: 0 <= i < |m| && m[i].Asked? ==> Delivered(m[i].request)
  }

  lemma NoneAsked()
    ensures AskedDelivered([])
  {
  }

  lemma DeliveredFirst(m: Move, rest: seq<Move>)
    requires (m.Asked? ==> Delivered(m.request)) && AskedDelivered(rest)
    ensures AskedDelivered([m] + rest)
  {
    hide Delivered;
  }

  lemma {:induction false} MovesDelivered(w: World, s: System, events: seq<Event>, k: Text)
    requires Placed(s) && AllDelivered(events, k)
    ensures AskedDelivered(Moves(w, s, events, k))
    decreases |events|
  {
    hide Step, Delivered, AskedDelivered, G.KeyOf, G.Ask, Route;
    if events == [] {
      assert AskedDelivered([]) by {
        NoneAsked();
      }
    }
    if events != [] {
      assert AllDelivered(events[1..], k);
      MovesDelivered(w, Step(w, s, events[0]), events[1..], k);
      var ev, rest := events[0], Moves(w, Step(w, s, events[0]), events[1..], k);
      assert ev.Arrive? && G.KeyOf(ev.request) == Some(k) ==> Delivered(ev.request);
      var first := MoveOf(w, s, ev, k);
      if first.Some? {
        DeliveredFirst(first.value, rest);
      }
    }
  }

  /** Without a collision of the keyed hash, equal fingerprints and equal content are the same. */
  lemma ContentTells(sv: G.Service, fp: Digest, first: Request, r: Request)
    requires Delivered(first) && Delivered(r) && G.Fingerprint(sv, first) == fp && !G.MacCollision(sv, first, r)
    ensures ByFingerprint(sv, fp)(r) <==> ByContent(first)(r)
  {
    hide G.Fingerprint, G.SameContent, G.MacCollision, G.Received, G.UpTo;
    if G.SameContent(first, r) {
      G.FingerprintIs(sv, first, r);
    }
    if G.Fingerprint(sv, r) == fp {
      G.FingerprintTells(sv, first, r);
    }
  }

  lemma HistoryAgrees(m: seq<Move>, replies: seq<Option<Response>>, same: Same, same': Same, j: nat)
    requires OneHistory(m, replies, same, j)
    requires forall i :: 0 <= i < |m| && m[i].Asked? ==> same(m[i].request) == same'(m[i].request)
    ensures OneHistory(m, replies, same', j)
  {
    hide Refrains, SettledAs, ReplayedAs;
  }

  /** The history in terms of method, target and body, as the clients know them: either it is the one
      above with "the same" meaning the same content as the first request, or the keyed hash has collided
      on the first request and another. */
  lemma ServedByContent(w: World, s: System, events: seq<Event>, k: Text, fp: Digest, t0: u64)
    requires Untouched(w, s, k) && Contends(w, events, t0, k) && Opens(w, events, k, fp, t0)
    requires w.service.cfg.lease <= w.service.cfg.ttl && AllDelivered(events, k)
    ensures var m := Moves(w, s, events, k);
            m != [] ==>
              && m[0].Asked?
              && (|| (exists i :: 0 <= i < |m| && m[i].Asked? && G.MacCollision(w.service, m[0].request, m[i].request))
                  || exists j: nat ::
                       && OneHistory(m, KeyReplies(w, s, events, k), ByContent(m[0].request), j)
                       && (NoTicket(Run(w, s, events), k) ==> j < |m|))
  {
    hide StoreOf, Numbered, Contends, Opens, Moves, KeyReplies, Run, NoTicket, AllDelivered, Delivered, G.MacCollision, Refrains, SettledAs, ReplayedAs;
    var m, replies, same := Moves(w, s, events, k), KeyReplies(w, s, events, k), ByFingerprint(w.service, fp);
    ForwardedOnce(w, s, events, k, fp, t0);
    MovesDelivered(w, s, events, k);
    if m != [] && !exists i :: 0 <= i < |m| && m[i].Asked? && G.MacCollision(w.service, m[0].request, m[i].request) {
      var j: nat :| OneHistory(m, replies, same, j) && (NoTicket(Run(w, s, events), k) ==> j < |m|);
      var first := m[0].request;
      forall i | 0 <= i < |m| && m[i].Asked?
        ensures same(m[i].request) == ByContent(first)(m[i].request)
      {
        ContentTells(w.service, fp, first, m[i].request);
      }
      HistoryAgrees(m, replies, same, ByContent(first), j);
    }
  }

  /** While the key is held the bound on the times is exact: the same request is told to run again, and
      so forwarded a second time, exactly when it comes at or after the end of the lease. */
  lemma RunsAgainIff(w: World, s: System, r: Request, now: u64, k: Text, fp: Digest, t0: u64, id: nat, fence: nat)
    requires Held(w, s, k, fp, t0, id, fence)
    requires G.KeyOf(r) == Some(k) && G.Fingerprint(w.service, r) == fp
    ensures var m := MoveOf(w, s, Arrive(r, now), k);
            m.Some? && m.value.Asked? && (m.value.answer.Run? <==> now >= SatAdd(t0, w.service.cfg.lease))
  {
    hide Find, ShardOf, G.Fingerprint;
  }
}
