/** The gateway as it runs: an engine over its log, and counters. */
module GatewayObject {
  import opened Prelude
  import opened Keys
  import opened Http
  import E = Engine
  import opened EngineObject
  import opened Journal
  import G = Gateway

  class Gateway {
    const engine: Engine
    const mac: Bytes -> Digest
    var metrics: G.Metrics

    function Service(): G.Service {
      G.Service(engine.cfg, mac)
    }

    function View(): G.State
      reads this, engine, engine.store
    {
      G.State(engine.View(), metrics)
    }

    constructor (engine: Engine, mac: Bytes -> Digest)
      ensures this.engine == engine && this.mac == mac
      ensures View() == G.State(engine.View(), G.NOTHING)
    {
      this.engine := engine;
      this.mac := mac;
      metrics := G.NOTHING;
    }

    /** Decides a request. Only a forward of a keyed request writes to the log. */
    method BeginPhase(request: Request, now: u64) returns (phase: G.Phase)
      modifies this, engine, engine.store
      ensures phase == G.BeginPhase(Service(), old(View()), request, now)
      ensures View() == G.AfterBegin(Service(), old(View()), request, now)
      ensures phase.Done? || G.KeyOf(request).None? ==> engine.store.State() == old(engine.store.State())
    {
      hide G.Merge, G.Fingerprint, Find, E.Begin, E.AfterBegin;
      var key := G.KeyOf(request);
      if key == None {
        metrics := G.Merge(metrics, G.NOTHING.(requests := 1));
        return G.Forward(G.Ticket(None));
      }
      var fingerprint := G.Fingerprint(Service(), request);
      var answer := engine.Begin(key.value, fingerprint, now);
      metrics := G.Merge(metrics, G.Counted(answer));
      G.PhaseForwards(answer);
      phase := G.PhaseOf(answer);
    }

    /** Settles a forwarded request with what the backend answered. */
    method CompletePhase(ticket: G.Ticket, forwarded: Option<Response>, now: u64) returns (response: Response)
      modifies this, engine, engine.store
      ensures response == G.CompletePhase(ticket, forwarded)
      ensures View() == G.AfterComplete(old(View()), ticket, forwarded, now)
      ensures ticket.token.None? || !G.Final(forwarded) ==> engine.store.State() == old(engine.store.State())
    {
      hide G.Merge, E.AfterComplete, E.Complete, G.ToOutcome, G.Settled, Ascii;
      match ticket.token {
        case Some(token) =>
          match forwarded {
            case Some(answer) =>
              if answer.status >= 500 {
                response := answer;
              } else {
                var _ := engine.Complete(token, G.ToOutcome(answer), now);
                response := G.Tag(answer, Ascii("created"));
              }
            case None =>
              response := G.BAD_GATEWAY;
          }
        case None =>
          match forwarded {
            case Some(answer) =>
              response := answer;
            case None =>
              response := G.BAD_GATEWAY;
          }
      }
      metrics := G.Merge(metrics, G.Settled(ticket, forwarded));
    }

    /** Both phases with the forward between them, when nobody else is served meanwhile. */
    method HandleAfterAbuse(request: Request, now: u64, upstream: Request -> Option<Response>) returns (response: Response)
      modifies this, engine, engine.store
      ensures match G.BeginPhase(Service(), old(View()), request, now)
              case Done(answer) =>
                response == answer && View() == G.AfterBegin(Service(), old(View()), request, now)
              case Forward(ticket) =>
                && response == G.CompletePhase(ticket, upstream(request))
                && View() == G.AfterComplete(G.AfterBegin(Service(), old(View()), request, now), ticket, upstream(request), now)
    {
      hide G.BeginPhase, G.AfterBegin, G.CompletePhase, G.AfterComplete;
      var phase := BeginPhase(request, now);
      match phase {
        case Done(answer) =>
          response := answer;
        case Forward(ticket) =>
          response := CompletePhase(ticket, upstream(request), now);
      }
    }

    method PruneExpired(now: u64)
      modifies engine.store
      ensures View() == G.State(E.AfterPrune(engine.cfg, old(View()).engine, now), old(metrics))
    {
      hide E.AfterPrune;
      var _ := engine.PruneExpired(now);
    }
  }
}
