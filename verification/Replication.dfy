/** Synchronous replication: every write goes to every node before it returns. Node 0 serves reads. */
module Replication {
  import opened Prelude
  import opened Keys
  import opened Engine
  import O = Operations
  import F = Fencing
  import Journal

  /** The nodes when a write to all of them has reached the first `k`. */
  function Split(before: seq<Index>, after: seq<Index>, k: nat): (r: seq<Index>)
    requires |before| == |after| && k <= |before|
    ensures |r| == |before|
    ensures forall i :: 0 <= i < |r| ==> r[i] == if i < k then after[i] else before[i]
  {
    after[..k] + before[k..]
  }

  function Everywhere(nodes: seq<Index>, f: Index -> Index): (r: seq<Index>)
    ensures |r| == |nodes|
    ensures forall i :: 0 <= i < |r| ==> r[i] == f(nodes[i])
  {
    if nodes == [] then [] else [f(nodes[0])] + Everywhere(nodes[1..], f)
  }

  class ReplicatedStore {
    var replicas: seq<Index>

    constructor (replicas: seq<Index>)
      requires replicas != []
      ensures this.replicas == replicas
    {
      this.replicas := replicas;
    }

    method Get(key: Text) returns (r: Option<KeyState>)
      requires replicas != []
      ensures r == if key in replicas[0] then Some(replicas[0][key]) else None
    {
      r := if key in replicas[0] then Some(replicas[0][key]) else None;
    }

    /** The nodes are written in index order: `moments` are the states the loop passes through, one after
        each node, and a process that dies inside the loop leaves one of them. */
    method Put(w: Write) returns (ghost moments: seq<seq<Index>>)
      requires replicas != []
      modifies this
      ensures replicas == Everywhere(old(replicas), (index: Index) => Update(index, w))
      ensures |moments| == |replicas| + 1
      ensures forall k :: 0 <= k <= |replicas| ==> moments[k] == Split(old(replicas), replicas, k)
    {
      hide Split, Everywhere;
      ghost var before, after := replicas, Everywhere(replicas, (index: Index) => Update(index, w));
      moments := [replicas];
      var last := |replicas| - 1;
      for i := 0 to last
        invariant replicas == Split(before, after, i)
        invariant |moments| == i + 1 && forall k :: 0 <= k <= i ==> moments[k] == Split(before, after, k)
      {
        replicas := replicas[i := Update(replicas[i], w)];
        moments := moments + [replicas];
        assert replicas == Split(before, after, i + 1);
      }
      replicas := replicas[last := Update(replicas[last], w)];
      moments := moments + [replicas];
      assert replicas == Split(before, after, |before|) == after;
    }

    method Compact(keep: (Text, KeyState) -> bool) returns (ghost moments: seq<seq<Index>>)
      requires replicas != []
      modifies this
      ensures replicas == Everywhere(old(replicas), (index: Index) => Journal.Retain(index, keep))
      ensures |moments| == |replicas| + 1
      ensures forall k :: 0 <= k <= |replicas| ==> moments[k] == Split(old(replicas), replicas, k)
    {
      hide Split, Everywhere, Journal.Retain;
      ghost var before, after := replicas, Everywhere(replicas, (index: Index) => Journal.Retain(index, keep));
      moments := [replicas];
      for i := 0 to |replicas|
        invariant replicas == Split(before, after, i)
        invariant |moments| == i + 1 && forall k :: 0 <= k <= i ==> moments[k] == Split(before, after, k)
      {
        replicas := replicas[i := Journal.Retain(replicas[i], keep)];
        moments := moments + [replicas];
        assert replicas == Split(before, after, i + 1);
      }
      assert replicas == Split(before, after, |before|) == after;
    }
  }

  // ---- Losing the process inside a write ----

  /** Operations on an engine over the replicated store, and a death inside one: the write had reached
      `reached` nodes, and node `promoted` carries on alone. */
  datatype Event = Do(op: O.Op) | Die(op: O.Op, reached: nat, promoted: nat) | Join(count: nat)

  /** The engine's counter and the nodes. */
  datatype Cluster = Cluster(nodes: seq<Index>, next: nat)

  ghost predicate InSync(c: Cluster) {
    c.nodes != [] && forall i :: 0 <= i < |c.nodes| ==> c.nodes[i] == c.nodes[0]
  }

  /** What the engine over the cluster sees: reads go to node 0. */
  function View(c: Cluster): State
    requires c.nodes != []
  {
    State(c.nodes[0], c.next)
  }

  /** Every node after the engine's operation has run to its end. */
  ghost function NodesAfter(cfg: Config, c: Cluster, op: O.Op): seq<Index>
    requires c.nodes != []
  {
    seq(|c.nodes|, i requires 0 <= i < |c.nodes| => O.After(cfg, State(c.nodes[i], c.next), op).index)
  }

  predicate Possible(c: Cluster, ev: Event) {
    && c.nodes != []
    && (ev.Die? ==> ev.reached <= |c.nodes| && ev.promoted < |c.nodes|)
  }

  ghost function Step(cfg: Config, c: Cluster, ev: Event): Cluster
    requires Possible(c, ev)
  {
    match ev
    case Do(op) => Cluster(NodesAfter(cfg, c, op), O.After(cfg, View(c), op).next)
    case Die(op, reached, promoted) =>
      var left := Split(c.nodes, NodesAfter(cfg, c, op), reached)[promoted];
      Cluster([left], Seeded(left).next)
    case Join(count) => Cluster(c.nodes + Copies(c.nodes[0], count), c.next)
  }

  function Copies(index: Index, count: nat): (r: seq<Index>)
    ensures |r| == count && forall i :: 0 <= i < count ==> r[i] == index
  {
    if count == 0 then [] else [index] + Copies(index, count - 1)
  }

  /** The same event on one node that never fails: a death is a crash just before or just after the
      operation, according to whether the promoted node had the write. */
  function OnOneNode(ev: Event): seq<O.Op> {
    match ev
    case Do(op) => [op]
    case Die(op, reached, promoted) => if promoted < reached then [op, O.Crash] else [O.Crash]
    case Join(_) => []
  }

  lemma StepMatches(cfg: Config, c: Cluster, ev: Event)
    requires InSync(c) && Possible(c, ev)
    ensures InSync(Step(cfg, c, ev))
    ensures View(Step(cfg, c, ev)) == O.AfterAll(cfg, View(c), OnOneNode(ev))
  {
    hide O.After;
    var e, d := View(c), Step(cfg, c, ev);
    match ev
    case Do(op) =>
      assert [op][1..] == [];
      assert forall i :: 0 <= i < |d.nodes| ==> d.nodes[i] == O.After(cfg, e, op).index;
    case Die(op, reached, promoted) =>
      CrashReseeds(cfg, e);
      CrashReseeds(cfg, O.After(cfg, e, op));
      assert [O.Crash][1..] == [] && [op, O.Crash][1..] == [O.Crash];
    case Join(_) =>
  }

  lemma CrashReseeds(cfg: Config, e: State)
    ensures O.After(cfg, e, O.Crash) == Seeded(e.index)
  {
  }

  ghost predicate AllPossible(cfg: Config, c: Cluster, events: seq<Event>)
    decreases |events|
  {
    events == [] || (Possible(c, events[0]) && AllPossible(cfg, Step(cfg, c, events[0]), events[1..]))
  }

  ghost function Run(cfg: Config, c: Cluster, events: seq<Event>): Cluster
    requires AllPossible(cfg, c, events)
    decreases |events|
  {
    if events == [] then c else Run(cfg, Step(cfg, c, events[0]), events[1..])
  }

  function AllOnOneNode(events: seq<Event>): seq<O.Op> {
    if events == [] then [] else OnOneNode(events[0]) + AllOnOneNode(events[1..])
  }

  /** However often the process dies inside a write and whichever node is promoted each time, the
      engine is where one strict node would be after the same operations and crashes. */
  lemma {:induction false} FailoverIsACrash(cfg: Config, c: Cluster, events: seq<Event>)
    requires InSync(c) && AllPossible(cfg, c, events)
    ensures InSync(Run(cfg, c, events))
    ensures View(Run(cfg, c, events)) == O.AfterAll(cfg, View(c), AllOnOneNode(events))
    decreases |events|
  {
    if events != [] {
      StepMatches(cfg, c, events[0]);
      FailoverIsACrash(cfg, Step(cfg, c, events[0]), events[1..]);
      O.AfterAllAppend(cfg, View(c), OnOneNode(events[0]), AllOnOneNode(events[1..]));
    }
  }

  /** A death inside one operation: every completion acknowledged before it is still replayed, and no
      fence acknowledged before it is minted again while its lease is in progress. */
  lemma AcknowledgedSurvives(cfg: Config, c: Cluster, op: O.Op, reached: nat, promoted: nat, key: Text, fp: Digest, now: u64)
    requires InSync(c) && Possible(c, Die(op, reached, promoted)) && O.NotAfter(op, now)
    requires Fenced(View(c)) && key in c.nodes[0]
    ensures var e := View(Step(cfg, c, Die(op, reached, promoted)));
            match c.nodes[0][key]
            case Completed(stored, outcome, _) =>
              !Expired(cfg, c.nodes[0][key], now) && stored == fp ==> Engine.Begin(cfg, e, key, fp, now) == Replay(outcome)
            case InProgress(fence, _, _) =>
              || fence < e.next
              || (key in e.index && e.index[key].Completed? && op.Complete? && op.token == Token(key, fence))
  {
    var before := View(c);
    var left := Step(cfg, c, Die(op, reached, promoted)).nodes[0];
    assert left == before.index || left == O.After(cfg, before, op).index;
    if c.nodes[0][key].InProgress? || !Expired(cfg, c.nodes[0][key], now) {
      assert key in left;
    }
    if key in left && left[key].InProgress? {
      assert left[key].fence < Seeded(left).next;
    }
  }

  lemma {:induction false} OnOneNodeTimes(events: seq<Event>, now: u64)
    requires forall i :: 0 <= i < |events| && !events[i].Join? ==> O.NotAfter(events[i].op, now)
    ensures forall i :: 0 <= i < |AllOnOneNode(events)| ==> O.NotAfter(AllOnOneNode(events)[i], now)
  {
    if events != [] {
      OnOneNodeTimes(events[1..], now);
    }
  }

  /** A completion acknowledged at any point is replayed after everything that follows, through any
      number of deaths and promotions, until its TTL runs out. */
  lemma CompletionSurvives(cfg: Config, c: Cluster, events: seq<Event>, key: Text, fp: Digest, now: u64)
    requires InSync(c) && AllPossible(cfg, c, events)
    requires forall i :: 0 <= i < |events| && !events[i].Join? ==> O.NotAfter(events[i].op, now)
    requires key in c.nodes[0] && c.nodes[0][key].Completed? && c.nodes[0][key].fingerprint == fp
    requires !Expired(cfg, c.nodes[0][key], now)
    ensures InSync(Run(cfg, c, events))
    ensures Engine.Begin(cfg, View(Run(cfg, c, events)), key, fp, now) == Replay(c.nodes[0][key].outcome)
  {
    hide Run, O.AfterAll, Step;
    FailoverIsACrash(cfg, c, events);
    OnOneNodeTimes(events, now);
    O.CompletedIsImmutable(cfg, View(c), AllOnOneNode(events), key, fp, now);
  }

  lemma {:induction false} TraceFollows(cfg: Config, t: F.Trace, ops: seq<O.Op>)
    ensures F.Run(cfg, t, ops).engine == O.AfterAll(cfg, t.engine, ops)
    decreases |ops|
  {
    if ops != [] {
      TraceFollows(cfg, F.Step(cfg, t, ops[0]), ops[1..]);
    }
  }

  /** Through any number of deaths and promotions the fences handed out for a key strictly increase, so
      none is minted twice, as long as no key is recycled. */
  lemma FencesSurvive(cfg: Config, index: Index, c: Cluster, events: seq<Event>)
    requires InSync(c) && AllPossible(cfg, c, events) && View(c) == Seeded(index)
    requires F.NoRecycling(cfg, F.Opened(index), AllOnOneNode(events))
    ensures InSync(Run(cfg, c, events))
    ensures var t := F.Run(cfg, F.Opened(index), AllOnOneNode(events));
            t.engine == View(Run(cfg, c, events)) && F.AllIncreasing(t)
  {
    hide Run, F.Run, O.AfterAll, Step, F.AllIncreasing, F.NoRecycling;
    FailoverIsACrash(cfg, c, events);
    TraceFollows(cfg, F.Opened(index), AllOnOneNode(events));
    F.FencesIncrease(cfg, index, AllOnOneNode(events));
  }
}
