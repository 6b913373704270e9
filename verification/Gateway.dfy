/** One gateway: the engine between its clients and the backend. A request is decided in `BeginPhase`,
    forwarded with no lock held, and settled in `CompletePhase`. */
module Gateway {
  import opened Prelude
  import opened Texts
  import opened Keys
  import opened Http
  import E = Engine

  /** Counters. They are taken never to reach 2^64. */
  datatype Metrics = Metrics(
    requests: nat, created: nat, replayed: nat, inProgress: nat,
    mismatch: nat, denied: nat, upstreamError: nat, passthrough: nat)

  const NOTHING: Metrics := Metrics(0, 0, 0, 0, 0, 0, 0, 0)

  function Merge(a: Metrics, b: Metrics): Metrics {
    Metrics(a.requests + b.requests, a.created + b.created, a.replayed + b.replayed, a.inProgress + b.inProgress,
            a.mismatch + b.mismatch, a.denied + b.denied, a.upstreamError + b.upstreamError, a.passthrough + b.passthrough)
  }

  lemma MergeNothing(m: Metrics)
    ensures Merge(m, NOTHING) == m && Merge(NOTHING, m) == m
  {
  }

  lemma MergeSwaps(a: Metrics, b: Metrics, c: Metrics)
    ensures Merge(Merge(a, b), c) == Merge(Merge(a, c), b)
    ensures Merge(Merge(a, b), c) == Merge(a, Merge(b, c))
  {
  }

  /** Requests counted in by `m` and not yet counted out. */
  function Unsettled(m: Metrics): int {
    m.requests - (m.created + m.replayed + m.inProgress + m.mismatch + m.upstreamError + m.passthrough)
  }

  /** The engine's settings and the keyed hash that fingerprints requests. */
  datatype Service = Service(cfg: E.Config, mac: Bytes -> Digest)

  datatype State = State(engine: E.State, metrics: Metrics)

  datatype Ticket = Ticket(token: Option<E.Token>)

  datatype Phase = Done(response: Response) | Forward(ticket: Ticket)

  lemma UnsettledAdds(a: Metrics, b: Metrics)
    ensures Unsettled(Merge(a, b)) == Unsettled(a) + Unsettled(b)
  {
  }

  function Denied(n: nat): Metrics {
    NOTHING.(denied := n)
  }

  // ---- Requests ----

  /** "idempotency-key". */
  const IDEMPOTENCY_KEY: Text := [105, 100, 101, 109, 112, 111, 116, 101, 110, 99, 121, 45, 107, 101, 121]

  function KeyOf(r: Request): Option<Text> {
    Find(r.headers, IDEMPOTENCY_KEY)
  }

  function Be32(n: nat): (b: Bytes)
    ensures |b| == 4
  {
    [n / 0x100_0000 % 256, n / 0x1_0000 % 256, n / 0x100 % 256, n % 256]
  }

  function Field(s: Bytes): Bytes {
    Be32(|s|) + s
  }

  function Canonical(r: Request): Bytes {
    Field(r.method_) + (Field(r.target) + Field(r.body))
  }

  function Fingerprint(sv: Service, r: Request): Digest {
    sv.mac(Canonical(r))
  }

  /** A length of 1 to 2^32 is known from its prefix: only 2^32 wraps, to the prefix of no bytes. */
  lemma FieldSplits(a: Bytes, b: Bytes, x: Bytes, y: Bytes)
    requires 0 < |a| <= MAX_FIELD && 0 < |b| <= MAX_FIELD
    requires Field(a) + x == Field(b) + y
    ensures a == b && x == y
  {
    var s := Field(a) + x;
    assert s[..4] == Be32(|a|) == Be32(|b|);
    Be32Injective(|a|, |b|);
    assert a == s[4..4 + |a|] == b;
    assert x == s[4 + |a|..] == y;
  }

  const MAX_FIELD: nat := 0x1_0000_0000

  lemma Be32Injective(m: nat, n: nat)
    requires 0 < m <= MAX_FIELD && 0 < n <= MAX_FIELD
    requires Be32(m) == Be32(n)
    ensures m == n
  {
    hide Be32, Read32;
    Be32Value(m);
    Be32Value(n);
  }

  function Read32(b: Bytes): int
    requires |b| == 4
  {
    b[0] as int * 0x100_0000 + b[1] as int * 0x1_0000 + b[2] as int * 0x100 + b[3]
  }

  lemma Be32Value(n: nat)
    ensures n % MAX_FIELD == Read32(Be32(n))
  {
    var q1, q2, q3, q4 := n / 0x100, n / 0x1_0000, n / 0x100_0000, n / MAX_FIELD;
    DivStep(n, 0x100);
    DivStep(n, 0x1_0000);
    DivStep(n, 0x100_0000);
    assert n == 0x100 * q1 + n % 0x100 && n == MAX_FIELD * q4 + n % MAX_FIELD;
    assert q1 == 0x100 * q2 + q1 % 0x100 && q2 == 0x100 * q3 + q2 % 0x100 && q3 == 0x100 * q4 + q3 % 0x100;
  }

  lemma DivStep(n: nat, d: nat)
    requires d == 0x100 || d == 0x1_0000 || d == 0x100_0000
    ensures n / (0x100 * d) == n / d / 0x100
  {
  }

  predicate SameContent(p: Request, q: Request) {
    p.method_ == q.method_ && p.target == q.target && p.body == q.body
  }

  predicate UpTo(r: Request, n: nat) {
    |r.method_| <= n && |r.target| <= n
  }

  /** Some input makes the parser deliver `r`. */
  ghost predicate Received(r: Request) {
    exists s :: ParseRequest(s).Got? && ParseRequest(s).value == r
  }

  /** Different requests are fingerprinted from different bytes, whatever their bodies, as long as method
      and target have at most 2^32 bytes. */
  lemma CanonicalIsInjective(p: Request, q: Request)
    requires p.method_ != [] && p.target != [] && q.method_ != [] && q.target != []
    requires UpTo(p, MAX_FIELD) && UpTo(q, MAX_FIELD) && Canonical(p) == Canonical(q)
    ensures SameContent(p, q)
  {
    hide Be32;
    FieldSplits(p.method_, q.method_, Field(p.target) + Field(p.body), Field(q.target) + Field(q.body));
    FieldSplits(p.target, q.target, Field(p.body), Field(q.body));
    assert p.body == Field(p.body)[4..] && q.body == Field(q.body)[4..];
  }

  // ---- Fingerprints ----

  /** `x` is the method, the target and the body of `r`, each behind its length in four bytes, highest
      first. */
  predicate Prefixed(x: Bytes, r: Request) {
    var m, t := |r.method_|, |r.target|;
    && |x| == 12 + m + t + |r.body|
    && Read32(x[..4]) == m % MAX_FIELD && x[4..4 + m] == r.method_
    && Read32(x[4 + m..8 + m]) == t % MAX_FIELD && x[8 + m..8 + m + t] == r.target
    && Read32(x[8 + m + t..12 + m + t]) == |r.body| % MAX_FIELD && x[12 + m + t..] == r.body
  }

  lemma CanonicalIsPrefixed(r: Request)
    ensures Prefixed(Canonical(r), r)
  {
    hide Be32, Read32;
    var x, m, t := Canonical(r), |r.method_|, |r.target|;
    Be32Value(m);
    Be32Value(t);
    Be32Value(|r.body|);
    assert x[..4] == Be32(m) && x[4..4 + m] == r.method_;
    assert x[4 + m..8 + m] == Be32(t) && x[8 + m..8 + m + t] == r.target;
    assert x[8 + m + t..12 + m + t] == Be32(|r.body|) && x[12 + m + t..] == r.body;
  }

  /** Two different inputs of the keyed hash, one made of each request, that it does not tell apart. */
  ghost predicate MacCollision(sv: Service, p: Request, q: Request) {
    exists x, y :: x != y && Prefixed(x, p) && Prefixed(y, q) && sv.mac(x) == sv.mac(y)
  }

  /** Equal fingerprints of delivered requests mean the same method, target and body, or a collision of
      the keyed hash. */
  lemma FingerprintTells(sv: Service, p: Request, q: Request)
    requires Received(p) && Received(q) && UpTo(p, MAX_FIELD) && UpTo(q, MAX_FIELD)
    requires Fingerprint(sv, p) == Fingerprint(sv, q)
    ensures SameContent(p, q) || MacCollision(sv, p, q)
  {
    hide ParseRequest, Canonical, Prefixed, SameContent;
    CanonicalIsPrefixed(p);
    CanonicalIsPrefixed(q);
    if Canonical(p) == Canonical(q) {
      ReceivedHasWords(p);
      ReceivedHasWords(q);
      CanonicalIsInjective(p, q);
    }
  }

  /** A fingerprint is the keyed hash of method, target and body, whatever the headers. */
  lemma FingerprintIs(sv: Service, p: Request, q: Request)
    requires SameContent(p, q)
    ensures Fingerprint(sv, p) == Fingerprint(sv, q)
    ensures exists x :: Prefixed(x, p) && Fingerprint(sv, p) == sv.mac(x)
  {
    hide Prefixed;
    CanonicalIsPrefixed(p);
  }

  function Zeros(n: nat): (z: Bytes)
    ensures |z| == n && forall i :: 0 <= i < n ==> z[i] == 0
  {
    seq(n, _ => 0)
  }

  /** Beyond that the length prefix wraps: a target of one byte before a body of 2^32 zero bytes gives
      the same bytes as the target with those zero bytes and no body. */
  lemma CanonicalCollides() returns (p: Request, q: Request)
    ensures Received(p) && Received(q) && !SameContent(p, q) && Canonical(p) == Canonical(q)
    ensures UpTo(p, MAX_FIELD + 1) && |p.body| <= MAX_FIELD && UpTo(q, MAX_FIELD + 1) && q.body == []
  {
    hide Zeros, ParseRequest, WriteRequest, SentRequestHeaders;
    var z := Zeros(MAX_FIELD);
    var word, slash: Text := [71], [47];
    var long := slash + z;
    var r, u := Request(word, slash, [], z), Request(word, long, [], []);
    p, q := Normalised(r), Normalised(u);
    IsReceived(r);
    IsReceived(u);
    SameBytes(p, q, z);
  }

  lemma IsReceived(r: Request)
    requires r.headers == [] && |r.body| <= U64_MAX && r.method_ != [] && r.target != []
    requires forall i :: 0 <= i < |r.method_| ==> r.method_[i] < 0x80 && r.method_[i] != SPACE && r.method_[i] != LF
    requires forall i :: 0 <= i < |r.target| ==> r.target[i] < 0x80 && r.target[i] != SPACE && r.target[i] != LF
    ensures Received(Normalised(r))
  {
    hide IsUtf8, ParseRequest, WriteRequest, SentRequestHeaders, GoodHeader;
    AsciiIsUtf8(r.method_);
    AsciiIsUtf8(r.target);
    RequestReadsBack(r, []);
  }

  lemma SameBytes(p: Request, q: Request, z: Bytes)
    requires p.method_ == q.method_ && |p.target| == 1 && q.target == p.target + z
    requires |z| == MAX_FIELD && (forall i :: 0 <= i < |z| ==> z[i] == 0) && p.body == z && q.body == []
    ensures Canonical(p) == Canonical(q)
  {
    var four: Bytes := [0, 0, 0, 0];
    assert Be32(MAX_FIELD) == Be32(0) == four && Be32(MAX_FIELD + 1) == Be32(1);
    assert four + z == z + four;
    var m, one, t := Field(p.method_), Be32(1), p.target;
    assert Canonical(p) == m + ((one + t) + (four + z));
    assert Canonical(q) == m + ((one + (t + z)) + four);
    assert (one + t) + (z + four) == (one + (t + z)) + four;
  }

  ghost predicate Distinguishes(n: nat) {
    forall p, q :: Received(p) && Received(q) && UpTo(p, n) && UpTo(q, n) && Canonical(p) == Canonical(q) ==> SameContent(p, q)
  }

  /** Requests the parser delivers, with method and target of at most `n` bytes, are fingerprinted from
      different bytes unless they are the same, if and only if `n` is at most 2^32. */
  lemma DistinguishesIff(n: nat)
    ensures Distinguishes(n) <==> n <= MAX_FIELD
  {
    hide ParseRequest, Canonical, SameContent;
    if n <= MAX_FIELD {
      forall p, q | Received(p) && Received(q) && UpTo(p, n) && UpTo(q, n) && Canonical(p) == Canonical(q)
        ensures SameContent(p, q)
      {
        ReceivedHasWords(p);
        ReceivedHasWords(q);
        CanonicalIsInjective(p, q);
      }
    } else {
      var p, q := CanonicalCollides();
      assert UpTo(p, n) && UpTo(q, n);
    }
  }

  lemma ReceivedHasWords(r: Request)
    requires Received(r)
    ensures r.method_ != [] && r.target != []
  {
    hide ParseRequest, GoodHeader;
    var s :| ParseRequest(s).Got? && ParseRequest(s).value == r;
    ParsedIsGood(s);
  }

  // ---- Outcomes ----

  /** Headers gathered in a sorted map: of two with one name the later stays. */
  function Collect(headers: seq<Header>): map<Text, Text> {
    if headers == [] then map[]
    else
      var last := headers[|headers| - 1];
      Collect(headers[..|headers| - 1])[last.0 := last.1]
  }

  function Pairs(names: seq<Text>, headers: map<Text, Text>): seq<Header>
    requires forall i :: 0 <= i < |names| ==> names[i] in headers
  {
    if names == [] then [] else [(names[0], headers[names[0]])] + Pairs(names[1..], headers)
  }

  function ToOutcome(r: Response): CachedOutcome {
    CachedOutcome(r.status, Collect(r.headers), r.body)
  }

  function FromOutcome(o: CachedOutcome): Response {
    Response(o.status, Pairs(Sorted(o.headers.Keys), o.headers), o.body)
  }

  lemma {:induction false} CollectAdds(a: seq<Header>, b: seq<Header>)
    ensures Collect(a + b) == Collect(a) + Collect(b)
  {
    if b == [] {
      assert a + b == a;
    } else {
      var init := b[..|b| - 1];
      assert (a + b)[..|a + b| - 1] == a + init;
      CollectAdds(a, init);
    }
  }

  lemma {:induction false} PairsCollect(names: seq<Text>, headers: map<Text, Text>)
    requires forall i :: 0 <= i < |names| ==> names[i] in headers
    ensures Collect(Pairs(names, headers)) == Restricted(names, headers)
  {
    hide Restricted;
    if names == [] {
      assert Restricted(names, headers) == map[] by {
        RestrictedToNone(headers);
      }
    }
    if names != [] {
      var first := [(names[0], headers[names[0]])];
      assert first[..0] == [];
      assert Collect(first) == map[names[0] := headers[names[0]]];
      CollectAdds(first, Pairs(names[1..], headers));
      PairsCollect(names[1..], headers);
      RestrictedSplits(names, headers);
    }
  }

  function Restricted(names: seq<Text>, headers: map<Text, Text>): map<Text, Text> {
    map name | name in headers && name in names :: headers[name]
  }

  lemma RestrictedToNone(headers: map<Text, Text>)
    ensures Restricted([], headers) == map[]
  {
  }

  lemma RestrictedSplits(names: seq<Text>, headers: map<Text, Text>)
    requires names != [] && names[0] in headers
    ensures Restricted(names, headers) == map[names[0] := headers[names[0]]] + Restricted(names[1..], headers)
  {
    assert forall name :: name in names <==> name == names[0] || name in names[1..];
  }

  /** Storing a served outcome again stores the same outcome. */
  lemma OutcomeRoundTrip(o: CachedOutcome)
    ensures ToOutcome(FromOutcome(o)) == o
  {
    var names := Sorted(o.headers.Keys);
    PairsCollect(names, o.headers);
    assert Restricted(names, o.headers) == o.headers;
  }

  /** `shown` holds each name of `given` once, in ascending order, with its last value. */
  ghost predicate Gathers(shown: seq<Header>, given: seq<Header>) {
    && (forall i, j :: 0 <= i < j < |shown| ==> Less(shown[i].0, shown[j].0))
    && (forall i :: 0 <= i < |shown| ==> IsLastValue(given, shown[i]))
    && (forall i :: 0 <= i < |given| ==> HasName(shown, given[i].0))
  }

  predicate HasName(headers: seq<Header>, name: Text) {
    exists j :: 0 <= j < |headers| && headers[j].0 == name
  }

  ghost predicate IsLastValue(given: seq<Header>, h: Header) {
    exists i :: 0 <= i < |given| && given[i] == h && forall j :: i < j < |given| ==> given[j].0 != h.0
  }

  lemma HasOneMore(headers: seq<Header>, name: Text)
    requires headers != []
    ensures var n := |headers| - 1;
            HasName(headers, name) <==> HasName(headers[..n], name) || headers[n].0 == name
  {
    var init := headers[..|headers| - 1];
    assert forall j :: 0 <= j < |init| ==> init[j] == headers[j];
  }

  lemma {:induction false} CollectHas(headers: seq<Header>, name: Text)
    ensures name in Collect(headers) <==> HasName(headers, name)
  {
    hide HasName;
    if headers == [] {
      NoName(name);
    } else {
      CollectHas(headers[..|headers| - 1], name);
      HasOneMore(headers, name);
    }
  }

  lemma NoName(name: Text)
    ensures !HasName([], name)
  {
  }

  lemma LastStays(headers: seq<Header>, h: Header)
    requires headers != []
    ensures var n := |headers| - 1;
            && (headers[n] == h ==> IsLastValue(headers, h))
            && (IsLastValue(headers[..n], h) && headers[n].0 != h.0 ==> IsLastValue(headers, h))
  {
    var init := headers[..|headers| - 1];
    if IsLastValue(init, h) {
      var i :| 0 <= i < |init| && init[i] == h && forall j :: i < j < |init| ==> init[j].0 != h.0;
      assert headers[i] == h && forall j :: i < j < |init| ==> headers[j] == init[j];
    }
  }

  lemma {:induction false} CollectFrom(headers: seq<Header>, name: Text)
    requires name in Collect(headers)
    ensures IsLastValue(headers, (name, Collect(headers)[name]))
  {
    hide IsLastValue;
    var n := |headers| - 1;
    LastStays(headers, (name, Collect(headers)[name]));
    if headers[n].0 != name {
      CollectFrom(headers[..n], name);
    }
  }

  lemma {:induction false} PairsAt(names: seq<Text>, headers: map<Text, Text>)
    requires forall i :: 0 <= i < |names| ==> names[i] in headers
    ensures |Pairs(names, headers)| == |names|
    ensures forall i :: 0 <= i < |names| ==> Pairs(names, headers)[i] == (names[i], headers[names[i]])
  {
    if names != [] {
      PairsAt(names[1..], headers);
    }
  }

  function Shown(given: seq<Header>): seq<Header> {
    Pairs(Sorted(Collect(given).Keys), Collect(given))
  }

  lemma ShownAt(given: seq<Header>)
    ensures var names, shown := Sorted(Collect(given).Keys), Shown(given);
            |shown| == |names|
            && forall i :: 0 <= i < |names| ==> names[i] in Collect(given) && shown[i] == (names[i], Collect(given)[names[i]])
  {
    hide Collect, Pairs;
    PairsAt(Sorted(Collect(given).Keys), Collect(given));
  }

  lemma ShownAscends(given: seq<Header>, i: nat, j: nat)
    requires i < j < |Shown(given)|
    ensures Less(Shown(given)[i].0, Shown(given)[j].0)
  {
    hide Less, Collect, Shown, Sorted;
    ShownAt(given);
    SortedAscends(Collect(given).Keys);
  }

  lemma ShownIsLast(given: seq<Header>, i: nat)
    requires i < |Shown(given)|
    ensures IsLastValue(given, Shown(given)[i])
  {
    hide IsLastValue, Collect, Shown, Sorted;
    ShownAt(given);
    CollectFrom(given, Sorted(Collect(given).Keys)[i]);
  }

  lemma ShownHasName(given: seq<Header>, i: nat)
    requires i < |given|
    ensures HasName(Shown(given), given[i].0)
  {
    hide Collect, Shown, Sorted;
    ShownAt(given);
    CollectHas(given, given[i].0);
    var names := Sorted(Collect(given).Keys);
    assert given[i].0 in names;
    var j :| 0 <= j < |names| && names[j] == given[i].0;
    assert Shown(given)[j].0 == given[i].0;
  }

  /** A replay shows the stored status and body, and the gathered headers. */
  lemma ReplayGathers(r: Response)
    ensures var shown := FromOutcome(ToOutcome(r));
            shown.status == r.status && shown.body == r.body && Gathers(shown.headers, r.headers)
  {
    hide Less, IsLastValue, HasName, Collect, Pairs, Sorted;
    var shown := Shown(r.headers);
    forall i, j | 0 <= i < j < |shown|
      ensures Less(shown[i].0, shown[j].0)
    {
      ShownAscends(r.headers, i, j);
    }
    forall i | 0 <= i < |shown|
      ensures IsLastValue(r.headers, shown[i])
    {
      ShownIsLast(r.headers, i);
    }
    forall i | 0 <= i < |r.headers|
      ensures HasName(shown, r.headers[i].0)
    {
      ShownHasName(r.headers, i);
    }
  }

  // ---- Phases ----

  const ONCED_STATUS: Text := Ascii("Onced-Status")

  function Tag(r: Response, status: Text): Response {
    r.(headers := r.headers + [(ONCED_STATUS, status)])
  }

  function TaggedStatus(code: u16, status: Text): Response {
    Response(code, [(ONCED_STATUS, status)], [])
  }

  const BAD_GATEWAY: Response := TaggedStatus(502, Ascii("upstream-error"))

  function PhaseOf(answer: E.Answer): Phase {
    match answer
    case Run(token) => Forward(Ticket(Some(token)))
    case Replay(outcome) => Done(Tag(FromOutcome(outcome), Ascii("replayed")))
    case Busy => Done(TaggedStatus(409, Ascii("in-progress")))
    case Mismatch => Done(TaggedStatus(422, Ascii("mismatch")))
  }

  lemma PhaseForwards(answer: E.Answer)
    ensures PhaseOf(answer).Forward? <==> answer.Run?
    ensures answer.Run? ==> PhaseOf(answer).ticket == Ticket(Some(answer.token))
  {
  }

  function Counted(answer: E.Answer): Metrics {
    match answer
    case Run(_) => NOTHING.(requests := 1)
    case Replay(_) => NOTHING.(requests := 1, replayed := 1)
    case Busy => NOTHING.(requests := 1, inProgress := 1)
    case Mismatch => NOTHING.(requests := 1, mismatch := 1)
  }

  function Ask(sv: Service, g: State, key: Text, r: Request, now: u64): E.Answer {
    E.Begin(sv.cfg, g.engine, key, Fingerprint(sv, r), now)
  }

  function BeginPhase(sv: Service, g: State, r: Request, now: u64): Phase {
    match KeyOf(r)
    case None => Forward(Ticket(None))
    case Some(key) => PhaseOf(Ask(sv, g, key, r, now))
  }

  function AfterBegin(sv: Service, g: State, r: Request, now: u64): State {
    match KeyOf(r)
    case None => State(g.engine, Merge(g.metrics, NOTHING.(requests := 1)))
    case Some(key) =>
      State(E.AfterBegin(sv.cfg, g.engine, key, Fingerprint(sv, r), now), Merge(g.metrics, Counted(Ask(sv, g, key, r, now))))
  }

  /** Whether the backend gave an answer that is kept: one below 500. */
  predicate Final(forwarded: Option<Response>) {
    forwarded.Some? && forwarded.value.status < 500
  }

  function CompletePhase(ticket: Ticket, forwarded: Option<Response>): Response {
    if forwarded.None? then BAD_GATEWAY
    else if ticket.token.Some? && Final(forwarded) then Tag(forwarded.value, Ascii("created"))
    else forwarded.value
  }

  function Settled(ticket: Ticket, forwarded: Option<Response>): Metrics {
    if ticket.token.None? then
      if forwarded.Some? then NOTHING.(passthrough := 1) else NOTHING.(upstreamError := 1)
    else if Final(forwarded) then NOTHING.(created := 1) else NOTHING.(upstreamError := 1)
  }

  function AfterComplete(g: State, ticket: Ticket, forwarded: Option<Response>, now: u64): State {
    State(
      if ticket.token.Some? && Final(forwarded)
      then E.AfterComplete(g.engine, ticket.token.value, ToOutcome(forwarded.value), now)
      else g.engine,
      Merge(g.metrics, Settled(ticket, forwarded)))
  }

  /** A phase counts its request in or out exactly when it opens or closes a ticket. */
  lemma PhasesCount(answer: E.Answer, ticket: Ticket, forwarded: Option<Response>)
    ensures Unsettled(Counted(answer)) == if PhaseOf(answer).Forward? then 1 else 0
    ensures Unsettled(Settled(ticket, forwarded)) == -1
  {
  }
}
