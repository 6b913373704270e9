/** The payload of an on-disk record, and the frame around it with CRC-32 as the checksum. */
module Records {
  import opened Prelude
  import opened LittleEndian
  import opened Texts
  import opened Keys
  import opened Crc32
  import opened Frames

  const TAG_IN_PROGRESS: byte := 0
  const TAG_COMPLETED: byte := 1

  // ---- Writing ----

  function PutBytes(s: Bytes): Bytes {
    Le(|s|, 4) + s
  }

  function PutHeaders(names: seq<Text>, headers: map<Text, Text>): Bytes
    requires forall n :: n in names ==> n in headers
  {
    if names == [] then []
    else PutBytes(names[0]) + (PutBytes(headers[names[0]]) + PutHeaders(names[1..], headers))
  }

  function PutState(state: KeyState): Bytes {
    match state
    case InProgress(fence, fingerprint, lease) =>
      [TAG_IN_PROGRESS] + (Le(fence, 8) + (fingerprint + Le(lease, 8)))
    case Completed(fingerprint, outcome, at) =>
      [TAG_COMPLETED] + (fingerprint + (Le(at, 8) + (Le(outcome.status, 2) + (Le(|outcome.headers|, 4) +
      (PutHeaders(Sorted(outcome.headers.Keys), outcome.headers) + PutBytes(outcome.body))))))
  }

  function Payload(key: Text, state: KeyState): Bytes {
    PutBytes(key) + PutState(state)
  }

  // ---- Reading: each reader returns what it read and the bytes that follow ----

  function Take(s: Bytes, n: nat): Option<(Bytes, Bytes)> {
    if n <= |s| then Some((s[..n], s[n..])) else None
  }

  function TakeNumber(s: Bytes, width: nat): Option<(nat, Bytes)> {
    var (field, rest) :- Take(s, width);
    Some((FromLe(field), rest))
  }

  function TakeDigest(s: Bytes): Option<(Digest, Bytes)> {
    var (field, rest) :- Take(s, 32);
    Some((field, rest))
  }

  function TakeBytes(s: Bytes): Option<(Bytes, Bytes)> {
    var (length, rest) :- TakeNumber(s, 4);
    Take(rest, length)
  }

  function TakeText(s: Bytes): Option<(Text, Bytes)> {
    var (text, rest) :- TakeBytes(s);
    if IsUtf8(text) then Some((text, rest)) else None
  }

  function TakeHeaders(s: Bytes, count: nat, headers: map<Text, Text>): Option<(map<Text, Text>, Bytes)>
    decreases count
  {
    if count == 0 then Some((headers, s))
    else
      var (name, afterName) :- TakeText(s);
      var (value, rest) :- TakeText(afterName);
      TakeHeaders(rest, count - 1, headers[name := value])
  }

  function TakeInProgress(s: Bytes): Option<(KeyState, Bytes)> {
    var (fence, s1) :- TakeNumber(s, 8);
    var (fingerprint, s2) :- TakeDigest(s1);
    var (lease, s3) :- TakeNumber(s2, 8);
    NumbersFit(s2, 8);
    Some((InProgress(fence, fingerprint, lease), s3))
  }

  function TakeCompleted(s: Bytes): Option<(KeyState, Bytes)> {
    var (fingerprint, s1) :- TakeDigest(s);
    var (at, s2) :- TakeNumber(s1, 8);
    var (status, s3) :- TakeNumber(s2, 2);
    var (count, s4) :- TakeNumber(s3, 4);
    var (headers, s5) :- TakeHeaders(s4, count, map[]);
    var (body, s6) :- TakeBytes(s5);
    NumbersFit(s1, 8);
    NumbersFit(s2, 2);
    Some((Completed(fingerprint, CachedOutcome(status, headers, body), at), s6))
  }

  function TakeState(s: Bytes): Option<(KeyState, Bytes)> {
    var (tag, rest) :- TakeNumber(s, 1);
    if tag == TAG_IN_PROGRESS then TakeInProgress(rest)
    else if tag == TAG_COMPLETED then TakeCompleted(rest)
    else None
  }

  /** Bytes after the state are ignored, as the reader never asks whether it reached the end. */
  function ParsePayload(s: Bytes): Option<Write> {
    var (key, s1) :- TakeText(s);
    var (state, _) :- TakeState(s1);
    Some(Write(key, state))
  }

  /** The log's record format over a given chain hash. */
  function Onced(hash: Hash): Format {
    Format(hash, Checksum, (w: Write) => Payload(w.key, w.state), ParsePayload)
  }

  lemma NumbersFit(s: Bytes, width: nat)
    ensures TakeNumber(s, width).Some? ==> TakeNumber(s, width).value.0 < Range(width)
    ensures Range(2) == 0x1_0000 && Range(4) == 0x1_0000_0000 && Range(8) == U64_MAX + 1
  {
    Ranges();
    if width <= |s| {
      FromLeBound(s[..width]);
    }
  }

  // ---- Reading undoes writing ----

  predicate HasText(key: Text, state: KeyState) {
    && IsUtf8(key)
    && (state.Completed? ==>
          forall n :: n in state.outcome.headers ==> IsUtf8(n) && IsUtf8(state.outcome.headers[n]))
  }

  /** The record's length field and fence field are wide enough for it. */
  predicate Encodable(key: Text, state: KeyState) {
    && |Payload(key, state)| < 0x1_0000_0000
    && (state.InProgress? ==> state.fence <= U64_MAX)
  }

  lemma TakePut(s: Bytes, rest: Bytes)
    requires |s| < 0x1_0000_0000
    ensures TakeBytes(PutBytes(s) + rest) == Some((s, rest))
  {
    Ranges();
    ReadsBack(|s|, 4);
    var all := PutBytes(s) + rest;
    assert all[..4] == Le(|s|, 4);
    assert all[4..] == s + rest;
    assert (s + rest)[..|s|] == s && (s + rest)[|s|..] == rest;
  }

  lemma TakeLe(n: nat, width: nat, rest: Bytes)
    requires n < Range(width)
    ensures TakeNumber(Le(n, width) + rest, width) == Some((n, rest))
  {
    ReadsBack(n, width);
    var all := Le(n, width) + rest;
    assert all[..width] == Le(n, width) && all[width..] == rest;
  }

  lemma TakeDigestBack(d: Digest, rest: Bytes)
    ensures TakeDigest(d + rest) == Some((d, rest))
  {
    assert (d + rest)[..32] == d && (d + rest)[32..] == rest;
  }

  function InsertAll(into: map<Text, Text>, names: seq<Text>, headers: map<Text, Text>): map<Text, Text>
    requires forall n :: n in names ==> n in headers
    decreases |names|
  {
    if names == [] then into
    else InsertAll(into[names[0] := headers[names[0]]], names[1..], headers)
  }

  lemma {:induction false} InsertAllContents(into: map<Text, Text>, names: seq<Text>, headers: map<Text, Text>)
    requires forall n :: n in names ==> n in headers
    ensures InsertAll(into, names, headers).Keys == into.Keys + (set n | n in names)
    ensures forall n :: n in names ==> InsertAll(into, names, headers)[n] == headers[n]
    ensures forall n :: n in into && n !in names ==> InsertAll(into, names, headers)[n] == into[n]
    decreases |names|
  {
    if names != [] {
      InsertAllContents(into[names[0] := headers[names[0]]], names[1..], headers);
      assert names == [names[0]] + names[1..];
    }
  }

  lemma {:induction false} TakeHeadersBack(names: seq<Text>, headers: map<Text, Text>, into: map<Text, Text>, rest: Bytes)
    requires forall n :: n in names ==> n in headers && IsUtf8(n) && IsUtf8(headers[n])
    requires |PutHeaders(names, headers)| < 0x1_0000_0000
    ensures TakeHeaders(PutHeaders(names, headers) + rest, |names|, into)
         == Some((InsertAll(into, names, headers), rest))
    ensures 8 * |names| <= |PutHeaders(names, headers)|
    decreases |names|
  {
    if names == [] {
      assert PutHeaders(names, headers) + rest == rest;
    } else {
      var name, value, tail := names[0], headers[names[0]], PutHeaders(names[1..], headers);
      assert PutHeaders(names, headers) + rest == PutBytes(name) + (PutBytes(value) + (tail + rest));
      TakePut(name, PutBytes(value) + (tail + rest));
      TakePut(value, tail + rest);
      TakeHeadersBack(names[1..], headers, into[name := value], rest);
    }
  }

  lemma TakeInProgressBack(state: KeyState, rest: Bytes)
    requires state.InProgress? && state.fence <= U64_MAX
    ensures TakeState(PutState(state) + rest) == Some((state, rest))
  {
    Ranges();
    var s3 := Le(state.leaseExpiresAt, 8) + rest;
    var s2 := state.fingerprint + s3;
    var s1 := Le(state.fence, 8) + s2;
    assert PutState(state) + rest == Le(TAG_IN_PROGRESS, 1) + s1;
    TakeLe(TAG_IN_PROGRESS, 1, s1);
    TakeLe(state.fence, 8, s2);
    TakeDigestBack(state.fingerprint, s3);
    TakeLe(state.leaseExpiresAt, 8, rest);
  }

  lemma TakeAllHeadersBack(headers: map<Text, Text>, rest: Bytes)
    requires forall n :: n in headers ==> IsUtf8(n) && IsUtf8(headers[n])
    requires |PutHeaders(Sorted(headers.Keys), headers)| < 0x1_0000_0000
    ensures TakeHeaders(PutHeaders(Sorted(headers.Keys), headers) + rest, |headers|, map[]) == Some((headers, rest))
    ensures |headers| < 0x1_0000_0000
  {
    hide IsUtf8, TakeHeaders, PutHeaders;
    var names := Sorted(headers.Keys);
    TakeHeadersBack(names, headers, map[], rest);
    InsertAllContents(map[], names, headers);
    assert InsertAll(map[], names, headers) == headers;
  }

  lemma TakeCompletedBack(fingerprint: Digest, o: CachedOutcome, at: u64, rest: Bytes)
    requires forall n :: n in o.headers ==> IsUtf8(n) && IsUtf8(o.headers[n])
    requires |PutState(Completed(fingerprint, o, at))| < 0x1_0000_0000
    ensures TakeState(PutState(Completed(fingerprint, o, at)) + rest) == Some((Completed(fingerprint, o, at), rest))
  {
    Ranges();
    var headers := PutHeaders(Sorted(o.headers.Keys), o.headers);
    var t5 := PutBytes(o.body);
    var t4 := headers + t5;
    var t3 := Le(|o.headers|, 4) + t4;
    var t2 := Le(o.status, 2) + t3;
    var t1 := Le(at, 8) + t2;
    var t0 := fingerprint + t1;
    Associate([TAG_COMPLETED], t0, rest);
    Associate(fingerprint, t1, rest);
    Associate(Le(at, 8), t2, rest);
    Associate(Le(o.status, 2), t3, rest);
    Associate(Le(|o.headers|, 4), t4, rest);
    Associate(headers, t5, rest);
    assert Le(TAG_COMPLETED, 1) == [TAG_COMPLETED];
    TakeLe(TAG_COMPLETED, 1, t0 + rest);
    TakeDigestBack(fingerprint, t1 + rest);
    TakeLe(at, 8, t2 + rest);
    TakeLe(o.status, 2, t3 + rest);
    TakeAllHeadersBack(o.headers, t5 + rest);
    TakeLe(|o.headers|, 4, t4 + rest);
    TakePut(o.body, rest);
  }

  lemma ParsePayloadBack(key: Text, state: KeyState)
    requires HasText(key, state) && Encodable(key, state)
    ensures ParsePayload(Payload(key, state)) == Some(Write(key, state))
  {
    hide TakeState, TakeBytes, IsUtf8, PutState;
    assert |key| < 0x1_0000_0000 && |PutState(state)| < 0x1_0000_0000;
    TakePut(key, PutState(state));
    assert PutState(state) + [] == PutState(state);
    if state.InProgress? {
      TakeInProgressBack(state, []);
    } else {
      TakeCompletedBack(state.fingerprint, state.outcome, state.completedAt, []);
    }
  }

  /** A record reads back as itself, consuming exactly its own bytes, if and only if its length and
      fence fit their fields. */
  lemma RoundTrip(hash: Hash, w: Write, prev: Digest, tail: Bytes)
    requires HasText(w.key, w.state)
    ensures var e := Encode(Onced(hash), w, prev);
            Decode(Onced(hash), e + tail) == Some(Record(|e|, w, Link(Onced(hash), Payload(w.key, w.state), prev)))
            <==> Encodable(w.key, w.state)
  {
    var p := Payload(w.key, w.state);
    var e := Encode(Onced(hash), w, prev) + tail;
    FrameFields(Onced(hash), p, prev, tail);
    if |p| < 0x1_0000_0000 {
      assert StoredPayload(e) == p;
      if Encodable(w.key, w.state) {
        ParsePayloadBack(w.key, w.state);
      } else {
        FencesFit(p);
      }
    }
  }

  lemma FencesFit(s: Bytes)
    ensures var w := ParsePayload(s); w.Some? && w.value.state.InProgress? ==> w.value.state.fence <= U64_MAX
  {
    var key := TakeText(s);
    if key.Some? {
      var tag := TakeNumber(key.value.1, 1);
      if tag.Some? {
        NumbersFit(tag.value.1, 8);
      }
    }
  }

  // ---- Whatever can be read can be written ----

  /** Bytes the header list takes, one header at a time. */
  function HeadersSize(headers: map<Text, Text>): nat {
    if headers == map[] then 0
    else
      var n := Least(headers.Keys);
      8 + |n| + |headers[n]| + HeadersSize(headers - {n})
  }

  lemma {:induction false} PutHeadersFrame(names: seq<Text>, g: map<Text, Text>, h: map<Text, Text>)
    requires forall n :: n in names ==> n in g && n in h && g[n] == h[n]
    ensures PutHeaders(names, g) == PutHeaders(names, h)
  {
    if names != [] {
      PutHeadersFrame(names[1..], g, h);
    }
  }

  lemma {:induction false} PutHeadersSize(headers: map<Text, Text>)
    ensures |PutHeaders(Sorted(headers.Keys), headers)| == HeadersSize(headers)
  {
    if headers != map[] {
      var n := Least(headers.Keys);
      var rest := headers - {n};
      assert rest.Keys == headers.Keys - {n};
      var names := Sorted(headers.Keys);
      assert names[0] == n && names[1..] == Sorted(rest.Keys);
      PutHeadersFrame(names[1..], headers, rest);
      PutHeadersSize(rest);
    }
  }

  lemma {:induction false} SizeWithout(headers: map<Text, Text>, n: Text)
    requires n in headers
    ensures HeadersSize(headers) == 8 + |n| + |headers[n]| + HeadersSize(headers - {n})
  {
    var m := Least(headers.Keys);
    if m != n {
      SizeWithout(headers - {m}, n);
      SizeWithout(headers - {n}, m);
      assert headers - {m} - {n} == headers - {n} - {m};
    }
  }

  lemma SizeWith(headers: map<Text, Text>, n: Text, v: Text)
    ensures HeadersSize(headers[n := v]) <= HeadersSize(headers) + 8 + |n| + |v|
  {
    SizeWithout(headers[n := v], n);
    assert headers[n := v] - {n} == headers - {n};
    if n in headers {
      SizeWithout(headers, n);
    } else {
      assert headers - {n} == headers;
    }
  }

  predicate AllText(headers: map<Text, Text>) {
    forall n :: n in headers ==> IsUtf8(n) && IsUtf8(headers[n])
  }

  lemma {:induction false} TakenHeaders(s: Bytes, count: nat, headers: map<Text, Text>)
    requires AllText(headers)
    ensures var r := TakeHeaders(s, count, headers);
            r.Some? ==> AllText(r.value.0) && HeadersSize(r.value.0) + |r.value.1| <= HeadersSize(headers) + |s|
    decreases count
  {
    hide IsUtf8, HeadersSize, FromLe;
    if count > 0 && TakeText(s).Some? {
      var (name, afterName) := TakeText(s).value;
      if TakeText(afterName).Some? {
        var (value, rest) := TakeText(afterName).value;
        SizeWith(headers, name, value);
        TakenHeaders(rest, count - 1, headers[name := value]);
      }
    }
  }

  lemma TakenInProgress(s: Bytes)
    ensures var r := TakeInProgress(s);
            r.Some? ==> r.value.0.InProgress? && r.value.0.fence <= U64_MAX && 1 + |s| >= |PutState(r.value.0)|
  {
    hide FromLe, Le;
    NumbersFit(s, 8);
  }

  lemma TakenCompleted(s: Bytes)
    ensures var r := TakeCompleted(s);
            r.Some? ==> r.value.0.Completed? && AllText(r.value.0.outcome.headers) && 1 + |s| >= |PutState(r.value.0)|
  {
    hide FromLe, Le, IsUtf8, TakeHeaders, PutHeaders;
    var r := TakeCompleted(s);
    if r.Some? {
      var s4 := s[46..];
      var count := FromLe(s[42..46]);
      assert TakeCompleted(s) == r;
      assert s[32..][8..] == s[40..] && s[40..][2..] == s[42..] && s[42..][4..] == s4 && s[42..][..4] == s[42..46];
      TakenHeaders(s4, count, map[]);
      PutHeadersSize(r.value.0.outcome.headers);
    }
  }

  /** What parses has the text and sizes of a record, and takes no more bytes written back. */
  lemma ParsedIsEncodable(p: Bytes)
    requires ParsePayload(p).Some? && |p| < 0x1_0000_0000
    ensures var w := ParsePayload(p).value; HasText(w.key, w.state) && Encodable(w.key, w.state)
  {
    hide FromLe, Le, IsUtf8, TakeInProgress, TakeCompleted, PutState;
    var (key, s1) := TakeText(p).value;
    var (tag, s2) := TakeNumber(s1, 1).value;
    TakenInProgress(s2);
    TakenCompleted(s2);
  }

  /** A write survives the log unchanged exactly when its text, length and fence allow it. */
  lemma FaithfulIff(hash: Hash, w: Write)
    ensures Faithful(Onced(hash), w) <==> HasText(w.key, w.state) && Encodable(w.key, w.state)
  {
    if HasText(w.key, w.state) && Encodable(w.key, w.state) {
      ParsePayloadBack(w.key, w.state);
    }
    if Faithful(Onced(hash), w) {
      ParsedIsEncodable(Payload(w.key, w.state));
    }
  }

  lemma ParsedIsFaithful(hash: Hash, p: Bytes)
    requires Valid(Onced(hash), p)
    ensures Faithful(Onced(hash), Onced(hash).parse(p).value)
  {
    ParsedIsEncodable(p);
    FaithfulIff(hash, ParsePayload(p).value);
  }
}
