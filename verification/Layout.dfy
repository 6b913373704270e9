/** A record byte by byte, as it lies on disk. */
module Layout {
  import opened Prelude
  import opened LittleEndian
  import opened Texts
  import opened Keys
  import opened Crc32
  import opened Frames
  import opened Records

  /** A byte further on counts 256 times as much as the one before it: the lowest comes first. */
  lemma {:induction false} LittleEndianPlaces(a: Bytes, b: Bytes)
    ensures FromLe(a + b) == FromLe(a) + Range(|a|) * FromLe(b)
  {
    if a == [] {
      assert a + b == b;
    } else {
      assert (a + b)[1..] == a[1..] + b;
      LittleEndianPlaces(a[1..], b);
      Regrouped(a[0], FromLe(a[1..]), Range(|a[1..]|), FromLe(b));
    }
  }

  lemma Regrouped(low: nat, high: nat, range: nat, rest: nat)
    ensures low + 256 * (high + range * rest) == low + 256 * high + 256 * range * rest
  {
  }

  /** The chain starts from 32 zero bytes. */
  lemma GenesisIsZero()
    ensures |GENESIS| == 32 && forall i :: 0 <= i < 32 ==> GENESIS[i] == 0
  {
  }

  /** Length, checksum, chain hash over the previous hash and both, payload. */
  lemma FrameLayout(hash: Hash, w: Write, prev: Digest)
    ensures var e, p := Encode(Onced(hash), w, prev), Payload(w.key, w.state);
            && |e| == 40 + |p|
            && e[..4] == Le(|p|, 4)
            && e[4..8] == Le(Checksum(p), 4)
            && e[8..40] == hash(prev + (Le(Checksum(p), 4) + p))
            && e[40..] == p
  {
    hide Payload, Checksum;
    var e, p := Encode(Onced(hash), w, prev), Payload(w.key, w.state);
    var a, b, c := Le(|p|, 4), Le(Checksum(p), 4), hash(prev + (Le(Checksum(p), 4) + p));
    assert prev + b + p == prev + (b + p);
    assert e == a + b + c + p;
    Slices(a, b, c, p, []);
    assert e + [] == e;
  }

  /** A lease: key, 0, fence, fingerprint, end of the lease. */
  lemma LeaseLayout(key: Text, state: KeyState)
    requires state.InProgress?
    ensures var p, k := Payload(key, state), |key|;
            && |p| == 53 + k
            && p[..4] == Le(k, 4) && p[4..4 + k] == key && p[4 + k] == 0
            && p[5 + k..13 + k] == Le(state.fence, 8)
            && p[13 + k..45 + k] == state.fingerprint
            && p[45 + k..] == Le(state.leaseExpiresAt, 8)
  {
    hide Le;
    LeaseParts(Le(|key|, 4), key, Le(state.fence, 8), state.fingerprint, Le(state.leaseExpiresAt, 8));
  }

  lemma LeaseParts(l: Bytes, key: Bytes, fence: Bytes, fp: Bytes, lease: Bytes)
    requires |l| == 4 && |fence| == 8 && |fp| == 32 && |lease| == 8
    ensures var p, k := (l + key) + ([0] + (fence + (fp + lease))), |key|;
            && |p| == 53 + k && p[..4] == l && p[4..4 + k] == key && p[4 + k] == 0
            && p[5 + k..13 + k] == fence && p[13 + k..45 + k] == fp && p[45 + k..] == lease
  {
  }

  /** An outcome: key, 1, fingerprint, time, status, number of headers, headers, body. */
  lemma OutcomeLayout(key: Text, state: KeyState)
    requires state.Completed?
    ensures var p, k, o := Payload(key, state), |key|, state.outcome;
            var h := 51 + k + |PutHeaders(Sorted(o.headers.Keys), o.headers)|;
            && |p| == h + 4 + |o.body|
            && p[..4] == Le(k, 4) && p[4..4 + k] == key && p[4 + k] == 1
            && p[5 + k..37 + k] == state.fingerprint
            && p[37 + k..45 + k] == Le(state.completedAt, 8)
            && p[45 + k..47 + k] == Le(o.status, 2)
            && p[47 + k..51 + k] == Le(|o.headers|, 4)
            && p[51 + k..h] == PutHeaders(Sorted(o.headers.Keys), o.headers)
            && p[h..h + 4] == Le(|o.body|, 4) && p[h + 4..] == o.body
  {
    hide Le, PutHeaders, Sorted;
    var p, k, o := Payload(key, state), |key|, state.outcome;
    var hs, l := PutHeaders(Sorted(o.headers.Keys), o.headers), Le(|o.body|, 4);
    OutcomeParts(Le(|key|, 4), key, state.fingerprint, Le(state.completedAt, 8), Le(o.status, 2), Le(|o.headers|, 4), hs + (l + o.body));
    TailParts(p, 51 + k, hs, l, o.body);
  }

  lemma TailParts(p: Bytes, at: nat, hs: Bytes, l: Bytes, body: Bytes)
    requires at <= |p| && p[at..] == hs + (l + body) && |l| == 4
    ensures var h := at + |hs|;
            |p| == h + 4 + |body| && p[at..h] == hs && p[h..h + 4] == l && p[h + 4..] == body
  {
    var tail, h := hs + (l + body), at + |hs|;
    assert tail[..|hs|] == hs && tail[|hs|..|hs| + 4] == l && tail[|hs| + 4..] == body;
    assert p[at..h] == p[at..][..|hs|] && p[h..h + 4] == p[at..][|hs|..|hs| + 4] && p[h + 4..] == p[at..][|hs| + 4..];
  }

  lemma OutcomeParts(l: Bytes, key: Bytes, fp: Bytes, at: Bytes, status: Bytes, count: Bytes, tail: Bytes)
    requires |l| == 4 && |fp| == 32 && |at| == 8 && |status| == 2 && |count| == 4
    ensures var p, k := (l + key) + ([1] + (fp + (at + (status + (count + tail))))), |key|;
            && p[..4] == l && p[4..4 + k] == key && p[4 + k] == 1
            && p[5 + k..37 + k] == fp && p[37 + k..45 + k] == at && p[45 + k..47 + k] == status
            && p[47 + k..51 + k] == count && p[51 + k..] == tail
  {
  }

  /** Length and name, length and value, at `at`. */
  predicate EntryAt(all: Bytes, at: nat, n: Text, v: Text) {
    && at + 8 + |n| + |v| <= |all|
    && all[at..at + 4] == Le(|n|, 4) && all[at + 4..at + 4 + |n|] == n
    && all[at + 4 + |n|..at + 8 + |n|] == Le(|v|, 4) && all[at + 8 + |n|..at + 8 + |n| + |v|] == v
  }

  lemma EntryFirst(n: Text, v: Text, rest: Bytes)
    ensures EntryAt(PutBytes(n) + (PutBytes(v) + rest), 0, n, v)
  {
    hide Le;
  }

  lemma EntryBehind(first: Bytes, rest: Bytes, at: nat, n: Text, v: Text)
    requires EntryAt(rest, at, n, v)
    ensures EntryAt(first + rest, |first| + at, n, v)
  {
    hide Le;
    var all, to := first + rest, |first| + at;
    assert all[to..to + 4] == rest[at..at + 4] && all[to + 4..to + 4 + |n|] == rest[at + 4..at + 4 + |n|];
    assert all[to + 4 + |n|..to + 8 + |n|] == rest[at + 4 + |n|..at + 8 + |n|];
    assert all[to + 8 + |n|..to + 8 + |n| + |v|] == rest[at + 8 + |n|..at + 8 + |n| + |v|];
  }

  /** The `i`-th header in the order of the names lies behind those before it. */
  lemma {:induction false} HeaderLayout(names: seq<Text>, headers: map<Text, Text>, i: nat)
    requires i < |names| && forall n :: n in names ==> n in headers
    ensures EntryAt(PutHeaders(names, headers), |PutHeaders(names[..i], headers)|, names[i], headers[names[i]])
  {
    hide EntryAt, PutBytes;
    var n, rest := names[0], PutHeaders(names[1..], headers);
    if i == 0 {
      EntryFirst(n, headers[n], rest);
    } else {
      var first := PutBytes(n) + PutBytes(headers[n]);
      HeaderLayout(names[1..], headers, i - 1);
      assert names[..i][1..] == names[1..][..i - 1];
      EntryBehind(first, rest, |PutHeaders(names[1..][..i - 1], headers)|, names[i], headers[names[i]]);
      assert first + rest == PutBytes(n) + (PutBytes(headers[n]) + rest);
    }
  }
}
