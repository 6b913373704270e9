/** What an accepted log proves: its root commits to every byte, and short bursts never pass unnoticed. */
module TamperEvidence {
  import opened Prelude
  import opened LittleEndian
  import opened Keys
  import opened Frames
  import opened Wal
  import opened Crc32
  import opened Records

  // ---- The chain root commits to the log ----

  /** Everything the chain hash was applied to while building a log. */
  function LinkInputs(fmt: Format, payloads: seq<Bytes>, root: Digest): seq<Bytes>
    decreases |payloads|
  {
    if payloads == [] then []
    else [LinkInput(root, fmt.checksum(payloads[0]), payloads[0])]
         + LinkInputs(fmt, payloads[1..], Link(fmt, payloads[0], root))
  }

  lemma {:induction false} LinkInputsAppend(fmt: Format, a: seq<Bytes>, p: Bytes, root: Digest)
    ensures var last := Root(fmt, a, root);
            && LinkInputs(fmt, a + [p], root) == LinkInputs(fmt, a, root) + [LinkInput(last, fmt.checksum(p), p)]
            && Root(fmt, a + [p], root) == Link(fmt, p, last)
    decreases |a|
  {
    if a == [] {
      assert a + [p] == [p];
      assert [p][1..] == [];
    } else {
      assert (a + [p])[1..] == a[1..] + [p];
      LinkInputsAppend(fmt, a[1..], p, Link(fmt, a[0], root));
    }
  }

  /** Two different inputs, one used by each log, with the same hash. */
  ghost predicate Collision(hash: Hash, xs: seq<Bytes>, ys: seq<Bytes>) {
    exists x, y :: x in xs && y in ys && x != y && hash(x) == hash(y)
  }

  /** An input used by one of the logs that hashes to the genesis value. */
  ghost predicate GenesisPreimage(hash: Hash, xs: seq<Bytes>, ys: seq<Bytes>) {
    exists x :: (x in xs || x in ys) && hash(x) == GENESIS
  }

  lemma {:induction false} SamePayloads(fmt: Format, a: seq<Bytes>, b: seq<Bytes>)
    requires Root(fmt, a, GENESIS) == Root(fmt, b, GENESIS)
    ensures var xs, ys := LinkInputs(fmt, a, GENESIS), LinkInputs(fmt, b, GENESIS);
            a == b || Collision(fmt.hash, xs, ys) || GenesisPreimage(fmt.hash, xs, ys)
    decreases |a| + |b|
  {
    var xs, ys := LinkInputs(fmt, a, GENESIS), LinkInputs(fmt, b, GENESIS);
    if a == [] && b == [] {
    } else if b == [] {
      var x := LastInput(fmt, a);
      assert x in xs && fmt.hash(x) == GENESIS;
    } else if a == [] {
      var y := LastInput(fmt, b);
      assert y in ys && fmt.hash(y) == GENESIS;
    } else {
      var x := LastInput(fmt, a);
      var y := LastInput(fmt, b);
      if x == y {
        var m, n := |a| - 1, |b| - 1;
        SplitInput(x, Root(fmt, a[..m], GENESIS), fmt.checksum(a[m]), a[m], Root(fmt, b[..n], GENESIS), fmt.checksum(b[n]), b[n]);
        SamePayloads(fmt, a[..m], b[..n]);
        assert a == a[..m] + [a[m]] && b == b[..n] + [b[n]];
        LinkInputsAppend(fmt, a[..m], a[m], GENESIS);
        LinkInputsAppend(fmt, b[..n], b[n], GENESIS);
      } else {
        assert x in xs && y in ys && fmt.hash(x) == fmt.hash(y);
      }
    }
  }

  lemma LastInput(fmt: Format, a: seq<Bytes>) returns (x: Bytes)
    requires a != []
    ensures x in LinkInputs(fmt, a, GENESIS) && fmt.hash(x) == Root(fmt, a, GENESIS)
    ensures var n := |a| - 1; x == LinkInput(Root(fmt, a[..n], GENESIS), fmt.checksum(a[n]), a[n])
  {
    var n := |a| - 1;
    assert a == a[..n] + [a[n]];
    LinkInputsAppend(fmt, a[..n], a[n], GENESIS);
    x := LinkInput(Root(fmt, a[..n], GENESIS), fmt.checksum(a[n]), a[n]);
  }

  lemma SplitInput(x: Bytes, r: Digest, c: u32, p: Bytes, s: Digest, d: u32, q: Bytes)
    requires x == LinkInput(r, c, p) == LinkInput(s, d, q)
    ensures r == s && p == q
  {
    assert x[..32] == r && x[..32] == s;
    assert x[36..] == p && x[36..] == q;
  }

  /** Two files that open accepts in full with the same chain root are byte for byte the same, or the
      hash inputs they were built from contain a collision or a preimage of the genesis value. */
  lemma RootCommitsToLog(fmt: Format, a: Bytes, b: Bytes)
    requires Open(fmt, a).Ok? && Open(fmt, a).value.length == |a|
    requires Open(fmt, b).Ok? && Open(fmt, b).value.length == |b|
    requires Open(fmt, a).value.root == Open(fmt, b).value.root
    ensures var xs := LinkInputs(fmt, Accepted(fmt, a, GENESIS), GENESIS);
            var ys := LinkInputs(fmt, Accepted(fmt, b, GENESIS), GENESIS);
            a == b || Collision(fmt.hash, xs, ys) || GenesisPreimage(fmt.hash, xs, ys)
  {
    hide Log, Replay;
    AcceptedIsLog(fmt, a, map[], GENESIS);
    AcceptedIsLog(fmt, b, map[], GENESIS);
    assert a[..|a|] == a && b[..|b|] == b;
    SamePayloads(fmt, Accepted(fmt, a, GENESIS), Accepted(fmt, b, GENESIS));
  }

  // ---- Bursts ----

  /** Open refuses a file whose accepted part is followed by a complete frame that does not check out. */
  lemma BadFrameIsRefused(fmt: Format, payloads: seq<Bytes>, bad: Bytes)
    requires AllValid(fmt, payloads)
    requires IsCompleteFrame(bad)
    requires Decode(fmt, bad).None?
          || Decode(fmt, bad).value.chain != Link(fmt, StoredPayload(bad), Root(fmt, payloads, GENESIS))
    ensures Open(fmt, Log(fmt, payloads, GENESIS) + bad)
         == Err(if Decode(fmt, bad).None? then InteriorCorruption else ChainMismatch)
  {
    var log := Log(fmt, payloads, GENESIS);
    ReplayLog(fmt, payloads, bad, map[], GENESIS);
    assert (log + bad)[|log|..] == bad;
  }

  /** A change inside four consecutive bytes of a record, anywhere past its length field and with any
      bytes following, turns a log that opens into one that open refuses; it is never truncated away. */
  lemma BurstIsRefused(hash: Hash, payloads: seq<Bytes>, p: Bytes, before: Bytes, a: Bytes, b: Bytes, after: Bytes, tail: Bytes)
    requires AllValid(Onced(hash), payloads) && Valid(Onced(hash), p)
    requires before + a + after == Frame(Onced(hash), p, Root(Onced(hash), payloads, GENESIS))
    requires 4 <= |before| && |a| == |b| <= 4 && a != b
    ensures var r := Open(Onced(hash), Log(Onced(hash), payloads, GENESIS) + (before + b + after + tail));
            r.Err? && (|before| >= HEADER_LENGTH ==> r == Err(InteriorCorruption))
  {
    hide Replay, Log, Root, Checksum, ParsePayload;
    var fmt := Onced(hash);
    var root := Root(fmt, payloads, GENESIS);
    var good, bad := before + a + after, before + b + after;
    FrameFields(fmt, p, root, []);
    assert good + [] == good;
    assert bad[..4] == good[..4];
    assert StoredPayload(good) == p;
    BurstShows(before, a, b, after);
    DecodeIsLocal(fmt, bad, tail);
    BadFrameIsRefused(fmt, payloads, bad + tail);
  }

  /** A burst in a frame is visible in its checksum, its checksum field or its chain field. */
  lemma BurstShows(before: Bytes, a: Bytes, b: Bytes, after: Bytes)
    requires 4 <= |before| && |a| == |b| <= 4 && a != b
    requires IsCompleteFrame(before + a + after) && FrameLength(before + a + after) == |before + a + after|
    ensures var good, bad := before + a + after, before + b + after;
            && bad[..4] == good[..4]
            && (|| (StoredCrc(bad) == StoredCrc(good) && Checksum(StoredPayload(bad)) != Checksum(StoredPayload(good)))
                || (StoredPayload(bad) == StoredPayload(good) && StoredCrc(bad) != StoredCrc(good))
                || (|before| < HEADER_LENGTH && StoredPayload(bad) == StoredPayload(good) && bad[8..HEADER_LENGTH] != good[8..HEADER_LENGTH]))
  {
    hide Checksum, FromLe;
    var good, bad := before + a + after, before + b + after;
    assert bad[..4] == good[..4];
    var h := HEADER_LENGTH;
    if |before| >= h {
      assert StoredPayload(good) == before[h..] + a + after;
      assert StoredPayload(bad) == before[h..] + b + after;
      assert good[4..8] == bad[4..8];
      DetectsBursts(before[h..], a, b, after);
    } else if |before| + |a| > h {
      var k := h - |before|;
      assert good[4..8] == before[4..8] == bad[4..8];
      assert StoredPayload(good) == [] + a[k..] + after;
      assert StoredPayload(bad) == [] + b[k..] + after;
      if a[k..] == b[k..] {
        var i :| 0 <= i < |a| && a[i] != b[i];
        assert forall j :: k <= j < |a| ==> a[j] == a[k..][j - k] && b[j] == b[k..][j - k];
        assert good[8..h][|before| + i - 8] == a[i] && bad[8..h][|before| + i - 8] == b[i];
      } else {
        DetectsBursts([], a[k..], b[k..], after);
      }
    } else {
      assert StoredPayload(good) == StoredPayload(bad);
      var i :| 0 <= i < |a| && a[i] != b[i];
      var j := |before| + i;
      if j < 8 {
        assert good[4..8][j - 4] == a[i] && bad[4..8][j - 4] == b[i];
        WritesBack(good[4..8]);
        WritesBack(bad[4..8]);
      } else {
        assert good[8..h][j - 8] == a[i] && bad[8..h][j - 8] == b[i];
      }
    }
  }
}
