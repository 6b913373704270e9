/** The write-ahead log as a function of its bytes: replay, torn tails and what open makes of them. */
module Wal {
  import opened Prelude
  import opened Keys
  import opened Frames

  // ---- Opening a file ----

  /** Where replay stopped, what it had built by then, and whether a chain hash was wrong there. */
  datatype Scan = Scan(length: nat, index: Index, root: Digest, tampered: bool)

  /** The same scan seen from `n` bytes earlier. */
  function Later(n: nat, scan: Scan): Scan {
    scan.(length := n + scan.length)
  }

  function Replay(fmt: Format, buf: Bytes, index: Index, root: Digest): (r: Scan)
    ensures r.length <= |buf|
    decreases |buf|
  {
    match Decode(fmt, buf)
    case None => Scan(0, index, root, false)
    case Some(record) =>
      var expected := Link(fmt, StoredPayload(buf), root);
      if expected != record.chain then Scan(0, index, root, true)
      else
        Later(record.total, Replay(fmt, buf[record.total..], Update(index, record.write), expected))
  }

  datatype OpenError = ChainMismatch | InteriorCorruption

  datatype Opened = Opened(index: Index, root: Digest, length: nat)

  datatype Result<T> = Ok(value: T) | Err(error: OpenError)

  /** A torn tail is cut off; a complete frame that does not decode, or a wrong chain hash, is an error. */
  function Open(fmt: Format, buf: Bytes): Result<Opened> {
    var scan := Replay(fmt, buf, map[], GENESIS);
    if scan.tampered then Err(ChainMismatch)
    else if IsCompleteFrame(buf[scan.length..]) then Err(InteriorCorruption)
    else Ok(Opened(scan.index, scan.root, scan.length))
  }

  // ---- Logs built from payloads ----

  function Log(fmt: Format, payloads: seq<Bytes>, root: Digest): Bytes
    decreases |payloads|
  {
    if payloads == [] then []
    else Frame(fmt, payloads[0], root) + Log(fmt, payloads[1..], Link(fmt, payloads[0], root))
  }

  function Root(fmt: Format, payloads: seq<Bytes>, root: Digest): Digest
    decreases |payloads|
  {
    if payloads == [] then root else Root(fmt, payloads[1..], Link(fmt, payloads[0], root))
  }

  predicate AllValid(fmt: Format, payloads: seq<Bytes>) {
    forall i :: 0 <= i < |payloads| ==> Valid(fmt, payloads[i])
  }

  function WritesOf(fmt: Format, payloads: seq<Bytes>): seq<Write>
    requires AllValid(fmt, payloads)
  {
    if payloads == [] then [] else [fmt.parse(payloads[0]).value] + WritesOf(fmt, payloads[1..])
  }

  lemma {:induction false} LogAppend(fmt: Format, a: seq<Bytes>, b: seq<Bytes>, root: Digest)
    ensures Log(fmt, a + b, root) == Log(fmt, a, root) + Log(fmt, b, Root(fmt, a, root))
    ensures Root(fmt, a + b, root) == Root(fmt, b, Root(fmt, a, root))
    decreases |a|
  {
    if a == [] {
      assert a + b == b;
    } else {
      assert (a + b)[1..] == a[1..] + b;
      var next := Link(fmt, a[0], root);
      LogAppend(fmt, a[1..], b, next);
      Associate(Frame(fmt, a[0], root), Log(fmt, a[1..], next), Log(fmt, b, Root(fmt, a, root)));
    }
  }

  /** A frame of a valid payload is accepted, whatever follows it. */
  lemma ReplayFrame(fmt: Format, p: Bytes, tail: Bytes, index: Index, root: Digest)
    requires Valid(fmt, p)
    ensures Replay(fmt, Frame(fmt, p, root) + tail, index, root)
         == Later(|Frame(fmt, p, root)|, Replay(fmt, tail, Update(index, fmt.parse(p).value), Link(fmt, p, root)))
  {
    var f := Frame(fmt, p, root) + tail;
    FrameFields(fmt, p, root, tail);
    assert StoredPayload(f) == p;
    assert f[HEADER_LENGTH + |p|..] == tail;
  }

  lemma {:induction false} ReplayLog(fmt: Format, payloads: seq<Bytes>, tail: Bytes, index: Index, root: Digest)
    requires AllValid(fmt, payloads)
    ensures Replay(fmt, Log(fmt, payloads, root) + tail, index, root)
         == Later(|Log(fmt, payloads, root)|,
                  Replay(fmt, tail, Apply(index, WritesOf(fmt, payloads)), Root(fmt, payloads, root)))
    decreases |payloads|
  {
    if payloads == [] {
      assert Log(fmt, payloads, root) + tail == tail;
    } else {
      var p := payloads[0];
      var next := Link(fmt, p, root);
      Associate(Frame(fmt, p, root), Log(fmt, payloads[1..], next), tail);
      ReplayFrame(fmt, p, Log(fmt, payloads[1..], next) + tail, index, root);
      assert WritesOf(fmt, payloads)[1..] == WritesOf(fmt, payloads[1..]);
      ReplayLog(fmt, payloads[1..], tail, Update(index, fmt.parse(p).value), next);
    }
  }

  /** The payloads of the records replay accepts. */
  function Accepted(fmt: Format, buf: Bytes, root: Digest): (payloads: seq<Bytes>)
    decreases |buf|
  {
    match Decode(fmt, buf)
    case None => []
    case Some(record) =>
      var next := Link(fmt, StoredPayload(buf), root);
      if next != record.chain then []
      else [StoredPayload(buf)] + Accepted(fmt, buf[record.total..], next)
  }

  /** Whatever the bytes, the part of a file that replay accepts is the log of its payloads. */
  lemma {:induction false} AcceptedIsLog(fmt: Format, buf: Bytes, index: Index, root: Digest)
    ensures var ps := Accepted(fmt, buf, root);
            var scan := Replay(fmt, buf, index, root);
            && AllValid(fmt, ps)
            && buf[..scan.length] == Log(fmt, ps, root)
            && scan.root == Root(fmt, ps, root)
            && scan.index == Apply(index, WritesOf(fmt, ps))
    decreases |buf|
  {
    hide Frame, Link;
    var ps := Accepted(fmt, buf, root);
    var scan := Replay(fmt, buf, index, root);
    if ps != [] {
      var record := Decode(fmt, buf).value;
      var p, rest := StoredPayload(buf), buf[record.total..];
      DecodedIsFrame(fmt, buf, root);
      var next := Link(fmt, p, root);
      AcceptedIsLog(fmt, rest, Update(index, record.write), next);
      assert buf[..scan.length] == buf[..record.total] + rest[..scan.length - record.total];
      assert WritesOf(fmt, ps)[1..] == WritesOf(fmt, ps[1..]);
    }
  }

  // ---- Recovery is stable ----

  /** Replay accepts all of `file` and ends with this index and root. */
  ghost predicate Holds(fmt: Format, file: Bytes, index: Index, root: Digest) {
    Replay(fmt, file, map[], GENESIS) == Scan(|file|, index, root, false)
  }

  lemma HeldOpens(fmt: Format, file: Bytes, index: Index, root: Digest)
    requires Holds(fmt, file, index, root)
    ensures Open(fmt, file) == Ok(Opened(index, root, |file|))
  {
    assert file[|file|..] == [];
  }

  /** Reopening a file that open has truncated changes nothing. */
  lemma OpenIsStable(fmt: Format, buf: Bytes)
    requires Open(fmt, buf).Ok?
    ensures var o := Open(fmt, buf).value;
            && o.length <= |buf|
            && Holds(fmt, buf[..o.length], o.index, o.root)
            && Open(fmt, buf[..o.length]) == Ok(o)
  {
    var o := Open(fmt, buf).value;
    var ps := Accepted(fmt, buf, GENESIS);
    AcceptedIsLog(fmt, buf, map[], GENESIS);
    ReplayLog(fmt, ps, [], map[], GENESIS);
    assert buf[..o.length] + [] == buf[..o.length];
    HeldOpens(fmt, buf[..o.length], o.index, o.root);
  }

  lemma ReplayContinues(fmt: Format, file: Bytes, index: Index, root: Digest, tail: Bytes)
    requires Holds(fmt, file, index, root)
    ensures Replay(fmt, file + tail, map[], GENESIS) == Later(|file|, Replay(fmt, tail, index, root))
  {
    AcceptedIsLog(fmt, file, map[], GENESIS);
    assert file[..|file|] == file;
    ReplayLog(fmt, Accepted(fmt, file, GENESIS), tail, map[], GENESIS);
  }

  // ---- Torn tails ----

  function RecordLength(fmt: Format, w: Write): nat {
    HEADER_LENGTH + |fmt.payload(w)|
  }

  /** How many records fit completely into the first `cut` bytes of their log. */
  function WholeRecords(fmt: Format, writes: seq<Write>, cut: nat): (n: nat)
    ensures n <= |writes|
  {
    if writes == [] || cut < RecordLength(fmt, writes[0]) then 0
    else 1 + WholeRecords(fmt, writes[1..], cut - RecordLength(fmt, writes[0]))
  }

  function PayloadsOf(fmt: Format, writes: seq<Write>): (payloads: seq<Bytes>)
    ensures |payloads| == |writes|
  {
    if writes == [] then [] else [fmt.payload(writes[0])] + PayloadsOf(fmt, writes[1..])
  }

  predicate AllFaithful(fmt: Format, writes: seq<Write>) {
    forall i :: 0 <= i < |writes| ==> Faithful(fmt, writes[i])
  }

  /** The bytes appending `writes` puts on disk after a log ending in `root`. */
  function Appended(fmt: Format, writes: seq<Write>, root: Digest): Bytes {
    Log(fmt, PayloadsOf(fmt, writes), root)
  }

  function AppendedRoot(fmt: Format, writes: seq<Write>, root: Digest): Digest {
    Root(fmt, PayloadsOf(fmt, writes), root)
  }

  lemma {:induction false} PayloadsReadBack(fmt: Format, writes: seq<Write>)
    requires AllFaithful(fmt, writes)
    ensures AllValid(fmt, PayloadsOf(fmt, writes))
    ensures WritesOf(fmt, PayloadsOf(fmt, writes)) == writes
  {
    if writes != [] {
      PayloadsReadBack(fmt, writes[1..]);
    }
  }

  /** What replay makes of the first `cut` bytes of an append: the whole records among them. */
  ghost predicate KeepsWhole(fmt: Format, writes: seq<Write>, cut: nat, index: Index, root: Digest)
    requires cut <= |Appended(fmt, writes, root)|
  {
    var n := WholeRecords(fmt, writes, cut);
    var torn := Appended(fmt, writes, root)[..cut];
    var whole := |Appended(fmt, writes[..n], root)|;
    && whole <= cut
    && Replay(fmt, torn, index, root)
       == Scan(whole, Apply(index, writes[..n]), AppendedRoot(fmt, writes[..n], root), false)
    && !IsCompleteFrame(torn[whole..])
  }

  /** Less than one record of an append is nothing to replay and not a complete frame. */
  lemma TornRecord(fmt: Format, writes: seq<Write>, cut: nat, index: Index, root: Digest)
    requires AllFaithful(fmt, writes) && cut <= |Appended(fmt, writes, root)|
    requires writes != [] ==> cut < RecordLength(fmt, writes[0])
    ensures var torn := Appended(fmt, writes, root)[..cut];
            !IsCompleteFrame(torn) && Replay(fmt, torn, index, root) == Scan(0, index, root, false)
  {
    if writes != [] {
      FirstRecord(fmt, writes, root);
      assert Appended(fmt, writes, root)[..cut] == Encode(fmt, writes[0], root)[..cut];
      StrictPrefixIsTorn(fmt, fmt.payload(writes[0]), root, cut);
    }
  }

  lemma ReplayAppended(fmt: Format, writes: seq<Write>, tail: Bytes, index: Index, root: Digest)
    requires AllFaithful(fmt, writes)
    ensures Replay(fmt, Appended(fmt, writes, root) + tail, index, root)
         == Later(|Appended(fmt, writes, root)|,
                  Replay(fmt, tail, Apply(index, writes), AppendedRoot(fmt, writes, root)))
  {
    PayloadsReadBack(fmt, writes);
    ReplayLog(fmt, PayloadsOf(fmt, writes), tail, index, root);
  }

  lemma CutSplits(fmt: Format, writes: seq<Write>, n: nat, cut: nat, root: Digest)
    requires n <= |writes| && |Appended(fmt, writes[..n], root)| <= cut <= |Appended(fmt, writes, root)|
    ensures var whole := Appended(fmt, writes[..n], root);
            var rest := Appended(fmt, writes[n..], AppendedRoot(fmt, writes[..n], root));
            && cut - |whole| <= |rest|
            && Appended(fmt, writes, root)[..cut] == whole + rest[..cut - |whole|]
  {
    AppendedSplits(fmt, writes[..n], writes[n..], root);
    assert writes == writes[..n] + writes[n..];
  }

  lemma ReplayTorn(fmt: Format, writes: seq<Write>, cut: nat, index: Index, root: Digest)
    requires AllFaithful(fmt, writes) && cut <= |Appended(fmt, writes, root)|
    ensures KeepsWhole(fmt, writes, cut, index, root)
  {
    hide Replay, Log, Root, PayloadsOf;
    var n := WholeRecords(fmt, writes, cut);
    var kept, lost := writes[..n], writes[n..];
    WholeFit(fmt, writes, cut, root);
    CutSplits(fmt, writes, n, cut, root);
    var next, whole := AppendedRoot(fmt, kept, root), Appended(fmt, kept, root);
    var tail := Appended(fmt, lost, next)[..cut - |whole|];
    assert (whole + tail)[|whole|..] == tail;
    ReplayAppended(fmt, kept, tail, index, root);
    TornRecord(fmt, lost, cut - |whole|, Apply(index, kept), next);
  }

  lemma {:induction false} AppendedSplits(fmt: Format, a: seq<Write>, b: seq<Write>, root: Digest)
    ensures Appended(fmt, a + b, root) == Appended(fmt, a, root) + Appended(fmt, b, AppendedRoot(fmt, a, root))
    ensures AppendedRoot(fmt, a + b, root) == AppendedRoot(fmt, b, AppendedRoot(fmt, a, root))
  {
    PayloadsAppend(fmt, a, b);
    LogAppend(fmt, PayloadsOf(fmt, a), PayloadsOf(fmt, b), root);
  }

  lemma {:induction false} PayloadsAppend(fmt: Format, a: seq<Write>, b: seq<Write>)
    ensures PayloadsOf(fmt, a + b) == PayloadsOf(fmt, a) + PayloadsOf(fmt, b)
  {
    if a == [] {
      assert a + b == b;
    } else {
      assert (a + b)[1..] == a[1..] + b;
      PayloadsAppend(fmt, a[1..], b);
    }
  }

  lemma FirstRecord(fmt: Format, writes: seq<Write>, root: Digest)
    requires writes != []
    ensures Appended(fmt, writes, root)
         == Encode(fmt, writes[0], root) + Appended(fmt, writes[1..], Link(fmt, fmt.payload(writes[0]), root))
  {
    assert PayloadsOf(fmt, writes)[1..] == PayloadsOf(fmt, writes[1..]);
  }

  lemma SingleRecord(fmt: Format, w: Write, root: Digest)
    ensures Appended(fmt, [w], root) == Encode(fmt, w, root)
    ensures AppendedRoot(fmt, [w], root) == Link(fmt, fmt.payload(w), root)
  {
    var ps := PayloadsOf(fmt, [w]);
    var next := Link(fmt, fmt.payload(w), root);
    assert PayloadsOf(fmt, [w][1..]) == [];
    assert ps[0] == fmt.payload(w) && ps[1..] == [];
    assert Log(fmt, ps[1..], next) == [] && Root(fmt, ps[1..], next) == next;
    assert Encode(fmt, w, root) + [] == Encode(fmt, w, root);
  }

  /** The whole records end within the cut, and the next one does not. */
  lemma {:induction false} WholeFit(fmt: Format, writes: seq<Write>, cut: nat, root: Digest)
    requires cut <= |Appended(fmt, writes, root)|
    ensures var n := WholeRecords(fmt, writes, cut);
            && |Appended(fmt, writes[..n], root)| <= cut
            && (n == |writes| ==> |Appended(fmt, writes[..n], root)| == cut)
            && (n < |writes| ==> cut < |Appended(fmt, writes[..n], root)| + RecordLength(fmt, writes[n]))
    decreases |writes|
  {
    var n := WholeRecords(fmt, writes, cut);
    if n == 0 {
      assert writes[..0] == [];
    } else {
      var next := Link(fmt, fmt.payload(writes[0]), root);
      FirstRecord(fmt, writes, root);
      FirstRecord(fmt, writes[..n], root);
      assert writes[..n][1..] == writes[1..][..n - 1];
      WholeFit(fmt, writes[1..], cut - RecordLength(fmt, writes[0]), next);
    }
  }

  /** Appending to a file adds the appended writes to what it holds. */
  lemma AppendHolds(fmt: Format, file: Bytes, index: Index, root: Digest, writes: seq<Write>)
    requires Holds(fmt, file, index, root) && AllFaithful(fmt, writes)
    ensures Holds(fmt, file + Appended(fmt, writes, root), Apply(index, writes), AppendedRoot(fmt, writes, root))
  {
    var log := Appended(fmt, writes, root);
    ReplayContinues(fmt, file, index, root, log);
    ReplayAppended(fmt, writes, [], index, root);
    assert log + [] == log;
  }

  lemma NothingHeld(fmt: Format)
    ensures Holds(fmt, [], map[], GENESIS)
  {
  }

  /** Reopening after an append that was cut short: the whole records among it survive. */
  lemma TornAppendOpens(fmt: Format, file: Bytes, index: Index, root: Digest, writes: seq<Write>, cut: nat)
    requires Holds(fmt, file, index, root) && AllFaithful(fmt, writes)
    requires cut <= |Appended(fmt, writes, root)|
    ensures var kept := writes[..WholeRecords(fmt, writes, cut)];
            Open(fmt, file + Appended(fmt, writes, root)[..cut])
            == Ok(Opened(Apply(index, kept), AppendedRoot(fmt, kept, root), |file| + |Appended(fmt, kept, root)|))
  {
    hide Replay, Log, Root, PayloadsOf;
    var torn := Appended(fmt, writes, root)[..cut];
    ReplayContinues(fmt, file, index, root, torn);
    ReplayTorn(fmt, writes, cut, index, root);
    var whole := |Appended(fmt, writes[..WholeRecords(fmt, writes, cut)], root)|;
    assert (file + torn)[|file| + whole..] == torn[whole..];
  }
}
