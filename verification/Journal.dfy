/** A store kept in lock-step with its log on disk, run against a ledger that knows nothing about
    bytes. A strict `put` is a buffered put followed by a commit; a group-commit store commits when it
    is flushed. A crash can cut the bytes of the running commit anywhere. */
module Journal {
  import opened Prelude
  import opened Keys
  import opened Frames
  import opened Wal

  /** `file` is synced, `pending` is not yet written. */
  datatype Store = Store(file: Bytes, pending: Bytes, index: Index, root: Digest)

  type Keep = (Text, KeyState) -> bool

  datatype Op =
    | Buffer(write: Write)
    | Commit
    | Compact(keep: Keep, order: seq<Text>)

  function Retain(index: Index, keep: Keep): Index {
    map key | key in index && keep(key, index[key]) :: index[key]
  }

  /** `order` lists every key of `index` once: one of the orders in which a hash map may be walked. */
  predicate Enumerates(order: seq<Text>, index: Index) {
    && (forall i :: 0 <= i < |order| ==> order[i] in index)
    && (forall key :: key in index ==> key in order)
    && (forall i, j :: 0 <= i < j < |order| ==> order[i] != order[j])
  }

  function Entries(order: seq<Text>, index: Index): (writes: seq<Write>)
    requires forall i :: 0 <= i < |order| ==> order[i] in index
    ensures |writes| == |order|
    ensures forall i :: 0 <= i < |order| ==> writes[i] == Write(order[i], index[order[i]])
  {
    if order == [] then [] else [Write(order[0], index[order[0]])] + Entries(order[1..], index)
  }

  predicate Legal(op: Op, index: Index) {
    op.Compact? ==> Enumerates(op.order, Retain(index, op.keep))
  }

  /** The compacted log: one record per surviving key, chained from genesis. */
  function Compacted(fmt: Format, op: Op, index: Index): seq<Write>
    requires op.Compact? && Legal(op, index)
  {
    Entries(op.order, Retain(index, op.keep))
  }

  function Step(fmt: Format, st: Store, op: Op): Store
    requires Legal(op, st.index)
  {
    match op
    case Buffer(w) =>
      Store(st.file, st.pending + Encode(fmt, w, st.root), Update(st.index, w), Link(fmt, fmt.payload(w), st.root))
    case Commit => Store(st.file + st.pending, [], st.index, st.root)
    case Compact(keep, order) =>
      var entries := Compacted(fmt, op, st.index);
      Store(Appended(fmt, entries, GENESIS), [], Retain(st.index, keep), AppendedRoot(fmt, entries, GENESIS))
  }

  predicate LegalRun(fmt: Format, st: Store, ops: seq<Op>)
    decreases |ops|, 0
  {
    var n := |ops| - 1;
    n < 0 || (LegalRun(fmt, st, ops[..n]) && Legal(ops[n], Run(fmt, st, ops[..n]).index))
  }

  function Run(fmt: Format, st: Store, ops: seq<Op>): Store
    requires LegalRun(fmt, st, ops)
    decreases |ops|, 1
  {
    var n := |ops| - 1;
    if n < 0 then st else Step(fmt, Run(fmt, st, ops[..n]), ops[n])
  }

  // ---- The ledger ----

  /** What is durable, under which root, and the writes made since. */
  datatype Ledger = Ledger(durable: Index, root: Digest, buffered: seq<Write>)

  function Visible(l: Ledger): Index {
    Apply(l.durable, l.buffered)
  }

  function LedgerStep(fmt: Format, l: Ledger, op: Op): Ledger
    requires Legal(op, Visible(l))
  {
    match op
    case Buffer(w) => l.(buffered := l.buffered + [w])
    case Commit => Ledger(Visible(l), AppendedRoot(fmt, l.buffered, l.root), [])
    case Compact(keep, order) =>
      Ledger(Retain(Visible(l), keep), AppendedRoot(fmt, Compacted(fmt, op, Visible(l)), GENESIS), [])
  }

  predicate LegalLedger(fmt: Format, l: Ledger, ops: seq<Op>)
    decreases |ops|, 0
  {
    var n := |ops| - 1;
    n < 0 || (LegalLedger(fmt, l, ops[..n]) && Legal(ops[n], Visible(LedgerRun(fmt, l, ops[..n]))))
  }

  function LedgerRun(fmt: Format, l: Ledger, ops: seq<Op>): Ledger
    requires LegalLedger(fmt, l, ops)
    decreases |ops|, 1
  {
    var n := |ops| - 1;
    if n < 0 then l else LedgerStep(fmt, LedgerRun(fmt, l, ops[..n]), ops[n])
  }

  // ---- The store keeps the ledger's books ----

  ghost predicate IndexFaithful(fmt: Format, index: Index) {
    forall key :: key in index ==> Faithful(fmt, Write(key, index[key]))
  }

  ghost predicate OpFaithful(fmt: Format, op: Op) {
    op.Buffer? ==> Faithful(fmt, op.write)
  }

  ghost predicate AllOpsFaithful(fmt: Format, ops: seq<Op>) {
    forall i :: 0 <= i < |ops| ==> OpFaithful(fmt, ops[i])
  }

  ghost predicate Keeps(fmt: Format, st: Store, l: Ledger) {
    && Holds(fmt, st.file, l.durable, l.root)
    && st.pending == Appended(fmt, l.buffered, l.root)
    && st.index == Visible(l)
    && st.root == AppendedRoot(fmt, l.buffered, l.root)
    && AllFaithful(fmt, l.buffered)
    && IndexFaithful(fmt, st.index)
  }

  lemma BufferKeeps(fmt: Format, st: Store, l: Ledger, w: Write)
    requires Keeps(fmt, st, l) && Faithful(fmt, w)
    ensures Keeps(fmt, Step(fmt, st, Buffer(w)), LedgerStep(fmt, l, Buffer(w)))
  {
    AppendedSplits(fmt, l.buffered, [w], l.root);
    SingleRecord(fmt, w, st.root);
    ApplyAppend(l.durable, l.buffered, [w]);
    assert Apply(Visible(l), [w]) == Update(Visible(l), w);
  }

  lemma CommitKeeps(fmt: Format, st: Store, l: Ledger)
    requires Keeps(fmt, st, l)
    ensures Keeps(fmt, Step(fmt, st, Commit), LedgerStep(fmt, l, Commit))
  {
    hide Replay, Appended, AppendedRoot;
    AppendHolds(fmt, st.file, l.durable, l.root, l.buffered);
    EmptyAppend(fmt, st.root);
  }

  lemma {:induction false} ApplyEntries(into: Index, order: seq<Text>, index: Index)
    requires forall i :: 0 <= i < |order| ==> order[i] in index
    ensures var r := Apply(into, Entries(order, index));
            && (forall key :: key in order ==> key in r && r[key] == index[key])
            && (forall key :: key !in order ==> (key in r <==> key in into) && (key in into ==> r[key] == into[key]))
    decreases |order|
  {
    if order != [] {
      assert order == [order[0]] + order[1..];
      ApplyEntries(Update(into, Write(order[0], index[order[0]])), order[1..], index);
    }
  }

  lemma RetainedEntries(fmt: Format, index: Index, keep: Keep, order: seq<Text>)
    requires IndexFaithful(fmt, index) && Enumerates(order, Retain(index, keep))
    ensures AllFaithful(fmt, Entries(order, Retain(index, keep)))
    ensures Apply(map[], Entries(order, Retain(index, keep))) == Retain(index, keep)
    ensures IndexFaithful(fmt, Retain(index, keep))
  {
    hide Faithful;
    ApplyEntries(map[], order, Retain(index, keep));
  }

  lemma CompactKeeps(fmt: Format, st: Store, l: Ledger, op: Op)
    requires Keeps(fmt, st, l) && op.Compact? && Legal(op, st.index)
    ensures Keeps(fmt, Step(fmt, st, op), LedgerStep(fmt, l, op))
  {
    hide Replay, Appended, AppendedRoot, Faithful, Enumerates, Retain;
    var entries := Compacted(fmt, op, st.index);
    RetainedEntries(fmt, st.index, op.keep, op.order);
    assert Holds(fmt, [], map[], GENESIS) by {
      NothingHeld(fmt);
    }
    AppendHolds(fmt, [], map[], GENESIS, entries);
    assert [] + Appended(fmt, entries, GENESIS) == Appended(fmt, entries, GENESIS);
    EmptyAppend(fmt, AppendedRoot(fmt, entries, GENESIS));
    assert Apply(Retain(st.index, op.keep), []) == Retain(st.index, op.keep);
  }

  lemma EmptyAppend(fmt: Format, root: Digest)
    ensures Appended(fmt, [], root) == [] && AppendedRoot(fmt, [], root) == root
  {
  }

  lemma StepKeeps(fmt: Format, st: Store, l: Ledger, op: Op)
    requires Keeps(fmt, st, l) && Legal(op, st.index) && OpFaithful(fmt, op)
    ensures Keeps(fmt, Step(fmt, st, op), LedgerStep(fmt, l, op))
  {
    match op
    case Buffer(w) => BufferKeeps(fmt, st, l, w);
    case Commit => CommitKeeps(fmt, st, l);
    case Compact(_, _) => CompactKeeps(fmt, st, l, op);
  }

  /** In every run the bytes on disk and in the buffer are the ledger's, and reads see all its writes. */
  lemma {:induction false} RunKeeps(fmt: Format, st: Store, l: Ledger, ops: seq<Op>)
    requires Keeps(fmt, st, l) && LegalRun(fmt, st, ops) && AllOpsFaithful(fmt, ops)
    ensures LegalLedger(fmt, l, ops)
    ensures Keeps(fmt, Run(fmt, st, ops), LedgerRun(fmt, l, ops))
    decreases |ops|
  {
    var n := |ops| - 1;
    if n >= 0 {
      RunKeeps(fmt, st, l, ops[..n]);
      StepKeeps(fmt, Run(fmt, st, ops[..n]), LedgerRun(fmt, l, ops[..n]), ops[n]);
    }
  }

  // ---- Crashes ----

  /** The disk when a commit died after `cut` of its bytes. */
  function Torn(st: Store, cut: nat): Bytes
    requires cut <= |st.pending|
  {
    st.file + st.pending[..cut]
  }

  /** What reopening finds when `n` of the buffered writes had reached the disk whole. */
  function Recovered(fmt: Format, l: Ledger, n: nat, file: Bytes): Opened
    requires n <= |l.buffered|
  {
    Opened(Apply(l.durable, l.buffered[..n]), AppendedRoot(fmt, l.buffered[..n], l.root),
           |file| + |Appended(fmt, l.buffered[..n], l.root)|)
  }

  /** However many bytes of a commit reached the disk, reopening yields the ledger with exactly the
      buffered writes that arrived whole, and cuts off less than one record. */
  lemma CommitTorn(fmt: Format, st: Store, l: Ledger, cut: nat)
    requires Keeps(fmt, st, l) && cut <= |st.pending|
    ensures var n := WholeRecords(fmt, l.buffered, cut);
            var o := Recovered(fmt, l, n, st.file);
            && Open(fmt, Torn(st, cut)) == Ok(o)
            && o.length <= |st.file| + cut
            && (n < |l.buffered| ==> |st.file| + cut < o.length + RecordLength(fmt, l.buffered[n]))
  {
    TornAppendOpens(fmt, st.file, l.durable, l.root, l.buffered, cut);
    WholeFit(fmt, l.buffered, cut, l.root);
  }

  lemma {:induction false} AllWhole(fmt: Format, writes: seq<Write>, root: Digest)
    ensures WholeRecords(fmt, writes, |Appended(fmt, writes, root)|) == |writes|
    decreases |writes|
  {
    if writes != [] {
      FirstRecord(fmt, writes, root);
      AllWhole(fmt, writes[1..], Link(fmt, fmt.payload(writes[0]), root));
    }
  }

  /** The contents of the live log and of the file a compaction is being written to. */
  datatype Disk = Disk(live: Bytes, temp: Option<Bytes>)

  /** The disks a compaction to `log` passes through: the temporary file is truncated and filled byte
      by byte, synced, and then renamed over the live log in one step. */
  function CompactionDisk(before: Disk, log: Bytes, moment: nat): Disk
    requires moment <= |log| + 2
  {
    if moment == 0 then before
    else if moment <= |log| + 1 then Disk(before.live, Some(log[..moment - 1]))
    else Disk(log, None)
  }

  /** At every moment of a compaction, whatever an earlier one left in the temporary file, reopening
      the live log gives the old durable index or exactly the retained one, under the root kept. */
  lemma CompactionIsAtomic(fmt: Format, st: Store, l: Ledger, op: Op, temp: Option<Bytes>, moment: nat)
    requires Keeps(fmt, st, l) && op.Compact? && Legal(op, st.index)
    requires var log := Step(fmt, st, op).file; moment <= |log| + 2
    ensures var after := Step(fmt, st, op);
            var disk := CompactionDisk(Disk(st.file, temp), after.file, moment);
            if moment < |after.file| + 2
            then Open(fmt, disk.live) == Ok(Opened(l.durable, l.root, |disk.live|))
            else Open(fmt, disk.live) == Ok(Opened(Retain(st.index, op.keep), after.root, |disk.live|))
  {
    CompactKeeps(fmt, st, l, op);
    HeldOpens(fmt, st.file, l.durable, l.root);
    var after, books := Step(fmt, st, op), LedgerStep(fmt, l, op);
    HeldOpens(fmt, after.file, books.durable, books.root);
  }

  // ---- Histories of puts and flushes ----

  predicate NoCompaction(ops: seq<Op>) {
    forall i :: 0 <= i < |ops| ==> !ops[i].Compact?
  }

  /** All puts of a history, in order. */
  function Puts(ops: seq<Op>): seq<Write> {
    var n := |ops| - 1;
    if n < 0 then []
    else if ops[n].Buffer? then Puts(ops[..n]) + [ops[n].write]
    else Puts(ops[..n])
  }

  /** How many puts of a history come before its last flush. */
  function Flushed(ops: seq<Op>): (n: nat)
    ensures n <= |Puts(ops)|
  {
    var n := |ops| - 1;
    if n < 0 then 0
    else if ops[n].Commit? then |Puts(ops)|
    else Flushed(ops[..n])
  }

  /** The books after `puts`, the first `flushed` of which have been flushed. */
  function Books(fmt: Format, base: Index, root: Digest, puts: seq<Write>, flushed: nat): Ledger
    requires flushed <= |puts|
  {
    Ledger(Apply(base, puts[..flushed]), AppendedRoot(fmt, puts[..flushed], root), puts[flushed..])
  }

  lemma {:induction false} LedgerOfHistory(fmt: Format, base: Index, root: Digest, ops: seq<Op>)
    requires NoCompaction(ops)
    ensures LegalLedger(fmt, Ledger(base, root, []), ops)
    ensures LedgerRun(fmt, Ledger(base, root, []), ops) == Books(fmt, base, root, Puts(ops), Flushed(ops))
    decreases |ops|
  {
    hide Appended, AppendedRoot;
    var n := |ops| - 1;
    if n < 0 {
      EmptyAppend(fmt, root);
    } else {
      LedgerOfHistory(fmt, base, root, ops[..n]);
      var puts, f := Puts(ops[..n]), Flushed(ops[..n]);
      assert puts == puts[..f] + puts[f..];
      if ops[n].Commit? {
        ApplyAppend(base, puts[..f], puts[f..]);
        AppendedSplits(fmt, puts[..f], puts[f..], root);
        assert puts[..|puts|] == puts;
      } else {
        var w := ops[n].write;
        assert (puts + [w])[..f] == puts[..f];
        assert (puts + [w])[f..] == puts[f..] + [w];
      }
    }
  }

  /** The store open returns over a file it accepts. */
  function Fresh(fmt: Format, buf: Bytes): Store
    requires Open(fmt, buf).Ok?
  {
    var o := Open(fmt, buf).value;
    OpenIsStable(fmt, buf);
    Store(buf[..o.length], [], o.index, o.root)
  }

  /** Whatever parses can be written back: holds of the log's own format. */
  ghost predicate Closed(fmt: Format) {
    forall p :: Valid(fmt, p) ==> Faithful(fmt, fmt.parse(p).value)
  }

  lemma {:induction false} AppliedFaithful(fmt: Format, index: Index, writes: seq<Write>)
    requires IndexFaithful(fmt, index) && AllFaithful(fmt, writes)
    ensures IndexFaithful(fmt, Apply(index, writes))
    decreases |writes|
  {
    if writes != [] {
      AppliedFaithful(fmt, Update(index, writes[0]), writes[1..]);
    }
  }

  lemma {:induction false} ParsedFaithful(fmt: Format, payloads: seq<Bytes>)
    requires Closed(fmt) && AllValid(fmt, payloads)
    ensures AllFaithful(fmt, WritesOf(fmt, payloads))
  {
    if payloads != [] {
      ParsedFaithful(fmt, payloads[1..]);
    }
  }

  /** Opening any bytes that open accepts starts a ledger. */
  lemma FreshKeeps(fmt: Format, buf: Bytes)
    requires Closed(fmt) && Open(fmt, buf).Ok?
    ensures StartsAt(fmt, Fresh(fmt, buf), Open(fmt, buf).value)
  {
    OpenIsStable(fmt, buf);
    AcceptedIsLog(fmt, buf, map[], GENESIS);
    var ps := Accepted(fmt, buf, GENESIS);
    ParsedFaithful(fmt, ps);
    AppliedFaithful(fmt, map[], WritesOf(fmt, ps));
  }

  /** The index, root and length reopening must find when the first `k` puts of a history survive. */
  function Survivors(fmt: Format, start: Opened, puts: seq<Write>, k: nat): Opened
    requires k <= |puts|
  {
    Opened(Apply(start.index, puts[..k]), AppendedRoot(fmt, puts[..k], start.root),
           start.length + |Appended(fmt, puts[..k], start.root)|)
  }

  lemma {:induction false} FileOfHistory(fmt: Format, start: Store, ops: seq<Op>)
    requires start.pending == [] && NoCompaction(ops) && LegalRun(fmt, start, ops)
    ensures var st := Run(fmt, start, ops);
            && st.file + st.pending == start.file + Appended(fmt, Puts(ops), start.root)
            && st.root == AppendedRoot(fmt, Puts(ops), start.root)
    decreases |ops|
  {
    var n := |ops| - 1;
    if n >= 0 {
      FileOfHistory(fmt, start, ops[..n]);
      if ops[n].Buffer? {
        var w, before := ops[n].write, Run(fmt, start, ops[..n]);
        AppendedSplits(fmt, Puts(ops[..n]), [w], start.root);
        SingleRecord(fmt, w, before.root);
        var e := Encode(fmt, w, before.root);
        Associate(before.file, before.pending, e);
        Associate(start.file, Appended(fmt, Puts(ops[..n]), start.root), e);
      }
    }
  }

  /** A store with nothing buffered that holds `start` and may be opened. */
  ghost predicate StartsAt(fmt: Format, st: Store, start: Opened) {
    && Keeps(fmt, st, Ledger(start.index, start.root, []))
    && |st.file| == start.length && st.pending == [] && st.root == start.root
  }

  lemma HistoryKeeps(fmt: Format, start: Store, o: Opened, ops: seq<Op>)
    requires StartsAt(fmt, start, o)
    requires NoCompaction(ops) && AllOpsFaithful(fmt, ops) && LegalRun(fmt, start, ops)
    ensures Keeps(fmt, Run(fmt, start, ops), Books(fmt, o.index, o.root, Puts(ops), Flushed(ops)))
    ensures |Run(fmt, start, ops).file| == o.length + |Appended(fmt, Puts(ops)[..Flushed(ops)], o.root)|
  {
    hide Replay, Appended, AppendedRoot, Apply, Run, LedgerRun;
    RunKeeps(fmt, start, Ledger(o.index, o.root, []), ops);
    LedgerOfHistory(fmt, o.index, o.root, ops);
    FileOfHistory(fmt, start, ops);
    var puts, f := Puts(ops), Flushed(ops);
    AppendedSplits(fmt, puts[..f], puts[f..], o.root);
    assert puts == puts[..f] + puts[f..];
  }

  lemma BooksSplit(fmt: Format, o: Opened, puts: seq<Write>, f: nat, k: nat, file: Bytes)
    requires f <= k <= |puts|
    requires |file| == o.length + |Appended(fmt, puts[..f], o.root)|
    ensures Recovered(fmt, Books(fmt, o.index, o.root, puts, f), k - f, file) == Survivors(fmt, o, puts, k)
  {
    assert puts[..k] == puts[..f] + puts[f..][..k - f];
    ApplyAppend(o.index, puts[..f], puts[f..][..k - f]);
    AppendedSplits(fmt, puts[..f], puts[f..][..k - f], o.root);
  }

  lemma CrashFrom(fmt: Format, start: Store, o: Opened, ops: seq<Op>, cut: nat) returns (k: nat)
    requires StartsAt(fmt, start, o)
    requires NoCompaction(ops) && AllOpsFaithful(fmt, ops) && LegalRun(fmt, start, ops)
    requires cut <= |Run(fmt, start, ops).pending|
    ensures Flushed(ops) <= k <= |Puts(ops)|
    ensures Open(fmt, Torn(Run(fmt, start, ops), cut)) == Ok(Survivors(fmt, o, Puts(ops), k))
    ensures cut == |Run(fmt, start, ops).pending| ==> k == |Puts(ops)|
  {
    hide Replay, Appended, AppendedRoot, Apply, Run, LedgerRun, Puts, Flushed;
    var st, puts, f := Run(fmt, start, ops), Puts(ops), Flushed(ops);
    var books := Books(fmt, o.index, o.root, puts, f);
    HistoryKeeps(fmt, start, o, ops);
    CommitTorn(fmt, st, books, cut);
    k := f + WholeRecords(fmt, puts[f..], cut);
    BooksSplit(fmt, o, puts, f, k, st.file);
    AllWhole(fmt, books.buffered, books.root);
  }

  /** For every file open accepts, every history of puts and flushes on it and every byte cut of the
      append that was running, reopening succeeds and finds exactly the state after some prefix of the
      puts that contains every flushed one. */
  lemma CrashAtAnyByte(fmt: Format, buf: Bytes, ops: seq<Op>, cut: nat)
    requires Closed(fmt) && Open(fmt, buf).Ok?
    requires NoCompaction(ops) && AllOpsFaithful(fmt, ops) && LegalRun(fmt, Fresh(fmt, buf), ops)
    requires cut <= |Run(fmt, Fresh(fmt, buf), ops).pending|
    ensures exists k | Flushed(ops) <= k <= |Puts(ops)| ::
              Open(fmt, Torn(Run(fmt, Fresh(fmt, buf), ops), cut)) == Ok(Survivors(fmt, Open(fmt, buf).value, Puts(ops), k))
  {
    FreshKeeps(fmt, buf);
    var k := CrashFrom(fmt, Fresh(fmt, buf), Open(fmt, buf).value, ops, cut);
  }

  /** Whatever bytes a file holds, if open accepts it then puts followed by a flush reopen to the
      recovered index updated by those puts. */
  lemma RecoveryThenPuts(fmt: Format, buf: Bytes, ops: seq<Op>)
    requires Closed(fmt) && Open(fmt, buf).Ok?
    requires NoCompaction(ops) && AllOpsFaithful(fmt, ops) && LegalRun(fmt, Fresh(fmt, buf), ops)
    ensures Open(fmt, Step(fmt, Run(fmt, Fresh(fmt, buf), ops), Commit).file)
         == Ok(Survivors(fmt, Open(fmt, buf).value, Puts(ops), |Puts(ops)|))
  {
    FreshKeeps(fmt, buf);
    var st := Run(fmt, Fresh(fmt, buf), ops);
    var k := CrashFrom(fmt, Fresh(fmt, buf), Open(fmt, buf).value, ops, |st.pending|);
    assert st.pending[..|st.pending|] == st.pending;
  }
}
