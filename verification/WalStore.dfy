/** The write-ahead-log store as it runs: an index in memory beside a log on disk. Each method is tied
    to a step of the journal, whose crash and recovery laws therefore hold of it. */
module WalStore {
  import opened Prelude
  import opened LittleEndian
  import opened Keys
  import opened Frames
  import opened Records
  import opened Wal
  import opened Journal
  import opened Codec

  method OpenLog(hash: Hash, buf: Bytes) returns (r: Result<Opened>)
    ensures r == Open(Onced(hash), buf)
  {
    hide Replay, Decode, Link, IsCompleteFrame;
    ghost var fmt := Onced(hash);
    var index: Index, root, offset := map[], GENESIS, 0;
    var rest := buf;
    var next := DecodeRecord(hash, rest);
    while next.Some?
      invariant 0 <= offset <= |buf| && rest == buf[offset..] && next == Decode(fmt, rest)
      invariant Replay(fmt, buf, map[], GENESIS) == Later(offset, Replay(fmt, rest, index, root))
      decreases |rest|
    {
      var record := next.value;
      ReplayStep(fmt, rest, index, root);
      var payload := rest[HEADER_LENGTH..record.total];
      var expected := hash(LinkInput(root, FromLe(rest[4..8]), payload));
      if expected != record.chain {
        return Err(ChainMismatch);
      }
      root := expected;
      index := Update(index, record.write);
      offset := offset + record.total;
      rest := rest[record.total..];
      next := DecodeRecord(hash, rest);
    }
    ReplayStops(fmt, rest, index, root);
    if IsCompleteFrame(rest) {
      return Err(InteriorCorruption);
    }
    r := Ok(Opened(index, root, offset));
  }

  lemma ReplayStep(fmt: Format, buf: Bytes, index: Index, root: Digest)
    requires Decode(fmt, buf).Some?
    ensures HEADER_LENGTH <= Decode(fmt, buf).value.total <= |buf|
    ensures FromLe(buf[4..8]) < 0x1_0000_0000
    ensures var record := Decode(fmt, buf).value;
            var expected := fmt.hash(LinkInput(root, FromLe(buf[4..8]), buf[HEADER_LENGTH..record.total]));
            && (expected != record.chain ==> Replay(fmt, buf, index, root).tampered)
            && (expected == record.chain ==>
                  Replay(fmt, buf, index, root)
                  == Later(record.total, Replay(fmt, buf[record.total..], Update(index, record.write), expected)))
  {
  }

  lemma ReplayStops(fmt: Format, buf: Bytes, index: Index, root: Digest)
    requires Decode(fmt, buf).None?
    ensures Replay(fmt, buf, index, root) == Scan(0, index, root, false)
  {
  }

  /** The log's own format satisfies what the journal's theorems ask of a format. */
  lemma OncedIsClosed(hash: Hash)
    ensures Closed(Onced(hash))
  {
    forall p | Valid(Onced(hash), p)
      ensures Faithful(Onced(hash), Onced(hash).parse(p).value)
    {
      ParsedIsFaithful(hash, p);
    }
  }

  /** `compacted` holds one record per entry, chained from genesis to `chain`, in the given order. */
  ghost predicate Rewrites(hash: Hash, index: Index, order: seq<Text>, compacted: Bytes, chain: Digest) {
    && Enumerates(order, index)
    && compacted == Appended(Onced(hash), Entries(order, index), GENESIS)
    && chain == AppendedRoot(Onced(hash), Entries(order, index), GENESIS)
  }

  method RewriteLog(hash: Hash, index: Index) returns (compacted: Bytes, chain: Digest)
    ensures exists order :: Rewrites(hash, index, order, compacted, chain)
  {
    hide Appended, AppendedRoot, Encode;
    ghost var fmt := Onced(hash);
    compacted, chain := [], GENESIS;
    ghost var order: seq<Text> := [];
    EmptyAppend(fmt, GENESIS);
    var left := index.Keys;
    while left != {}
      invariant left <= index.Keys
      invariant forall i :: 0 <= i < |order| ==> order[i] in index && order[i] !in left
      invariant forall key :: key in index ==> key in order || key in left
      invariant forall i, j :: 0 <= i < j < |order| ==> order[i] != order[j]
      invariant compacted == Appended(fmt, Entries(order, index), GENESIS)
      invariant chain == AppendedRoot(fmt, Entries(order, index), GENESIS)
      decreases left
    {
      var key :| key in left;
      var record := EncodeRecord(hash, key, index[key], chain);
      AppendEntry(hash, order, index, key, record);
      chain := record[8..40];
      compacted := compacted + record;
      order := order + [key];
      left := left - {key};
    }
    assert Rewrites(hash, index, order, compacted, chain);
  }

  class WalStore {
    const hash: Hash
    const syncEach: bool
    var index: Index
    var file: Bytes
    var pending: Bytes
    var chainRoot: Digest

    function State(): Store
      reads this
    {
      Store(file, pending, index, chainRoot)
    }

    /** The log `buf` cut back to what open accepted. */
    constructor Recover(hash: Hash, buf: Bytes, found: Opened, syncEach: bool)
      requires Open(Onced(hash), buf) == Ok(found)
      ensures this.hash == hash && this.syncEach == syncEach
      ensures State() == Fresh(Onced(hash), buf)
    {
      OpenIsStable(Onced(hash), buf);
      this.hash := hash;
      this.syncEach := syncEach;
      index := found.index;
      file := buf[..found.length];
      pending := [];
      chainRoot := found.root;
    }

    method Get(key: Text) returns (r: Option<KeyState>)
      ensures r.Some? <==> key in index
      ensures r.Some? ==> r.value == index[key]
    {
      r := if key in index then Some(index[key]) else None;
    }

    method FlushPending()
      modifies this
      ensures State() == Step(Onced(hash), old(State()), Commit)
    {
      if pending == [] {
        assert file + pending == file;
        return;
      }
      file := file + pending;
      pending := [];
    }

    method Put(key: Text, state: KeyState)
      modifies this
      ensures var buffered := Step(Onced(hash), old(State()), Buffer(Write(key, state)));
              State() == if syncEach then Step(Onced(hash), buffered, Commit) else buffered
    {
      hide Payload, Frame;
      var record := EncodeRecord(hash, key, state, chainRoot);
      FrameFields(Onced(hash), Payload(key, state), chainRoot, []);
      assert record + [] == record;
      pending := pending + record;
      chainRoot := record[8..40];
      index := Update(index, Write(key, state));
      if syncEach {
        FlushPending();
      }
    }

    method Flush()
      modifies this
      ensures State() == Step(Onced(hash), old(State()), Commit)
    {
      FlushPending();
    }

    method Compact(keep: Keep) returns (ghost order: seq<Text>)
      modifies this
      ensures Legal(Op.Compact(keep, order), old(index))
      ensures State() == Step(Onced(hash), old(State()), Op.Compact(keep, order))
    {
      hide Appended, AppendedRoot, Retain, Enumerates, Encode;
      index := Retain(index, keep);
      file, chainRoot := RewriteLog(hash, index);
      order :| Rewrites(hash, index, order, file, chainRoot);
      pending := [];
    }

    /** 0 when nothing is in progress. */
    method MaxInProgressFence() returns (m: nat)
      ensures m == MaxFence(index)
    {
      m := 0;
      ghost var best := {};
      var left := index.Keys;
      while left != {}
        invariant left <= index.Keys
        invariant forall f :: f in best ==> f in LiveFences(index)
        invariant forall key :: key in index && key !in left && index[key].InProgress? ==> index[key].fence in best
        invariant IsMaximum(m, best)
        decreases left
      {
        var key :| key in left;
        if index[key].InProgress? {
          best := best + {index[key].fence};
          if index[key].fence > m {
            m := index[key].fence;
          }
        }
        left := left - {key};
      }
      assert best == LiveFences(index);
    }
  }

  lemma AppendEntry(hash: Hash, order: seq<Text>, index: Index, key: Text, record: Bytes)
    requires key in index && forall i :: 0 <= i < |order| ==> order[i] in index
    requires record == Encode(Onced(hash), Write(key, index[key]), AppendedRoot(Onced(hash), Entries(order, index), GENESIS))
    ensures |record| >= HEADER_LENGTH
    ensures Appended(Onced(hash), Entries(order + [key], index), GENESIS)
         == Appended(Onced(hash), Entries(order, index), GENESIS) + record
    ensures AppendedRoot(Onced(hash), Entries(order + [key], index), GENESIS) == record[8..40]
  {
    hide Appended, AppendedRoot, Payload, Frame, Link;
    var fmt, w := Onced(hash), Write(key, index[key]);
    var root := AppendedRoot(fmt, Entries(order, index), GENESIS);
    assert Entries(order + [key], index) == Entries(order, index) + [w];
    AppendedSplits(fmt, Entries(order, index), [w], GENESIS);
    SingleRecord(fmt, w, root);
    FrameFields(fmt, fmt.payload(w), root, []);
    assert record + [] == record;
  }
}
