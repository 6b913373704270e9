/** The record codec as it runs: a growing buffer on the way out, a bounds-checked cursor on the way in. */
module Codec {
  import opened Prelude
  import opened LittleEndian
  import opened Texts
  import opened Keys
  import opened Crc32
  import opened Frames
  import opened Records

  /** `result` and what is left of the buffer are what the specification says. */
  ghost predicate Agrees<T>(result: Option<T>, rest: Bytes, spec: Option<(T, Bytes)>) {
    match spec
    case None => result.None?
    case Some((value, after)) => result == Some(value) && rest == after
  }

  class Reader {
    const buf: Bytes
    var pos: nat

    constructor (buf: Bytes)
      ensures this.buf == buf && Valid() && Rest() == buf
    {
      this.buf := buf;
      pos := 0;
    }

    predicate Valid()
      reads this
    {
      pos <= |buf|
    }

    function Rest(): Bytes
      requires Valid()
      reads this
    {
      buf[pos..]
    }

    method ReadSlice(n: nat) returns (r: Option<Bytes>)
      requires Valid()
      modifies this
      ensures Valid() && Agrees(r, Rest(), Take(old(Rest()), n))
      ensures r.None? ==> pos == old(pos)
    {
      var end := pos + n;
      if end > |buf| {
        return None;
      }
      assert buf[pos..][..n] == buf[pos..end] && buf[pos..][n..] == buf[end..];
      r := Some(buf[pos..end]);
      pos := end;
    }

    method ReadNumber(width: nat) returns (r: Option<nat>)
      requires Valid()
      modifies this
      ensures Valid() && Agrees(r, Rest(), TakeNumber(old(Rest()), width))
    {
      var field := ReadSlice(width);
      r := if field.None? then None else Some(FromLe(field.value));
    }

    method ReadDigest() returns (r: Option<Digest>)
      requires Valid()
      modifies this
      ensures Valid() && Agrees(r, Rest(), TakeDigest(old(Rest())))
    {
      var field := ReadSlice(32);
      r := if field.None? then None else Some(field.value);
    }

    method ReadBytes() returns (r: Option<Bytes>)
      requires Valid()
      modifies this
      ensures Valid() && Agrees(r, Rest(), TakeBytes(old(Rest())))
    {
      var length := ReadNumber(4);
      if length.None? {
        return None;
      }
      r := ReadSlice(length.value);
    }

    method ReadText() returns (r: Option<Text>)
      requires Valid()
      modifies this
      ensures Valid() && Agrees(r, Rest(), TakeText(old(Rest())))
    {
      var text := ReadBytes();
      r := if text.Some? && IsUtf8(text.value) then text else None;
    }

    method ReadHeaders(count: nat) returns (r: Option<map<Text, Text>>)
      requires Valid()
      modifies this
      ensures Valid() && Agrees(r, Rest(), TakeHeaders(old(Rest()), count, map[]))
    {
      var headers: map<Text, Text> := map[];
      for i := 0 to count
        invariant Valid()
        invariant TakeHeaders(old(Rest()), count, map[]) == TakeHeaders(Rest(), count - i, headers)
      {
        var name := ReadText();
        if name.None? {
          return None;
        }
        var value := ReadText();
        if value.None? {
          return None;
        }
        headers := headers[name.value := value.value];
      }
      r := Some(headers);
    }

    method ReadInProgress() returns (r: Option<KeyState>)
      requires Valid()
      modifies this
      ensures Valid() && Agrees(r, Rest(), TakeInProgress(old(Rest())))
    {
      var fence := ReadNumber(8);
      if fence.None? {
        return None;
      }
      var fingerprint := ReadDigest();
      if fingerprint.None? {
        return None;
      }
      ghost var before := Rest();
      var lease := ReadNumber(8);
      if lease.None? {
        return None;
      }
      NumbersFit(before, 8);
      r := Some(InProgress(fence.value, fingerprint.value, lease.value));
    }

    method ReadCompleted() returns (r: Option<KeyState>)
      requires Valid()
      modifies this
      ensures Valid() && Agrees(r, Rest(), TakeCompleted(old(Rest())))
    {
      var fingerprint := ReadDigest();
      if fingerprint.None? {
        return None;
      }
      ghost var s1 := Rest();
      var at := ReadNumber(8);
      if at.None? {
        return None;
      }
      ghost var s2 := Rest();
      var status := ReadNumber(2);
      if status.None? {
        return None;
      }
      NumbersFit(s1, 8);
      NumbersFit(s2, 2);
      var count := ReadNumber(4);
      if count.None? {
        return None;
      }
      var headers := ReadHeaders(count.value);
      if headers.None? {
        return None;
      }
      var body := ReadBytes();
      if body.None? {
        return None;
      }
      r := Some(Completed(fingerprint.value, CachedOutcome(status.value, headers.value, body.value), at.value));
    }

    method ReadState() returns (r: Option<KeyState>)
      requires Valid()
      modifies this
      ensures Valid() && Agrees(r, Rest(), TakeState(old(Rest())))
    {
      var tag := ReadNumber(1);
      if tag.None? {
        return None;
      }
      if tag.value == TAG_IN_PROGRESS {
        r := ReadInProgress();
      } else if tag.value == TAG_COMPLETED {
        r := ReadCompleted();
      } else {
        r := None;
      }
    }
  }

  method DecodeRecord(ghost hash: Hash, buf: Bytes) returns (r: Option<Record>)
    ensures r == Decode(Onced(hash), buf)
  {
    hide Checksum, TakeState, IsUtf8;
    if !IsCompleteFrame(buf) {
      return None;
    }
    var total := FrameLength(buf);
    var payload := buf[HEADER_LENGTH..total];
    var crc := ComputeChecksum(payload);
    if crc != FromLe(buf[4..8]) {
      return None;
    }
    var reader := new Reader(payload);
    var key := reader.ReadText();
    if key.None? {
      return None;
    }
    var state := reader.ReadState();
    if state.None? {
      return None;
    }
    r := Some(Record(total, Write(key.value, state.value), buf[8..HEADER_LENGTH]));
  }

  method EncodeHeaders(headers: map<Text, Text>) returns (buf: Bytes)
    ensures buf == PutHeaders(Sorted(headers.Keys), headers)
  {
    var names := Sorted(headers.Keys);
    buf := [];
    for i := 0 to |names|
      invariant buf + PutHeaders(names[i..], headers) == PutHeaders(names, headers)
    {
      PutHeadersStep(buf, names[i..], headers);
      assert names[i..][1..] == names[i + 1..];
      buf := buf + PutBytes(names[i]) + PutBytes(headers[names[i]]);
    }
    assert buf + [] == buf;
  }

  lemma PutHeadersStep(buf: Bytes, names: seq<Text>, headers: map<Text, Text>)
    requires names != [] && forall n :: n in names ==> n in headers
    ensures buf + PutHeaders(names, headers)
         == buf + PutBytes(names[0]) + PutBytes(headers[names[0]]) + PutHeaders(names[1..], headers)
  {
    var a, b, rest := PutBytes(names[0]), PutBytes(headers[names[0]]), PutHeaders(names[1..], headers);
    Associate(buf + a, b, rest);
    Associate(buf, a, b + rest);
  }

  method EncodeRecord(hash: Hash, key: Text, state: KeyState, prev: Digest) returns (framed: Bytes)
    ensures framed == Encode(Onced(hash), Write(key, state), prev)
  {
    var payload := PutBytes(key);
    match state {
      case InProgress(fence, fingerprint, lease) =>
        payload := payload + ([TAG_IN_PROGRESS] + (Le(fence, 8) + (fingerprint + Le(lease, 8))));
      case Completed(fingerprint, outcome, at) =>
        var headers := EncodeHeaders(outcome.headers);
        payload := payload + ([TAG_COMPLETED] + (fingerprint + (Le(at, 8) + (Le(outcome.status, 2) +
          (Le(|outcome.headers|, 4) + (headers + PutBytes(outcome.body)))))));
    }
    var crc := ComputeChecksum(payload);
    var chain := hash(LinkInput(prev, crc, payload));
    framed := Le(|payload|, 4) + Le(crc, 4);
    framed := framed + chain;
    framed := framed + payload;
  }
}
