/** The persisted states of an idempotency key. */
module Keys {
  import opened Prelude

  datatype CachedOutcome = CachedOutcome(status: u16, headers: map<Text, Text>, body: Bytes)

  datatype KeyState =
    | InProgress(fence: nat, fingerprint: Digest, leaseExpiresAt: u64)
    | Completed(fingerprint: Digest, outcome: CachedOutcome, completedAt: u64)

  /** What a store holds: the latest state of each key. */
  type Index = map<Text, KeyState>

  /** One write to a store. */
  datatype Write = Write(key: Text, state: KeyState)

  function Update(index: Index, w: Write): Index {
    index[w.key := w.state]
  }

  function Apply(index: Index, writes: seq<Write>): Index
    decreases |writes|
  {
    if writes == [] then index
    else Apply(Update(index, writes[0]), writes[1..])
  }

  lemma {:induction false} ApplyAppend(index: Index, a: seq<Write>, b: seq<Write>)
    ensures Apply(index, a + b) == Apply(Apply(index, a), b)
    decreases |a|
  {
    if a == [] {
      assert a + b == b;
    } else {
      assert (a + b)[1..] == a[1..] + b;
      ApplyAppend(Update(index, a[0]), a[1..], b);
    }
  }

  /** Fences held by the keys still in progress. */
  function LiveFences(index: Index): set<nat> {
    set key | key in index && index[key].InProgress? :: index[key].fence
  }

  ghost predicate IsMaximum(m: nat, fences: set<nat>) {
    (fences == {} ==> m == 0) && (fences != {} ==> m in fences) && forall f :: f in fences ==> f <= m
  }

  lemma {:induction false} MaximumExists(fences: set<nat>)
    ensures exists m: nat :: IsMaximum(m, fences)
  {
    if fences == {} {
      assert IsMaximum(0, fences);
    } else {
      var f :| f in fences;
      MaximumExists(fences - {f});
      var m: nat :| IsMaximum(m, fences - {f});
      assert forall g :: g in fences ==> g == f || g in fences - {f};
      if m < f || fences == {f} {
        assert IsMaximum(f, fences);
      } else {
        assert IsMaximum(m, fences);
      }
    }
  }

  /** The highest fence recorded among in-progress keys, 0 if there is none. */
  ghost function MaxFence(index: Index): (m: nat)
    ensures IsMaximum(m, LiveFences(index))
    ensures forall key :: key in index && index[key].InProgress? ==> index[key].fence <= m
  {
    MaximumExists(LiveFences(index));
    var m: nat :| IsMaximum(m, LiveFences(index));
    assert forall key :: key in index && index[key].InProgress? ==> index[key].fence in LiveFences(index);
    m
  }
}
