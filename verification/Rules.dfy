/** An ordered set of rate-limit rules over one key: every rule counts every request, and the first to
    trip decides. */
module Rules {
  import opened Prelude
  import opened Limiter

  datatype Action = Challenge | Throttle | Block

  datatype Verdict = Allow | Deny(rule: Text, action: Action)

  datatype Rule = Rule(name: Text, limiter: SlidingWindowLimiter, action: Action)

  class RuleSet {
    var rules: seq<Rule>

    function Limiters(): set<SlidingWindowLimiter>
      reads this
    {
      set i | 0 <= i < |rules| :: rules[i].limiter
    }

    ghost predicate Valid()
      reads this, Limiters()
    {
      && (forall i :: 0 <= i < |rules| ==> rules[i].limiter.Valid())
      && forall i, j :: 0 <= i < j < |rules| ==> rules[i].limiter != rules[j].limiter
    }

    constructor ()
      ensures Valid() && rules == []
    {
      rules := [];
    }

    /** Adds a rule after the ones already there, on a limiter of its own. */
    method AddRule(name: Text, window: u64, limit: u64, action: Action)
      requires Valid() && window > 0
      modifies this
      ensures Valid() && |rules| == |old(rules)| + 1 && rules[..|old(rules)|] == old(rules)
      ensures var added := rules[|old(rules)|];
              && added.name == name && added.action == action && fresh(added.limiter)
              && added.limiter.window == window && added.limiter.limit == limit && added.limiter.maxKeys == 1_000_000
              && added.limiter.history == map[]
    {
      hide Tracks;
      var limiter := new SlidingWindowLimiter.WithCapacity(window, limit, DEFAULT_MAX_KEYS);
      rules := rules + [Rule(name, limiter, action)];
    }

    /** What rule `i` has decided about the latest request of `key`. */
    ghost predicate Passes(i: nat, key: Text)
      requires i < |rules|
      reads this, rules[i].limiter
    {
      var l := rules[i].limiter;
      && l.window > 0 && key in l.history && l.history[key] != []
      && Admitted(l.window, l.limit, l.history[key], |l.history[key]| - 1)
    }

    twostate predicate Counted(i: nat, key: Text, now: u64)
      requires i < |rules| && rules == old(rules)
      reads this, rules[i].limiter
    {
      var l := rules[i].limiter;
      Recorded(old(l.history), l.history, l.maxKeys, key, now)
    }

    /** Rule `n` records the request and decides it. */
    method CheckRule(n: nat, key: Text, now: u64) returns (allowed: bool)
      requires Valid() && n < |rules|
      modifies rules[n].limiter
      ensures Valid() && Counted(n, key, now) && allowed == Passes(n, key)
    {
      hide Admitted, Recorded;
      allowed := rules[n].limiter.Check(key, now);
      HitIsThere(old(rules[n].limiter.history), rules[n].limiter.history, rules[n].limiter.maxKeys, key, now);
    }

    /** The verdict is that of the first rule over its budget, if any is. */
    ghost predicate Judges(verdict: Verdict, key: Text)
      reads this, Limiters()
    {
      match verdict
      case Allow => forall i :: 0 <= i < |rules| ==> Passes(i, key)
      case Deny(rule, action) =>
        exists i :: 0 <= i < |rules| && !Passes(i, key) && rules[i].name == rule && rules[i].action == action
                    && forall j :: 0 <= j < i ==> Passes(j, key)
    }

    /** Every rule records the request; the verdict is that of the first rule over its budget. */
    method Evaluate(key: Text, now: u64) returns (verdict: Verdict)
      requires Valid()
      modifies Limiters()
      ensures Valid()
      ensures forall i :: 0 <= i < |rules| ==> Counted(i, key, now)
      ensures Judges(verdict, key)
    {
      hide Admitted, Recorded, SlidingWindowLimiter.Valid, RuleSet.Passes;
      verdict := Allow;
      ghost var first := 0;
      for n := 0 to |rules|
        invariant Valid()
        invariant forall i :: n <= i < |rules| ==> unchanged(rules[i].limiter)
        invariant forall i :: 0 <= i < n ==> Counted(i, key, now)
        invariant verdict.Allow? ==> forall i :: 0 <= i < n ==> Passes(i, key)
        invariant verdict.Deny? ==>
                    && 0 <= first < n && !Passes(first, key) && verdict == Deny(rules[first].name, rules[first].action)
                    && forall j :: 0 <= j < first ==> Passes(j, key)
      {
        assert rules[n].limiter in Limiters();
        var allowed := CheckRule(n, key, now);
        if !allowed && verdict == Allow {
          verdict := Deny(rules[n].name, rules[n].action);
          first := n;
        }
      }
    }
  }

  lemma HitIsThere(before: map<Text, seq<u64>>, after: map<Text, seq<u64>>, max: nat, key: Text, now: u64)
    requires Recorded(before, after, max, key, now)
    ensures key in after && after[key] != []
  {
  }
}
