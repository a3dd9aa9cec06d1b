/** Properties of the greylisting engine over whole traces of attempts on many keys. */
module GreylistProofs {
  import opened GreylistModel

  // ---- The lazy machine and its windows ----

  /** What the table holds for a key, given the times of the attempts on it. */
  ghost predicate Summarizes(t: Table, ts: seq<int>, reset: int, key: string) {
    if ts == [] then key !in t
    else
      && key in t
      && exists start: nat :: IsWindow(ts, reset, start) && t[key] == State(ts[start], ts[|ts| - 1], |ts| - start)
  }

  lemma WindowUnique(ts: seq<int>, reset: int, a: nat, b: nat)
    requires IsWindow(ts, reset, a) && IsWindow(ts, reset, b)
    ensures a == b
  {
  }

  lemma Extend(ts: seq<int>, reset: int, start: nat, now: int)
    requires IsWindow(ts, reset, start)
    ensures IsWindow(ts + [now], reset, if now - ts[|ts| - 1] < reset then start else |ts|)
  {
  }

  lemma LazyStep(t: Table, ts: seq<int>, a: Attempt, reset: int)
    requires Stored(a) && a.rule.resetAfter == reset > 0 && a.rule.allowAfter >= 1
    requires Summarizes(t, ts, reset, a.key)
    requires forall i :: 0 <= i < |ts| ==> ts[i] <= a.now
    ensures Summarizes(Respond(false, t, a).0, ts + [a.now], reset, a.key)
    ensures Respond(false, t, a).1 == (if Admits(ts + [a.now], a.rule) then Accepted else Deferred)
  {
    var all := ts + [a.now];
    var start: nat;
    if ts == [] {
      start := 0;
      assert IsWindow(all, reset, start);
    } else {
      var s: nat :| IsWindow(ts, reset, s) && t[a.key] == State(ts[s], ts[|ts| - 1], |ts| - s);
      Extend(ts, reset, s, a.now);
      start := if a.now - ts[|ts| - 1] < reset then s else |ts|;
    }
    assert IsWindow(all, reset, start);
    var r := Respond(false, t, a);
    assert r.0[a.key] == State(all[start], a.now, |all| - start);
    if Admits(all, a.rule) {
      var b: nat :| IsWindow(all, reset, b) && |all| - b > a.rule.allowAfter
          && all[|all| - 1] - all[b] >= a.rule.minRetryAfter;
      WindowUnique(all, reset, start, b);
    }
  }

  lemma LazyOther(t: Table, ts: seq<int>, a: Attempt, reset: int, key: string)
    requires Summarizes(t, ts, reset, key) && (a.key != key || !Stored(a))
    ensures Summarizes(Respond(false, t, a).0, ts, reset, key)
  {
  }

  lemma {:induction false} TimesBounded(trace: seq<Attempt>, key: string, now: int)
    requires forall i :: 0 <= i < |trace| ==> trace[i].now <= now
    ensures forall i :: 0 <= i < |Times(trace, key)| ==> Times(trace, key)[i] <= now
  {
    if trace != [] {
      TimesBounded(trace[..|trace| - 1], key, now);
    }
  }

  /** Without sweeping, the table summarizes the current window of every key. */
  lemma {:induction false} LazyTable(trace: seq<Attempt>, reset: int, key: string)
    requires Chronological(trace) && SharedReset(trace, reset) && reset > 0
    requires forall i :: 0 <= i < |trace| ==> trace[i].rule.allowAfter >= 1
    ensures Summarizes(TableAfter(false, trace), Times(trace, key), reset, key)
  {
    if trace != [] {
      var n := |trace| - 1;
      var before := trace[..n];
      LazyTable(before, reset, key);
      TimesBounded(before, key, trace[n].now);
      if trace[n].key == key && Stored(trace[n]) {
        LazyStep(TableAfter(false, before), Times(before, key), trace[n], reset);
      } else {
        LazyOther(TableAfter(false, before), Times(before, key), trace[n], reset, key);
        assert Times(before, key) + [] == Times(before, key);
      }
    }
  }

  // ---- The sweep ----

  /** The swept table lacks only states that are stale by now. */
  ghost predicate SweptOf(lazy: Table, swept: Table, now: int, reset: int) {
    && (forall k :: k in swept ==> k in lazy && swept[k] == lazy[k])
    && (forall k :: k in lazy && k !in swept ==> lazy[k].lastSeen <= now - reset)
  }

  lemma SweepStep(lazy: Table, swept: Table, was: int, a: Attempt, reset: int)
    requires a.rule.resetAfter == reset > 0
    requires SweptOf(lazy, swept, was, reset) && was <= a.now
    ensures SweptOf(Respond(false, lazy, a).0, Respond(true, swept, a).0, a.now, reset)
    ensures Respond(false, lazy, a).1 == Respond(true, swept, a).1
  {
    var s := if a.faults.sweep then swept else Sweep(swept, a.now - reset);
    if a.key in lazy && a.key !in s {
      assert lazy[a.key].lastSeen <= a.now - reset;
    }
  }

  lemma {:induction false} SweepTables(trace: seq<Attempt>, reset: int, now: int)
    requires Chronological(trace) && SharedReset(trace, reset) && reset > 0
    requires forall i :: 0 <= i < |trace| ==> trace[i].now <= now
    ensures SweptOf(TableAfter(false, trace), TableAfter(true, trace), now, reset)
  {
    if trace != [] {
      var n := |trace| - 1;
      SweepTables(trace[..n], reset, trace[n].now);
      SweepStep(TableAfter(false, trace[..n]), TableAfter(true, trace[..n]), trace[n].now, trace[n], reset);
    }
  }

  /**
   * With one reset time for all rules, sweeping expired states of all keys changes no answer, whichever store calls
   * fail.
   */
  lemma SweepUnobservable(trace: seq<Attempt>, reset: int, n: nat)
    requires Chronological(trace) && SharedReset(trace, reset) && reset > 0
    requires n < |trace|
    ensures ResponseAt(true, trace, n) == ResponseAt(false, trace, n)
  {
    SweepTables(trace[..n], reset, trace[n].now);
    SweepStep(TableAfter(false, trace[..n]), TableAfter(true, trace[..n]), trace[n].now, trace[n], reset);
  }

  /**
   * The closed form: in every interleaving of attempts on any keys, with any store failures, the real
   * (sweeping) engine accepts a stored attempt exactly when the times of the stored attempts on its own key
   * admit it, and answers the others with a server error.
   */
  lemma ClosedForm(trace: seq<Attempt>, reset: int, n: nat)
    requires Chronological(trace) && SharedReset(trace, reset) && reset > 0
    requires forall i :: 0 <= i < |trace| ==> trace[i].rule.allowAfter >= 1
    requires n < |trace|
    ensures ResponseAt(true, trace, n) ==
              if !Stored(trace[n]) then ServerError
              else if Admits(Times(trace[..n + 1], trace[n].key), trace[n].rule) then Accepted else Deferred
  {
    var before := trace[..n];
    SweepUnobservable(trace, reset, n);
    LazyTable(before, reset, trace[n].key);
    TimesBounded(before, trace[n].key, trace[n].now);
    if Stored(trace[n]) {
      LazyStep(TableAfter(false, before), Times(before, trace[n].key), trace[n], reset);
    }
    assert trace[..n + 1][..n] == before;
  }

  /** Once admitted, a key stays admitted as long as no gap reaches the reset time. */
  lemma StaysAdmitted(ts: seq<int>, more: seq<int>, rule: Rule)
    requires Admits(ts, rule)
    requires forall k :: 0 < k < |ts + more| ==> (ts + more)[k - 1] <= (ts + more)[k]
    requires forall k :: |ts| <= k < |ts + more| ==> (ts + more)[k] - (ts + more)[k - 1] < rule.resetAfter
    ensures Admits(ts + more, rule)
    decreases |more|
  {
    if more == [] {
      assert ts + more == ts;
    } else {
      var start: nat :| IsWindow(ts, rule.resetAfter, start)
        && |ts| - start > rule.allowAfter && ts[|ts| - 1] - ts[start] >= rule.minRetryAfter;
      var now := more[0];
      var all := ts + more;
      assert all[|ts|] == now && all[|ts| - 1] == ts[|ts| - 1];
      Extend(ts, rule.resetAfter, start, now);
      assert Admits(ts + [now], rule) by {
        assert IsWindow(ts + [now], rule.resetAfter, start);
      }
      assert (ts + [now]) + more[1..] == all;
      StaysAdmitted(ts + [now], more[1..], rule);
    }
  }

  lemma {:induction false} TimesSorted(trace: seq<Attempt>, key: string)
    requires Chronological(trace)
    ensures forall k :: 0 < k < |Times(trace, key)| ==> Times(trace, key)[k - 1] <= Times(trace, key)[k]
  {
    if trace != [] {
      TimesSorted(trace[..|trace| - 1], key);
      TimesBounded(trace[..|trace| - 1], key, trace[|trace| - 1].now);
    }
  }

  lemma {:induction false} TimesPrefix(trace: seq<Attempt>, m: nat, key: string)
    requires m <= |trace|
    ensures Times(trace[..m], key) <= Times(trace, key)
  {
    if m < |trace| {
      TimesPrefix(trace[..|trace| - 1], m, key);
      assert trace[..|trace| - 1][..m] == trace[..m];
    } else {
      assert trace[..m] == trace;
    }
  }

  lemma TimesExtend(trace: seq<Attempt>, m: nat, n: nat, key: string)
    requires m <= n < |trace| && Chronological(trace)
    ensures var ts, all := Times(trace[..m + 1], key), Times(trace[..n + 1], key);
            && |ts| <= |all| && all == ts + all[|ts|..]
            && forall k :: 0 < k < |all| ==> all[k - 1] <= all[k]
  {
    assert trace[..n + 1][..m + 1] == trace[..m + 1];
    TimesPrefix(trace[..n + 1], m + 1, key);
    TimesSorted(trace[..n + 1], key);
  }

  /** Once a sender was accepted, its stored retries are accepted until it pauses for the reset time. */
  lemma OnceAccepted(trace: seq<Attempt>, reset: int, m: nat, n: nat)
    requires Chronological(trace) && SharedReset(trace, reset) && reset > 0
    requires forall i :: 0 <= i < |trace| ==> trace[i].rule.allowAfter >= 1
    requires m <= n < |trace| && trace[m].key == trace[n].key && trace[m].rule == trace[n].rule
    requires ResponseAt(true, trace, m) == Accepted && Stored(trace[n])
    requires var ts := Times(trace[..n + 1], trace[n].key);
             forall k :: |Times(trace[..m + 1], trace[m].key)| <= k < |ts| && k > 0 ==> ts[k] - ts[k - 1] < reset
    ensures ResponseAt(true, trace, n) == Accepted
  {
    ClosedForm(trace, reset, m);
    ClosedForm(trace, reset, n);
    TimesExtend(trace, m, n, trace[n].key);
    var ts, all := Times(trace[..m + 1], trace[n].key), Times(trace[..n + 1], trace[n].key);
    StaysAdmitted(ts, all[|ts|..], trace[n].rule);
  }

  // ---- Different reset times ----

  ghost predicate Uses(trace: seq<Attempt>, rules: set<Rule>) {
    forall i :: 0 <= i < |trace| ==> trace[i].rule in rules
  }

  /** On no chronological trace over these rules, whatever fails in it, does the sweep change an answer. */
  ghost predicate SweepInvisible(rules: set<Rule>) {
    forall trace: seq<Attempt>, n: nat :: n < |trace| && Chronological(trace) && Uses(trace, rules) ==>
      ResponseAt(true, trace, n) == ResponseAt(false, trace, n)
  }

  function Max(a: int, b: int): int {
    if a > b then a else b
  }

  /** Attempts on one key, one time unit apart, until they would be accepted. */
  function Patience(b: Rule): nat {
    Max(0, Max(b.allowAfter, b.minRetryAfter))
  }

  function Retries(b: Rule, n: nat): seq<Attempt> {
    seq(n, i => Attempt("victim", b, i, NO_FAULTS))
  }

  /** Another key's attempt sweeps the victim's state away just before the victim's last retry. */
  function Interleaved(a: Rule, b: Rule): seq<Attempt> {
    var late := Patience(b) + a.resetAfter;
    Retries(b, Patience(b) + 1) + [Attempt("other", a, late, NO_FAULTS), Attempt("victim", b, late, NO_FAULTS)]
  }

  lemma {:induction false} LazyRetries(b: Rule, n: nat)
    requires b.resetAfter > 1
    ensures var t := TableAfter(false, Retries(b, n + 1)); "victim" in t && t["victim"] == State(0, n, n + 1)
  {
    var r := Retries(b, n + 1);
    assert r[..n] == Retries(b, n);
    if n > 0 {
      LazyRetries(b, n - 1);
    } else {
      assert r[..0] == [];
    }
  }

  lemma {:induction false} LastSeenBounded(sweeps: bool, trace: seq<Attempt>, now: int, key: string)
    requires forall i :: 0 <= i < |trace| ==> trace[i].now <= now
    ensures var t := TableAfter(sweeps, trace); key in t ==> t[key].lastSeen <= now
  {
    if trace != [] {
      LastSeenBounded(sweeps, trace[..|trace| - 1], now, key);
    }
  }

  lemma InterleavedShape(a: Rule, b: Rule)
    requires Compiled(a)
    ensures var trace := Interleaved(a, b);
            var m := Patience(b) + 1;
            && Chronological(trace) && Uses(trace, {a, b})
            && |trace| == m + 2 && trace[..m + 1] == Retries(b, m) + [trace[m]] && trace[..m] == Retries(b, m)
            && trace[m] == Attempt("other", a, m - 1 + a.resetAfter, NO_FAULTS)
            && trace[m + 1] == Attempt("victim", b, m - 1 + a.resetAfter, NO_FAULTS)
  {
  }

  lemma SweptBeforeRetry(a: Rule, b: Rule)
    requires Compiled(a)
    ensures "victim" !in TableAfter(true, Interleaved(a, b)[..Patience(b) + 2])
  {
    var trace := Interleaved(a, b);
    var m := Patience(b) + 1;
    InterleavedShape(a, b);
    assert trace[..m + 1][..m] == trace[..m];
    LastSeenBounded(true, Retries(b, m), m - 1, "victim");
    assert |"other"| != |"victim"|;
  }

  lemma KeptBeforeRetry(a: Rule, b: Rule)
    requires Compiled(a) && b.resetAfter > 1
    ensures var t := TableAfter(false, Interleaved(a, b)[..Patience(b) + 2]);
            "victim" in t && t["victim"] == State(0, Patience(b), Patience(b) + 1)
  {
    var trace := Interleaved(a, b);
    var m := Patience(b) + 1;
    InterleavedShape(a, b);
    assert trace[..m + 1][..m] == trace[..m];
    LazyRetries(b, m - 1);
    assert |"other"| != |"victim"|;
  }

  lemma SweepVisible(a: Rule, b: Rule)
    requires Compiled(a) && Compiled(b) && a.resetAfter < b.resetAfter
    ensures var trace := Interleaved(a, b);
            ResponseAt(true, trace, |trace| - 1) == Deferred && ResponseAt(false, trace, |trace| - 1) == Accepted
  {
    InterleavedShape(a, b);
    SweptBeforeRetry(a, b);
    KeptBeforeRetry(a, b);
  }

  /** The sweep is unobservable for a set of compiled rules exactly when they share one reset time. */
  lemma SweepInvisibleIff(rules: set<Rule>)
    requires forall r :: r in rules ==> Compiled(r)
    ensures SweepInvisible(rules) <==> forall a, b :: a in rules && b in rules ==> a.resetAfter == b.resetAfter
  {
    if forall a, b :: a in rules && b in rules ==> a.resetAfter == b.resetAfter {
      forall trace: seq<Attempt>, n: nat | n < |trace| && Chronological(trace) && Uses(trace, rules)
        ensures ResponseAt(true, trace, n) == ResponseAt(false, trace, n)
      {
        SweepUnobservable(trace, trace[0].rule.resetAfter, n);
      }
    } else {
      var a, b :| a in rules && b in rules && a.resetAfter != b.resetAfter;
      if b.resetAfter < a.resetAfter {
        a, b := b, a;
      }
      SweepVisible(a, b);
      InterleavedShape(a, b);
      var trace := Interleaved(a, b);
      assert Uses(trace, rules);
    }
  }

  // ---- Any failures ----

  ghost predicate Witnessed(t: Table, trace: seq<Attempt>, key: string) {
    key in t ==>
      && t[key].attempts <= |Times(trace, key)|
      && exists i :: 0 <= i < |trace| && trace[i].key == key && Stored(trace[i]) && trace[i].now == t[key].firstSeen
  }

  lemma {:induction false} WitnessedTable(trace: seq<Attempt>, key: string)
    ensures Witnessed(TableAfter(true, trace), trace, key)
  {
    if trace != [] {
      var n := |trace| - 1;
      WitnessedTable(trace[..n], key);
      var t := TableAfter(true, trace[..n]);
      var t' := TableAfter(true, trace);
      if key in t' {
        if key in t && t'[key].firstSeen == t[key].firstSeen {
          var i :| 0 <= i < n && trace[..n][i].key == key && Stored(trace[..n][i])
              && trace[..n][i].now == t[key].firstSeen;
          assert trace[i].now == t'[key].firstSeen;
        } else {
          assert trace[n].key == key && Stored(trace[n]) && trace[n].now == t'[key].firstSeen;
        }
      }
    }
  }

  /**
   * Whatever rules are mixed and whichever store calls fail: an accepted attempt was preceded by at
   * least `allowAfter` stored attempts on its key, and by one at least `minRetryAfter` earlier.
   */
  lemma AcceptanceIsEarned(trace: seq<Attempt>, n: nat)
    requires n < |trace| && ResponseAt(true, trace, n) == Accepted
    ensures |Times(trace[..n], trace[n].key)| >= trace[n].rule.allowAfter
    ensures trace[n].rule.minRetryAfter > 0 ==>
              exists i :: 0 <= i < n && trace[i].key == trace[n].key && Stored(trace[i])
                && trace[n].now - trace[i].now >= trace[n].rule.minRetryAfter
  {
    WitnessedTable(trace[..n], trace[n].key);
    var t := TableAfter(true, trace[..n]);
    var i :| 0 <= i < n && trace[..n][i].key == trace[n].key && Stored(trace[..n][i])
        && trace[..n][i].now == t[trace[n].key].firstSeen;
    assert trace[i] == trace[..n][i];
  }
}
