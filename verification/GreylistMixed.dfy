/** The greylisting engine with rules of different reset times: what its cross-key sweep amounts to. */
module GreylistMixed {
  import opened GreylistModel

  /** The attempt counts for the key. */
  predicate Mine(a: Attempt, key: string) {
    a.key == key && Stored(a)
  }

  /** The attempt looks at the key's state: it sweeps all keys, or it is the key's own. */
  predicate Clears(a: Attempt, key: string) {
    !a.faults.sweep || Mine(a, key)
  }

  /** `l` is the last stored attempt on the key before position `n`. */
  ghost predicate LastBefore(trace: seq<Attempt>, key: string, l: int, n: int) {
    0 <= l < n <= |trace| && Mine(trace[l], key) && forall y :: l < y < n ==> !Mine(trace[y], key)
  }

  /**
   * Attempt `x`, on whatever key, comes at least its own rule's reset time after `l`, the last stored attempt
   * on the key before it.
   */
  ghost predicate Ends(trace: seq<Attempt>, key: string, l: int, x: int) {
    && LastBefore(trace, key, l, x) && x < |trace|
    && Clears(trace[x], key) && trace[x].now - trace[l].now >= trace[x].rule.resetAfter
  }

  /** Attempt `x`, no later than `n`, ends the window of the last attempt on the key before `n`. */
  ghost predicate EndedBy(trace: seq<Attempt>, key: string, l: int, x: int, n: int) {
    x <= n && Ends(trace, key, l, x) && LastBefore(trace, key, l, n)
  }

  ghost predicate Ended(trace: seq<Attempt>, key: string, n: int) {
    exists l, x :: EndedBy(trace, key, l, x, n)
  }

  ghost predicate NoneBefore(trace: seq<Attempt>, key: string, n: int) {
    forall y :: 0 <= y < n && y < |trace| ==> !Mine(trace[y], key)
  }

  /**
   * The current window of the key starts at `f`: its first attempt, or the first after a window that ended; and
   * nothing ended it.
   */
  ghost predicate StartsAt(trace: seq<Attempt>, key: string, f: int) {
    && 0 <= f < |trace| && Mine(trace[f], key)
    && (NoneBefore(trace, key, f) || Ended(trace, key, f))
    && forall l, x :: Ends(trace, key, l, x) ==> l < f
  }

  /** The number of stored attempts on the key from position `f` on. */
  function CountFrom(trace: seq<Attempt>, key: string, f: int): nat {
    if trace == [] || |trace| <= f then 0
    else CountFrom(trace[..|trace| - 1], key, f) + (if Mine(trace[|trace| - 1], key) then 1 else 0)
  }

  /**
   * The last attempt of the trace has more than `allowAfter` attempts in its window, and is late enough after the
   * first.
   */
  ghost predicate AdmitsFrom(trace: seq<Attempt>, f: int)
    requires trace != []
  {
    var a := trace[|trace| - 1];
    && StartsAt(trace, a.key, f) && CountFrom(trace, a.key, f) > a.rule.allowAfter
    && (a.rule.minRetryAfter > 0 ==> a.now - trace[f].now >= a.rule.minRetryAfter)
  }

  ghost predicate Admitted(trace: seq<Attempt>)
    requires trace != []
  {
    exists f :: AdmitsFrom(trace, f)
  }

  // ---- What the table holds ----

  ghost predicate Describes(s: State, trace: seq<Attempt>, key: string, f: int, l: int) {
    && StartsAt(trace, key, f) && LastBefore(trace, key, l, |trace|)
    && s == State(trace[f].now, trace[l].now, CountFrom(trace, key, f))
  }

  /**
   * The state of a key describes its current window; there is none exactly before the first attempt and after a
   * window ended.
   */
  ghost predicate Summary(t: Table, trace: seq<Attempt>, key: string) {
    if key in t then exists f, l :: Describes(t[key], trace, key, f, l)
    else NoneBefore(trace, key, |trace|) || Ended(trace, key, |trace|)
  }

  lemma Kept(trace: seq<Attempt>, a: Attempt, key: string)
    ensures forall l, n :: n <= |trace| ==> (LastBefore(trace + [a], key, l, n) <==> LastBefore(trace, key, l, n))
    ensures forall l, x :: x < |trace| ==> (Ends(trace + [a], key, l, x) <==> Ends(trace, key, l, x))
    ensures forall n :: n < |trace| ==> (Ended(trace + [a], key, n) <==> Ended(trace, key, n))
    ensures Ended(trace, key, |trace|) ==> Ended(trace + [a], key, |trace|)
    ensures forall n :: n <= |trace| ==> (NoneBefore(trace + [a], key, n) <==> NoneBefore(trace, key, n))
  {
    var all := trace + [a];
    assert forall y :: 0 <= y < |trace| ==> all[y] == trace[y];
    forall n | n < |trace| ensures Ended(all, key, n) <==> Ended(trace, key, n) {
      assert forall l, x :: EndedBy(all, key, l, x, n) <==> EndedBy(trace, key, l, x, n);
    }
    assert forall l, x :: EndedBy(trace, key, l, x, |trace|) ==> EndedBy(all, key, l, x, |trace|);
  }

  lemma CountPush(trace: seq<Attempt>, a: Attempt, key: string, f: int)
    requires f <= |trace|
    ensures CountFrom(trace + [a], key, f) == CountFrom(trace, key, f) + (if Mine(a, key) then 1 else 0)
  {
    assert (trace + [a])[..|trace|] == trace;
  }

  /** A window that the attempt does not end goes on. */
  lemma GoesOn(trace: seq<Attempt>, a: Attempt, key: string, f: int)
    requires StartsAt(trace, key, f) && forall l :: !Ends(trace + [a], key, l, |trace|)
    ensures StartsAt(trace + [a], key, f)
  {
    Kept(trace, a, key);
    assert forall l, x :: Ends(trace + [a], key, l, x) ==> x < |trace|;
  }

  lemma NotEnded(trace: seq<Attempt>, a: Attempt, key: string, l: int)
    requires LastBefore(trace, key, l, |trace|)
    requires a.now - trace[l].now < a.rule.resetAfter || !Clears(a, key)
    ensures forall l' :: !Ends(trace + [a], key, l', |trace|)
  {
    Kept(trace, a, key);
  }

  lemma EndsNow(trace: seq<Attempt>, a: Attempt, key: string, l: int)
    requires LastBefore(trace, key, l, |trace|) && a.now - trace[l].now >= a.rule.resetAfter && Clears(a, key)
    ensures Ended(trace + [a], key, |trace|)
    ensures !Mine(a, key) ==> Ended(trace + [a], key, |trace| + 1)
  {
    Kept(trace, a, key);
    var n := |trace|;
    assert EndedBy(trace + [a], key, l, n, n);
    if !Mine(a, key) {
      assert EndedBy(trace + [a], key, l, n, n + 1);
    }
  }

  lemma StartsNow(trace: seq<Attempt>, a: Attempt)
    requires Stored(a) && (NoneBefore(trace + [a], a.key, |trace|) || Ended(trace + [a], a.key, |trace|))
    ensures StartsAt(trace + [a], a.key, |trace|) && CountFrom(trace + [a], a.key, |trace|) == 1
  {
    CountPush(trace, a, a.key, |trace|);
    assert forall l, x :: Ends(trace + [a], a.key, l, x) ==> l < x <= |trace|;
  }

  /** A stored attempt on its own key. */
  lemma OwnStep(t: Table, trace: seq<Attempt>, a: Attempt) returns (f: int)
    requires Stored(a) && Compiled(a.rule) && Summary(t, trace, a.key)
    ensures Respond(true, t, a).0.Keys >= {a.key}
        && Describes(Respond(true, t, a).0[a.key], trace + [a], a.key, f, |trace|)
    ensures Respond(true, t, a).1.Accepted? <==> AdmitsFrom(trace + [a], f)
    ensures !Respond(true, t, a).1.ServerError?
  {
    Kept(trace, a, a.key);
    f := |trace|;
    if a.key in t {
      var g, l :| Describes(t[a.key], trace, a.key, g, l);
      if a.now - trace[l].now < a.rule.resetAfter {
        f := g;
        NotEnded(trace, a, a.key, l);
        GoesOn(trace, a, a.key, g);
        CountPush(trace, a, a.key, g);
      } else {
        EndsNow(trace, a, a.key, l);
        StartsNow(trace, a);
      }
    } else {
      StartsNow(trace, a);
    }
  }

  /**
   * An attempt on another key, or one that was not stored, may sweep the key's state away, and does nothing else to
   * it.
   */
  lemma OtherEffect(t: Table, a: Attempt, key: string)
    requires !Mine(a, key) && a.rule.resetAfter > 0
    ensures var r := Respond(true, t, a).0;
            && (key in r ==> key in t && r[key] == t[key])
            && (key in t ==> (key !in r <==> !a.faults.sweep && a.now - t[key].lastSeen >= a.rule.resetAfter))
  {
  }

  lemma OtherStep(t: Table, trace: seq<Attempt>, a: Attempt, key: string)
    requires Compiled(a.rule) && !Mine(a, key) && Summary(t, trace, key)
    ensures Summary(Respond(true, t, a).0, trace + [a], key)
  {
    Kept(trace, a, key);
    OtherEffect(t, a, key);
    if key in t {
      var f, l :| Describes(t[key], trace, key, f, l);
      if key in Respond(true, t, a).0 {
        NotEnded(trace, a, key, l);
        GoesOn(trace, a, key, f);
        CountPush(trace, a, key, f);
        assert Describes(t[key], trace + [a], key, f, l);
      } else {
        EndsNow(trace, a, key, l);
      }
    } else if Ended(trace, key, |trace|) {
      var l, x :| EndedBy(trace, key, l, x, |trace|);
      assert EndedBy(trace + [a], key, l, x, |trace| + 1);
    }
  }

  lemma {:induction false} TableSummary(trace: seq<Attempt>, key: string)
    requires forall i :: 0 <= i < |trace| ==> Compiled(trace[i].rule)
    ensures Summary(TableAfter(true, trace), trace, key)
  {
    if trace != [] {
      var n := |trace| - 1;
      var a := trace[n];
      TableSummary(trace[..n], key);
      assert trace == trace[..n] + [a];
      if Mine(a, key) {
        var f := OwnStep(TableAfter(true, trace[..n]), trace[..n], a);
      } else {
        OtherStep(TableAfter(true, trace[..n]), trace[..n], a, key);
      }
    }
  }

  lemma StartOrder(trace: seq<Attempt>, key: string, f: int, g: int)
    requires StartsAt(trace, key, f) && StartsAt(trace, key, g)
    ensures g <= f
  {
    if Ended(trace, key, g) {
      var l, x :| EndedBy(trace, key, l, x, g);
      assert l < f;
    }
  }

  /**
   * The closed form for any mix of rules and any store failures: a stored attempt is accepted exactly if its
   * window has more than `allowAfter` attempts and started at least `minRetryAfter` ago, where a window also
   * ends at any attempt, on any key, that comes at least its own rule's reset time after the last stored
   * attempt of the window, and whose sweep succeeds. Attempts that are not stored get a server error.
   */
  lemma MixedClosedForm(trace: seq<Attempt>, n: nat)
    requires n < |trace| && forall i :: 0 <= i < |trace| ==> Compiled(trace[i].rule)
    ensures ResponseAt(true, trace, n) ==
              if !Stored(trace[n]) then ServerError
              else if Admitted(trace[..n + 1]) then Accepted else Deferred
  {
    var before, all := trace[..n], trace[..n + 1];
    if Stored(trace[n]) {
      assert all == before + [trace[n]];
      TableSummary(before, trace[n].key);
      var f := OwnStep(TableAfter(true, before), before, trace[n]);
      if g :| AdmitsFrom(all, g) {
        StartOrder(all, trace[n].key, f, g);
        StartOrder(all, trace[n].key, g, f);
      }
    }
  }

  // ---- Once accepted ----

  /** No attempt after position `m` ends a window of the key. */
  ghost predicate Unbroken(trace: seq<Attempt>, key: string, m: int) {
    forall l, x :: Ends(trace, key, l, x) ==> x <= m
  }

  lemma {:induction false} WindowGoesOn(trace: seq<Attempt>, key: string, m: nat, f: int)
    requires m < |trace| && StartsAt(trace[..m + 1], key, f) && Unbroken(trace, key, m)
    ensures StartsAt(trace, key, f) && CountFrom(trace, key, f) >= CountFrom(trace[..m + 1], key, f)
  {
    var n := |trace| - 1;
    if m == n {
      assert trace[..m + 1] == trace;
    } else {
      var before := trace[..n];
      assert trace == before + [trace[n]] && before[..m + 1] == trace[..m + 1];
      Kept(before, trace[n], key);
      assert forall l, x :: Ends(before, key, l, x) ==> x < n && Ends(trace, key, l, x);
      WindowGoesOn(before, key, m, f);
      GoesOn(before, trace[n], key, f);
      CountPush(before, trace[n], key, f);
    }
  }

  /**
   * Once a sender was accepted, with any mix of rules and any store failures: its stored retries under the
   * same rule are accepted until an attempt, on any key, ends its window.
   */
  lemma OnceAcceptedMixed(trace: seq<Attempt>, m: nat, n: nat)
    requires Chronological(trace) && forall i :: 0 <= i < |trace| ==> Compiled(trace[i].rule)
    requires m <= n < |trace| && trace[m].key == trace[n].key && trace[m].rule == trace[n].rule
    requires ResponseAt(true, trace, m) == Accepted && Stored(trace[n])
    requires Unbroken(trace[..n + 1], trace[n].key, m)
    ensures ResponseAt(true, trace, n) == Accepted
  {
    MixedClosedForm(trace, m);
    MixedClosedForm(trace, n);
    var before, all := trace[..m + 1], trace[..n + 1];
    var f :| AdmitsFrom(before, f);
    assert all[..m + 1] == before;
    WindowGoesOn(all, trace[n].key, m, f);
    assert AdmitsFrom(all, f);
  }
}
