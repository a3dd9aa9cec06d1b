/** The greylisting engine over its stored states, as a function of one attempt. */
module GreylistModel {
  /** When a sender was first and last seen in the current window, and how often. */
  datatype State = State(firstSeen: int, lastSeen: int, attempts: int)

  type Table = map<string, State>

  /** The timing part of a compiled greylist rule. */
  datatype Rule = Rule(allowAfter: int, minRetryAfter: int, resetAfter: int)

  /** Compilation replaces an allowance or a reset time that is not positive by a default. */
  predicate Compiled(rule: Rule) {
    rule.allowAfter >= 1 && rule.resetAfter > 0
  }

  /** Which store calls of one attempt fail. */
  datatype Faults = Faults(sweep: bool, load: bool, save: bool)

  const NO_FAULTS := Faults(false, false, false)

  /** Let through, answered with the rule's temporary code, or answered with 451 because the store failed. */
  datatype Response = Accepted | Deferred | ServerError

  datatype Attempt = Attempt(key: string, rule: Rule, now: int, faults: Faults)

  /** The store let the attempt read its state and save it; only then it counts. */
  predicate Stored(a: Attempt) {
    !a.faults.load && !a.faults.save
  }

  /** The table without the states last seen at or before the given time. */
  function Sweep(t: Table, before: int): Table {
    map k | k in t && t[k].lastSeen > before :: t[k]
  }

  function Saved(t: Table, a: Attempt, s: State): Table {
    if a.faults.save then t else t[a.key := s]
  }

  /** One attempt; with `sweeps` false, the engine relies on the lazy reset alone. */
  function Respond(sweeps: bool, t0: Table, a: Attempt): (Table, Response) {
    var rule := a.rule;
    var t := if sweeps && rule.resetAfter > 0 && !a.faults.sweep then Sweep(t0, a.now - rule.resetAfter) else t0;
    if a.faults.load then (t, ServerError)
    else if a.key !in t || (rule.resetAfter > 0 && a.now - t[a.key].lastSeen >= rule.resetAfter) then
      (Saved(t, a, State(a.now, a.now, 1)), if a.faults.save then ServerError else Deferred)
    else
      var s := t[a.key].(attempts := t[a.key].attempts + 1, lastSeen := a.now);
      var t1 := Saved(t, a, s);
      if a.faults.save then (t1, ServerError)
      else if s.attempts <= rule.allowAfter then (t1, Deferred)
      else if rule.minRetryAfter > 0 && a.now - s.firstSeen < rule.minRetryAfter then (t1, Deferred)
      else (t1, Accepted)
  }

  /** The table after a whole trace, from an empty one. */
  function TableAfter(sweeps: bool, trace: seq<Attempt>): Table {
    if trace == [] then map[]
    else Respond(sweeps, TableAfter(sweeps, trace[..|trace| - 1]), trace[|trace| - 1]).0
  }

  /** The answer to the n-th attempt of a trace. */
  function ResponseAt(sweeps: bool, trace: seq<Attempt>, n: nat): Response
    requires n < |trace|
  {
    Respond(sweeps, TableAfter(sweeps, trace[..n]), trace[n]).1
  }

  /** The times of the attempts on one key that were stored. */
  function Times(trace: seq<Attempt>, key: string): seq<int> {
    if trace == [] then []
    else
      var a := trace[|trace| - 1];
      Times(trace[..|trace| - 1], key) + (if a.key == key && Stored(a) then [a.now] else [])
  }

  // ---- What the engine should answer, said without its tables ----

  /** From `start` to the end all gaps are shorter than `reset`, and the gap before `start` is not. */
  ghost predicate IsWindow(ts: seq<int>, reset: int, start: nat) {
    && start < |ts|
    && (forall k :: start < k < |ts| ==> ts[k] - ts[k - 1] < reset)
    && (start > 0 ==> ts[start] - ts[start - 1] >= reset)
  }

  /** More than `allowAfter` attempts in the current window, and the last late enough after its first. */
  ghost predicate Admits(ts: seq<int>, rule: Rule) {
    exists start: nat :: IsWindow(ts, rule.resetAfter, start)
      && |ts| - start > rule.allowAfter && ts[|ts| - 1] - ts[start] >= rule.minRetryAfter
  }

  ghost predicate Chronological(trace: seq<Attempt>) {
    forall i, j :: 0 <= i < j < |trace| ==> trace[i].now <= trace[j].now
  }

  ghost predicate SharedReset(trace: seq<Attempt>, reset: int) {
    forall i :: 0 <= i < |trace| ==> trace[i].rule.resetAfter == reset
  }
}
