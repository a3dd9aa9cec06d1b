/** Properties of whole runs of the outbound queue: enqueues and worker passes in any order. */
module OutboundRuns {
  import opened Text
  import opened Address
  import opened KeyOrder
  import opened Durations
  import opened OutboundModel
  import opened OutboundProofs
  import opened Sets

  // ---- Conservation under any failures ----

  ghost predicate DeliveredSince(log: seq<Event>, from: nat, id: int) {
    exists k :: from <= k < |log| && log[k].id == id && log[k].result.Delivered?
  }

  /** The message is still queued with its mail, or a send of it was delivered after position `from`. */
  ghost predicate Conserved(was: Row, r: System, from: nat, id: int) {
    if id in r.q then SameMail(r.q[id], was) else DeliveredSince(r.log, from, id)
  }

  lemma StepKeeps(rd: Conventions, s: System, op: Op, id: int)
    requires id in s.q && id < s.nextId
    ensures Conserved(s.q[id], Step(rd, s, op), |s.log|, id)
    ensures |s.log| <= |Step(rd, s, op).log| && s.nextId <= Step(rd, s, op).nextId
  {
    if op.Tick? {
      var items := ListDue(s.q, op.now, BATCH_LIMIT);
      PassKeeps(rd, s.q, items, op.answers, op.now, |items|, id);
      var p := RunPass(rd, s.q, op.now, op.listOk, op.answers);
      if id !in p.q {
        var k :| 0 <= k < |p.log| && p.log[k].id == id && p.log[k].result.Delivered?;
        assert (s.log + p.log)[|s.log| + k] == p.log[k];
      }
    }
  }

  lemma {:induction false} LogGrows(rd: Conventions, s: System, ops: seq<Op>)
    ensures s.log <= Run(rd, s, ops).log
    decreases |ops|
  {
    if ops != [] {
      LogGrows(rd, Step(rd, s, ops[0]), ops[1..]);
    }
  }

  lemma TickUnqueued(rd: Conventions, s: System, op: Op, id: int)
    requires op.Tick? && id !in s.q
    ensures id !in Step(rd, s, op).q && Trace(Step(rd, s, op).log, id) == Trace(s.log, id)
  {
    var items := ListDue(s.q, op.now, BATCH_LIMIT);
    PassKeeps(rd, s.q, items, op.answers, op.now, |items|, id);
    ListingIsSound(s.q, op.now, BATCH_LIMIT);
    UnlistedUnsent(rd, s.q, items, op.answers, op.now, |items|, id);
    TraceConcat(s.log, RunPass(rd, s.q, op.now, op.listOk, op.answers).log, id);
  }

  /** Row ids are never reused. */
  lemma {:induction false} GoneStaysGone(rd: Conventions, s: System, ops: seq<Op>, id: int)
    requires id !in s.q && id < s.nextId
    ensures id !in Run(rd, s, ops).q
    ensures Trace(Run(rd, s, ops).log, id) == Trace(s.log, id)
    decreases |ops|
  {
    if ops != [] {
      var op := ops[0];
      if op.Tick? {
        TickUnqueued(rd, s, op, id);
      }
      GoneStaysGone(rd, Step(rd, s, op), ops[1..], id);
    }
  }

  /** Whatever fails: a queued message keeps its mail, and leaves only after a delivered send. */
  lemma {:induction false} Conservation(rd: Conventions, s: System, ops: seq<Op>, id: int)
    requires id in s.q && id < s.nextId
    ensures Conserved(s.q[id], Run(rd, s, ops), |s.log|, id)
    decreases |ops|
  {
    if ops != [] {
      var s1 := Step(rd, s, ops[0]);
      StepKeeps(rd, s, ops[0], id);
      if id in s1.q {
        Conservation(rd, s1, ops[1..], id);
      } else {
        LogGrows(rd, s1, ops[1..]);
        GoneStaysGone(rd, s1, ops[1..], id);
        var k :| |s.log| <= k < |s1.log| && s1.log[k].id == id && s1.log[k].result.Delivered?;
        assert Run(rd, s1, ops[1..]).log[k] == s1.log[k];
      }
    }
  }

  // ---- The life of one message, whatever fails ----

  /** How many sends failed and were counted in the table. */
  function Failures(t: seq<Event>): nat {
    if t == [] then 0 else Failures(t[..|t| - 1]) + (if Counted(t[|t| - 1]) then 1 else 0)
  }

  /** At `time` the retry delay of every counted failure is over. */
  ghost predicate Waited(rd: Conventions, t: seq<Event>, time: int) {
    t != [] ==>
      var last := t[|t| - 1];
      Waited(rd, t[..|t| - 1], time) && (Counted(last) ==> time >= last.pass + rd.delay(Failures(t)))
  }

  /**
   * The pass of every send, which begins no later than the send, waits out the delays of all counted failures before
   * it.
   */
  ghost predicate Spaced(rd: Conventions, t: seq<Event>) {
    t != [] ==>
      var last := t[|t| - 1];
      Spaced(rd, t[..|t| - 1]) && Waited(rd, t[..|t| - 1], last.pass) && last.at >= last.pass
  }

  /**
   * The sends of one message that was enqueued, and its row if it is queued. It is gone exactly if its
   * last send was delivered and deleted, which no earlier send was. A queued message has counted
   * exactly the failed sends that were saved, and waits out their delays, as every send did.
   */
  ghost predicate Life(rd: Conventions, t: seq<Event>, row: Option<Row>) {
    && Spaced(rd, t)
    && (forall k :: 0 <= k < |t| - 1 ==> !Final(t[k]))
    && (row.None? <==> t != [] && Final(t[|t| - 1]))
    && (row.Some? ==> row.value.attempts == Failures(t) && Waited(rd, t, row.value.next))
  }

  function RowOf(q: Queue, id: int): Option<Row> {
    if id in q then Some(q[id]) else None
  }

  /** Every message that was enqueued lives as it should; an id not yet used is not queued and was never sent. */
  ghost predicate Lifecycle(rd: Conventions, s: System, id: int) {
    var t := Trace(s.log, id);
    if 1 <= id < s.nextId then Life(rd, t, RowOf(s.q, id)) else id !in s.q && t == []
  }

  /** What one pass did to a queued row, in terms of the whole table. */
  lemma TickRow(rd: Conventions, s: System, op: Op, id: int)
    requires op.Tick? && op.listOk && id in s.q
    ensures var p := RunPass(rd, s.q, op.now, op.listOk, op.answers);
            var items := ListDue(s.q, op.now, BATCH_LIMIT);
            && RowState(rd, s.q, p, op.now, id, InItems(items, id, |items|))
            && (InItems(items, id, |items|) ==> s.q[id].next <= op.now)
            && Trace(Step(rd, s, op).log, id) == Trace(s.log, id) + Trace(p.log, id)
  {
    var items := ListDue(s.q, op.now, BATCH_LIMIT);
    ListingIsSound(s.q, op.now, BATCH_LIMIT);
    PassRow(rd, s.q, items, op.answers, op.now, |items|, id);
    TraceConcat(s.log, RunPass(rd, s.q, op.now, op.listOk, op.answers).log, id);
  }

  lemma {:induction false} WaitedLater(rd: Conventions, t: seq<Event>, time: int, later: int)
    requires Waited(rd, t, time) && time <= later
    ensures Waited(rd, t, later)
  {
    if t != [] {
      WaitedLater(rd, t[..|t| - 1], time, later);
    }
  }

  /** One more send of a queued message, and what the table holds of it afterwards. */
  lemma LifePush(rd: Conventions, t: seq<Event>, was: Row, e: Event, row: Option<Row>)
    requires Life(rd, t, Some(was)) && was.next <= e.pass <= e.at
    requires row.None? <==> Final(e)
    requires row.Some? ==> row.value.next >= was.next
    requires row.Some? ==> row.value.attempts == was.attempts + (if Counted(e) then 1 else 0)
    requires row.Some? && Counted(e) ==> row.value.next >= e.pass + rd.delay(row.value.attempts)
    ensures Life(rd, t + [e], row)
  {
    assert (t + [e])[..|t|] == t;
    WaitedLater(rd, t, was.next, e.pass);
    if row.Some? {
      WaitedLater(rd, t, was.next, row.value.next);
    }
  }

  /** A pass adds one send to the life of a queued message, or none. */
  lemma LifecycleTick(rd: Conventions, q: Queue, p: Pass, t: seq<Event>, now: int, id: int, seen: bool)
    requires id in q && Life(rd, t, Some(q[id]))
    requires RowState(rd, q, p, now, id, seen) && (seen ==> q[id].next <= now)
    ensures Life(rd, t + Trace(p.log, id), RowOf(p.q, id))
  {
    var sends := Trace(p.log, id);
    if sends == [] {
      assert t + sends == t;
      WaitedLater(rd, t, q[id].next, p.q[id].next);
    } else {
      assert sends == [sends[0]];
      LifePush(rd, t, q[id], sends[0], RowOf(p.q, id));
    }
  }

  lemma StepLifecycle(rd: Conventions, s: System, op: Op, id: int)
    requires s.nextId >= 1 && Lifecycle(rd, s, id)
    ensures Lifecycle(rd, Step(rd, s, op), id)
  {
    var r := Step(rd, s, op);
    if op.Tick? {
      if id !in s.q {
        TickUnqueued(rd, s, op, id);
      } else if op.listOk {
        TickRow(rd, s, op, id);
        var items := ListDue(s.q, op.now, BATCH_LIMIT);
        LifecycleTick(rd, s.q, RunPass(rd, s.q, op.now, op.listOk, op.answers), Trace(s.log, id), op.now, id,
                      InItems(items, id, |items|));
      } else {
        assert r.log == s.log;
      }
    }
  }

  lemma {:induction false} RunLifecycle(rd: Conventions, s: System, ops: seq<Op>, id: int)
    requires s.nextId >= 1 && Lifecycle(rd, s, id)
    ensures Lifecycle(rd, Run(rd, s, ops), id)
    decreases |ops|
  {
    if ops != [] {
      StepLifecycle(rd, s, ops[0], id);
      RunLifecycle(rd, Step(rd, s, ops[0]), ops[1..], id);
    }
  }

  /** Every run from the empty queue, whatever fails in it, accounts for the life of every message. */
  lemma EveryMessageLives(rd: Conventions, ops: seq<Op>, id: int)
    ensures Lifecycle(rd, Run(rd, EMPTY_QUEUE, ops), id)
  {
    RunLifecycle(rd, EMPTY_QUEUE, ops, id);
  }

  function Deliveries(t: seq<Event>): nat {
    if t == [] then 0 else Deliveries(t[..|t| - 1]) + (if t[|t| - 1].result.Delivered? then 1 else 0)
  }

  lemma {:induction false} NoDeliveries(t: seq<Event>)
    requires forall k :: 0 <= k < |t| ==> !t[k].result.Delivered?
    ensures Deliveries(t) == 0
  {
    if t != [] {
      NoDeliveries(t[..|t| - 1]);
    }
  }

  ghost predicate AllSaved(t: seq<Event>) {
    forall k :: 0 <= k < |t| ==> t[k].saved
  }

  lemma {:induction false} FailuresCount(t: seq<Event>)
    requires AllSaved(t) && forall k :: 0 <= k < |t| ==> !t[k].result.Delivered?
    ensures Failures(t) == |t|
  {
    if t != [] {
      FailuresCount(t[..|t| - 1]);
    }
  }

  /**
   * Attempt accounting: if the table was updated after each of a message's sends, the message is
   * queued with every send failed and counted, or gone with its last send, and no other, delivered.
   */
  lemma AttemptsAreFailures(rd: Conventions, ops: seq<Op>, id: int)
    requires var s := Run(rd, EMPTY_QUEUE, ops); 1 <= id < s.nextId && AllSaved(Trace(s.log, id))
    ensures var s := Run(rd, EMPTY_QUEUE, ops);
            var t := Trace(s.log, id);
            if id in s.q then s.q[id].attempts == |t| && Deliveries(t) == 0
            else t != [] && t[|t| - 1].result.Delivered? && Deliveries(t) == 1
  {
    EveryMessageLives(rd, ops, id);
    var s := Run(rd, EMPTY_QUEUE, ops);
    var t := Trace(s.log, id);
    if id in s.q {
      FailuresCount(t);
      NoDeliveries(t);
    } else {
      NoDeliveries(t[..|t| - 1]);
    }
  }

  // ---- Backoff over runs ----

  /** The sum of the first `n` retry delays. */
  function DelaySum(n: nat): int {
    if n == 0 then 0 else DelaySum(n - 1) + RetryDelay(n)
  }

  lemma {:induction false} DelaySumClosed(n: nat)
    requires n >= 6
    ensures DelaySum(n) == (63 + 60 * (n - 6)) * MINUTE
  {
    if n == 6 {
      assert Pow2(1) == 2 && Pow2(2) == 4 && Pow2(3) == 8;
      assert Pow2(4) == 16 && Pow2(5) == 32;
      assert RetryDelay(6) == 32 * MINUTE && RetryDelay(5) == 16 * MINUTE && RetryDelay(4) == 8 * MINUTE;
      assert RetryDelay(3) == 4 * MINUTE && RetryDelay(2) == 2 * MINUTE && RetryDelay(1) == MINUTE;
      assert DelaySum(3) == 7 * MINUTE;
    } else {
      DelaySumClosed(n - 1);
      Pow2Grows(6, n - 1);
      assert Pow2(3) == 8 && Pow2(6) == 64;
    }
  }

  ghost predicate BacksOff(rd: Conventions) {
    forall n :: rd.delay(n) == RetryDelay(n)
  }

  lemma {:induction false} SpacedPrefix(rd: Conventions, t: seq<Event>, n: nat)
    requires Spaced(rd, t) && n <= |t|
    ensures Spaced(rd, t[..n])
  {
    if n < |t| {
      SpacedPrefix(rd, t[..|t| - 1], n);
      assert t[..|t| - 1][..n] == t[..n];
    } else {
      assert t[..n] == t;
    }
  }

  lemma {:induction false} SpacedSum(rd: Conventions, t: seq<Event>)
    requires BacksOff(rd) && Spaced(rd, t) && t != []
    requires forall k :: 0 <= k < |t| - 1 ==> Counted(t[k])
    ensures t[|t| - 1].pass - t[0].pass >= DelaySum(|t| - 1)
  {
    var n := |t| - 1;
    if n > 0 {
      SpacedSum(rd, t[..n]);
      FailuresCount(t[..n]);
      assert rd.delay(n) == RetryDelay(n);
    }
  }

  lemma LifeOf(rd: Conventions, s: System, id: int)
    requires Lifecycle(rd, s, id)
    ensures Spaced(rd, Trace(s.log, id))
    ensures forall k :: 0 <= k < |Trace(s.log, id)| - 1 ==> !Final(Trace(s.log, id)[k])
  {
  }

  lemma BackoffOfTrace(rd: Conventions, t: seq<Event>, k: nat)
    requires BacksOff(rd) && 7 <= k <= |t| && Spaced(rd, t) && AllSaved(t[..k - 1])
    requires forall i :: 0 <= i < |t| - 1 ==> !Final(t[i])
    ensures t[k - 1].at - t[0].pass >= (63 + 60 * (k - 7)) * MINUTE
  {
    assert forall i :: 0 <= i < k - 1 ==> t[..k - 1][i] == t[i];
    SpacedPrefix(rd, t, k);
    SpacedSum(rd, t[..k]);
    DelaySumClosed(k - 1);
  }

  /**
   * In every run, the k-th send of a message (k >= 7) comes at least 63 + 60 (k - 7) minutes after the pass
   * of its first began, if the sends before it were recorded; whatever else fails.
   */
  lemma BackoffOverRuns(rd: Conventions, ops: seq<Op>, id: int, k: nat)
    requires BacksOff(rd)
    requires 7 <= k <= |Trace(Run(rd, EMPTY_QUEUE, ops).log, id)|
    requires AllSaved(Trace(Run(rd, EMPTY_QUEUE, ops).log, id)[..k - 1])
    ensures var t := Trace(Run(rd, EMPTY_QUEUE, ops).log, id);
            t[k - 1].at - t[0].pass >= (63 + 60 * (k - 7)) * MINUTE
  {
    EveryMessageLives(rd, ops, id);
    var t := Trace(Run(rd, EMPTY_QUEUE, ops).log, id);
    LifeOf(rd, Run(rd, EMPTY_QUEUE, ops), id);
    BackoffOfTrace(rd, t, k);
  }

  // ---- How late a send begins in its pass ----

  /** No send takes longer than `limit`. */
  ghost predicate Prompt(answers: nat -> Answers, limit: nat) {
    forall i: nat :: answers(i).took <= limit
  }

  /** A send waits for at most as many others as a batch has besides it. */
  ghost predicate Lag(log: seq<Event>, limit: nat) {
    forall e :: e in log ==> e.at <= e.pass + (BATCH_LIMIT - 1) * limit
  }

  lemma TimesGrows(m: int, n: int, limit: nat)
    requires m <= n
    ensures m * limit <= n * limit
    ensures n * limit == (n - 1) * limit + limit
  {
  }

  lemma LagStep(rd: Conventions, p: Pass, item: Item, a: Answers, now: int, limit: nat, lag: int)
    requires Lag(p.log, limit) && p.clock <= now + lag && lag <= (BATCH_LIMIT - 1) * limit && a.took <= limit
    ensures var r := Handle(rd, p, item, a, now);
            Lag(r.log, limit) && r.clock <= now + lag + limit
  {
  }

  lemma {:induction false} PassLag(rd: Conventions, q: Queue, items: seq<Item>, answers: nat -> Answers, now: int,
                                   n: nat, limit: nat)
    requires n <= |items| <= BATCH_LIMIT && Prompt(answers, limit)
    ensures var p := Handled(rd, q, items, answers, now, n);
            p.clock <= now + n * limit && Lag(p.log, limit)
  {
    if n > 0 {
      PassLag(rd, q, items, answers, now, n - 1, limit);
      TimesGrows(n - 1, BATCH_LIMIT - 1, limit);
      TimesGrows(n - 1, n, limit);
      var p := Handled(rd, q, items, answers, now, n - 1);
      LagStep(rd, p, items[n - 1], answers(n - 1), now, limit, (n - 1) * limit);
    }
  }

  lemma {:induction false} RunLag(rd: Conventions, s: System, ops: seq<Op>, limit: nat)
    requires Lag(s.log, limit) && forall i :: 0 <= i < |ops| && ops[i].Tick? ==> Prompt(ops[i].answers, limit)
    ensures Lag(Run(rd, s, ops).log, limit)
    decreases |ops|
  {
    if ops != [] {
      var op := ops[0];
      if op.Tick? {
        var items := ListDue(s.q, op.now, BATCH_LIMIT);
        ListingIsSound(s.q, op.now, BATCH_LIMIT);
        PassLag(rd, s.q, items, op.answers, op.now, |items|, limit);
      }
      RunLag(rd, Step(rd, s, op), ops[1..], limit);
    }
  }

  lemma {:induction false} TraceWithin(log: seq<Event>, id: int, k: nat)
    requires k < |Trace(log, id)|
    ensures Trace(log, id)[k] in log
  {
    var n := |log| - 1;
    if k < |Trace(log[..n], id)| {
      TraceWithin(log[..n], id, k);
    }
  }

  /**
   * From send to send: if none takes longer than `limit`, the k-th send begins at least 63 + 60 (k - 7)
   * minutes after the first began, less the 24 sends that the first may have waited for in its batch.
   */
  lemma BackoffBetweenSends(rd: Conventions, ops: seq<Op>, id: int, k: nat, limit: nat)
    requires BacksOff(rd) && forall i :: 0 <= i < |ops| && ops[i].Tick? ==> Prompt(ops[i].answers, limit)
    requires 7 <= k <= |Trace(Run(rd, EMPTY_QUEUE, ops).log, id)|
    requires AllSaved(Trace(Run(rd, EMPTY_QUEUE, ops).log, id)[..k - 1])
    ensures var t := Trace(Run(rd, EMPTY_QUEUE, ops).log, id);
            t[k - 1].at - t[0].at >= (63 + 60 * (k - 7)) * MINUTE - 24 * limit
  {
    BackoffOverRuns(rd, ops, id, k);
    RunLag(rd, EMPTY_QUEUE, ops, limit);
    TraceWithin(Run(rd, EMPTY_QUEUE, ops).log, id, 0);
  }

  // ---- The domain throttle over runs ----

  /** Whatever fails, no step moves a queued message's next attempt to an earlier time. */
  lemma NeverEarlier(rd: Conventions, s: System, op: Op, id: int)
    requires id in s.q && id < s.nextId
    ensures var r := Step(rd, s, op);
            id in r.q ==> SameMail(r.q[id], s.q[id]) && r.q[id].next >= s.q[id].next
  {
    if op.Tick? && op.listOk {
      TickRow(rd, s, op, id);
    }
  }

  /** From position `from` on, every send of the trace happens at `time` or later. */
  ghost predicate NotBefore(t: seq<Event>, from: nat, time: int) {
    forall k :: from <= k < |t| ==> t[k].at >= time
  }

  lemma StepNotBefore(rd: Conventions, s: System, op: Op, id: int, time: int)
    requires id in s.q && id < s.nextId && s.q[id].next >= time
    ensures NotBefore(Trace(Step(rd, s, op).log, id), |Trace(s.log, id)|, time)
  {
    if op.Tick? && op.listOk {
      TickRow(rd, s, op, id);
    } else {
      assert Step(rd, s, op).log == s.log;
    }
  }

  lemma TraceGrows(rd: Conventions, s: System, ops: seq<Op>, id: int)
    ensures Trace(s.log, id) <= Trace(Run(rd, s, ops).log, id)
  {
    LogGrows(rd, s, ops);
    var r := Run(rd, s, ops).log;
    TraceConcat(s.log, r[|s.log|..], id);
    assert r == s.log + r[|s.log|..];
  }

  /** Whatever fails, a message whose next attempt is at `time` or later is never sent before `time`. */
  lemma {:induction false} NotSentBefore(rd: Conventions, s: System, ops: seq<Op>, id: int, time: int)
    requires id in s.q && id < s.nextId && s.q[id].next >= time
    ensures NotBefore(Trace(Run(rd, s, ops).log, id), |Trace(s.log, id)|, time)
    decreases |ops|
  {
    if ops != [] {
      var s1 := Step(rd, s, ops[0]);
      NeverEarlier(rd, s, ops[0], id);
      StepNotBefore(rd, s, ops[0], id, time);
      if id in s1.q {
        NotSentBefore(rd, s1, ops[1..], id, time);
        TraceGrows(rd, s1, ops[1..], id);
      } else {
        GoneStaysGone(rd, s1, ops[1..], id);
      }
    }
  }

  lemma ThrottleRead(rd: Conventions, q: Queue, p: Pass, now: int, e: Event, id: int)
    requires FailuresDefer(rd, q, p, now) && RowDeferred(rd, p, id) && Kept(q, p, id)
    requires e in p.log && e.result.Temporary? && rd.worker(e.recipient).Some? && e.saved && e.deferred
    requires id in p.q && rd.sql(q[id].recipient) == rd.worker(e.recipient)
    ensures e.id in q && p.q[id].next >= now + rd.delay(q[e.id].attempts + 1)
  {
    assert StoredFailure(rd, p.log, rd.worker(e.recipient).value);
  }

  lemma ThrottleStored(rd: Conventions, q: Queue, now: int, answers: nat -> Answers, p: Pass, e: Event, id: int)
    requires p == RunPass(rd, q, now, true, answers)
    requires e in p.log && e.result.Temporary? && rd.worker(e.recipient).Some? && e.saved && e.deferred
    requires id in q && Aligned(rd, q[id].recipient) && rd.worker(q[id].recipient) == rd.worker(e.recipient)
        && id in p.q
    ensures e.id in q && p.q[id].next >= now + rd.delay(q[e.id].attempts + 1)
  {
    var items := ListDue(q, now, BATCH_LIMIT);
    ListingIsSound(q, now, BATCH_LIMIT);
    ThrottleHolds(rd, q, items, answers, now, |items|);
    PassKeeps(rd, q, items, answers, now, |items|, id);
    PassDeferred(rd, q, items, answers, now, |items|, id);
    ThrottleRead(rd, q, p, now, e, id);
  }

  /**
   * After a send to a domain fails temporarily, and its reschedule and its deferral are stored, every
   * message to that domain still queued after the pass stays unsent until the failed message's retry
   * time, whatever else fails in the pass and whatever is enqueued or fails afterwards.
   */
  lemma ThrottleOverRuns(rd: Conventions, s: System, tick: Op, ops: seq<Op>, e: Event, id: int)
    requires tick.Tick? && tick.listOk
    requires e in RunPass(rd, s.q, tick.now, true, tick.answers).log
    requires e.result.Temporary? && rd.worker(e.recipient).Some? && e.saved && e.deferred
    requires id in s.q && id < s.nextId && Aligned(rd, s.q[id].recipient)
    requires rd.worker(s.q[id].recipient) == rd.worker(e.recipient)
    requires id in Step(rd, s, tick).q
    ensures e.id in s.q
    ensures var s1 := Step(rd, s, tick);
            var retryAt := tick.now + rd.delay(s.q[e.id].attempts + 1);
            && s1.q[id].next >= retryAt
            && NotBefore(Trace(Run(rd, s1, ops).log, id), |Trace(s1.log, id)|, retryAt)
  {
    ThrottleStored(rd, s.q, tick.now, tick.answers, RunPass(rd, s.q, tick.now, true, tick.answers), e, id);
    NotSentBefore(rd, Step(rd, s, tick), ops, id, tick.now + rd.delay(s.q[e.id].attempts + 1));
  }

  // ---- No message starves ----

  /** The queued messages that are listed before the key `k`. */
  function Ahead(q: Queue, k: Key): set<int> {
    set id | id in q && Before(Key(q[id].next, id), k)
  }

  function Ticks(ops: seq<Op>): nat {
    if ops == [] then 0 else (if ops[0].Tick? then 1 else 0) + Ticks(ops[1..])
  }

  /** A send that says that the recipient's domain, in one of its readings, is not reachable now. */
  predicate FailedFor(rd: Conventions, e: Event, recipient: string) {
    var domain := rd.worker(e.recipient);
    e.result.Temporary? && domain.Some? && (domain == rd.worker(recipient) || domain == rd.sql(recipient))
  }

  /** The message was sent, or a domain of its recipient was throttled by a temporary failure. */
  ghost predicate Attended(rd: Conventions, log: seq<Event>, from: nat, id: int, recipient: string) {
    exists k :: from <= k < |log| && (log[k].id == id || FailedFor(rd, log[k], recipient))
  }

  function Ids(items: seq<Item>): set<int> {
    set i | 0 <= i < |items| :: items[i].id
  }

  lemma {:induction false} IdsCount(items: seq<Item>)
    requires Distinct(items)
    ensures |Ids(items)| == |items|
  {
    if items != [] {
      var n := |items| - 1;
      IdsCount(items[..n]);
      assert Ids(items) == Ids(items[..n]) + {items[n].id};
    } else {
      assert Ids(items) == {};
    }
  }

  lemma ListedAhead(q: Queue, now: int, id: int)
    requires id in q && q[id].next <= now
    requires var items := ListDue(q, now, BATCH_LIMIT); !InItems(items, id, |items|)
    ensures var items := ListDue(q, now, BATCH_LIMIT);
            |Ids(items)| == BATCH_LIMIT && Ids(items) <= Ahead(q, Key(q[id].next, id))
  {
    var items := ListDue(q, now, BATCH_LIMIT);
    ListingIsSound(q, now, BATCH_LIMIT);
    ListingIsFair(q, now, BATCH_LIMIT, id);
    IdsCount(items);
    var keys := ItemKeys(items);
    forall i | 0 <= i < |items| ensures items[i].id in Ahead(q, Key(q[id].next, id)) {
      assert keys[i] in keys;
    }
  }

  lemma StillAhead(rd: Conventions, q: Queue, now: int, answers: nat -> Answers, k: Key, x: int)
    requires UpdatesSucceed(answers)
    requires k.at <= now && x in Ahead(RunPass(rd, q, now, true, answers).q, k)
    ensures x in Ahead(q, k) && x !in Ids(ListDue(q, now, BATCH_LIMIT))
  {
    var items := ListDue(q, now, BATCH_LIMIT);
    ListingIsSound(q, now, BATCH_LIMIT);
    PassKeeps(rd, q, items, answers, now, |items|, x);
    PassRow(rd, q, items, answers, now, |items|, x);
    PassMoves(rd, q, items, answers, now, |items|, x);
  }

  /** A due message that a pass leaves alone moves up by a full batch. */
  lemma Shrinks(rd: Conventions, q: Queue, now: int, answers: nat -> Answers, id: int)
    requires UpdatesSucceed(answers)
    requires id in q && q[id].next <= now
    requires var items := ListDue(q, now, BATCH_LIMIT); !InItems(items, id, |items|)
    ensures var k := Key(q[id].next, id);
            |Ahead(RunPass(rd, q, now, true, answers).q, k)| + BATCH_LIMIT <= |Ahead(q, k)|
  {
    var k := Key(q[id].next, id);
    var before := Ahead(q, k);
    var after := Ahead(RunPass(rd, q, now, true, answers).q, k);
    var listed := Ids(ListDue(q, now, BATCH_LIMIT));
    ListedAhead(q, now, id);
    forall x | x in after ensures x in before - listed {
      StillAhead(rd, q, now, answers, k, x);
    }
    SubsetCount(after, before - listed);
    assert before == (before - listed) + listed;
  }

  lemma {:induction false} TraceMember(log: seq<Event>, id: int)
    requires Trace(log, id) != []
    ensures exists i :: 0 <= i < |log| && log[i].id == id
  {
    var n := |log| - 1;
    if log[n].id != id {
      TraceMember(log[..n], id);
      var i :| 0 <= i < n && log[..n][i].id == id;
      assert log[i].id == id;
    }
  }

  lemma SentIsAttended(rd: Conventions, log: seq<Event>, sends: seq<Event>, id: int, recipient: string)
    requires Trace(sends, id) != []
    ensures Attended(rd, log + sends, |log|, id, recipient)
  {
    TraceMember(sends, id);
    var i :| 0 <= i < |sends| && sends[i].id == id;
    assert (log + sends)[|log| + i] == sends[i];
  }

  lemma ThrottledIsAttended(rd: Conventions, log: seq<Event>, p: Pass, id: int, recipient: string)
    requires DeferralsFailed(rd, p) && DomainDeferred(rd, p, recipient)
    ensures Attended(rd, log + p.log, |log|, id, recipient)
  {
    var d := if rd.worker(recipient).Some? && rd.worker(recipient).value in p.deferred then rd.worker(recipient).value
             else rd.sql(recipient).value;
    assert TemporaryTo(rd, p.log, d);
    var i :| 0 <= i < |p.log| && p.log[i].result.Temporary? && rd.worker(p.log[i].recipient) == Some(d);
    assert (log + p.log)[|log| + i] == p.log[i];
  }

  /** One pass over a due message: it is attended to, or it keeps its row and moves up by a full batch. */
  lemma TickProgress(rd: Conventions, s: System, op: Op, id: int)
    requires op.Tick? && op.listOk && UpdatesSucceed(op.answers)
    requires id in s.q && s.q[id].next <= op.now
    ensures var r := Step(rd, s, op);
            var k := Key(s.q[id].next, id);
            || Attended(rd, r.log, |s.log|, id, s.q[id].recipient)
            || (id in r.q && r.q[id] == s.q[id] && |Ahead(r.q, k)| + BATCH_LIMIT <= |Ahead(s.q, k)|)
  {
    var items := ListDue(s.q, op.now, BATCH_LIMIT);
    var p := RunPass(rd, s.q, op.now, true, op.answers);
    TickRow(rd, s, op, id);
    ListingIsSound(s.q, op.now, BATCH_LIMIT);
    if Trace(p.log, id) != [] {
      SentIsAttended(rd, s.log, p.log, id, s.q[id].recipient);
    } else if p.q[id].next != s.q[id].next {
      ThrottleHolds(rd, s.q, items, op.answers, op.now, |items|);
      ThrottledIsAttended(rd, s.log, p, id, s.q[id].recipient);
    } else {
      PassMoves(rd, s.q, items, op.answers, op.now, |items|, id);
      Shrinks(rd, s.q, op.now, op.answers, id);
    }
  }

  lemma AttendedGrows(rd: Conventions, log: seq<Event>, longer: seq<Event>, from: nat, id: int, recipient: string)
    requires Attended(rd, log, from, id, recipient) && log <= longer
    ensures Attended(rd, longer, from, id, recipient)
  {
    var k :| from <= k < |log| && (log[k].id == id || FailedFor(rd, log[k], recipient));
    assert longer[k] == log[k];
  }

  lemma AttendedEarlier(rd: Conventions, log: seq<Event>, from: nat, later: nat, id: int, recipient: string)
    requires Attended(rd, log, later, id, recipient) && from <= later
    ensures Attended(rd, log, from, id, recipient)
  {
  }

  /**
   * A due message with r messages listed before it is sent, or deferred by a throttle of its own
   * domain, within floor(r / 25) + 1 passes, however many reports are enqueued meanwhile.
   */
  lemma {:induction false} NoStarvation(rd: Conventions, s: System, ops: seq<Op>, id: int)
    requires id in s.q && id < s.nextId
    requires forall i :: 0 <= i < |ops| ==>
               var op := ops[i];
               if op.Tick? then op.listOk && UpdatesSucceed(op.answers) && op.now >= s.q[id].next
               else op.at >= s.q[id].next
    requires Ticks(ops) >= |Ahead(s.q, Key(s.q[id].next, id))| / 25 + 1
    ensures Attended(rd, Run(rd, s, ops).log, |s.log|, id, s.q[id].recipient)
    decreases |ops|
  {
    var op := ops[0];
    var s1 := Step(rd, s, op);
    var k := Key(s.q[id].next, id);
    LogGrows(rd, s1, ops[1..]);
    if op.Tick? {
      TickProgress(rd, s, op, id);
      if Attended(rd, s1.log, |s.log|, id, s.q[id].recipient) {
        AttendedGrows(rd, s1.log, Run(rd, s1, ops[1..]).log, |s.log|, id, s.q[id].recipient);
      } else {
        NoStarvation(rd, s1, ops[1..], id);
        AttendedEarlier(rd, Run(rd, s1, ops[1..]).log, |s.log|, |s1.log|, id, s.q[id].recipient);
      }
    } else {
      assert Ahead(s1.q, k) <= Ahead(s.q, k);
      SubsetCount(Ahead(s1.q, k), Ahead(s.q, k));
      NoStarvation(rd, s1, ops[1..], id);
    }
  }

  // ---- Exactly when a message is delivered at most once ----

  lemma {:induction false} DeliveriesConcat(a: seq<Event>, b: seq<Event>)
    ensures Deliveries(a + b) == Deliveries(a) + Deliveries(b)
  {
    if b == [] {
      assert a + b == a;
    } else {
      var n := |b| - 1;
      assert (a + b)[..|a + b| - 1] == a + b[..n];
      DeliveriesConcat(a, b[..n]);
    }
  }

  lemma {:induction false} DeliveredCounts(t: seq<Event>, k: nat)
    requires k < |t| && t[k].result.Delivered?
    ensures Deliveries(t) >= 1
  {
    if k < |t| - 1 {
      DeliveredCounts(t[..|t| - 1], k);
    }
  }

  /** From position `from` on, the deletion after each delivered send succeeded. */
  ghost predicate DeletedFrom(t: seq<Event>, from: nat) {
    forall k :: from <= k < |t| && t[k].result.Delivered? ==> t[k].saved
  }

  /**
   * Whatever else failed: a message whose deliveries were all deleted was delivered at most once, and is gone
   * exactly if it was.
   */
  lemma DeletedOnce(rd: Conventions, s: System, id: int)
    requires Lifecycle(rd, s, id) && DeletedFrom(Trace(s.log, id), 0)
    ensures var t := Trace(s.log, id);
            && Deliveries(t) <= 1
            && (Deliveries(t) == 1 ==> t[|t| - 1].result.Delivered?)
            && (1 <= id < s.nextId ==> (id !in s.q <==> Deliveries(t) == 1))
  {
    var t := Trace(s.log, id);
    if t != [] {
      NoDeliveries(t[..|t| - 1]);
    }
  }

  lemma {:induction false} RunConcat(rd: Conventions, s: System, a: seq<Op>, b: seq<Op>)
    ensures Run(rd, s, a + b) == Run(rd, Run(rd, s, a), b)
    decreases |a|
  {
    if a == [] {
      assert a + b == b;
    } else {
      assert (a + b)[1..] == a[1..] + b;
      RunConcat(rd, Step(rd, s, a[0]), a[1..], b);
    }
  }

  /** A pass at `now` in which every send is delivered and every write succeeds. */
  function DeliverAll(now: int): Op {
    Tick(now, true, (_: nat) => Answers(Delivered, 0, true, true))
  }

  function DeliverAllTimes(now: int, n: nat): seq<Op> {
    seq(n, _ => DeliverAll(now))
  }

  ghost predicate AllFinal(log: seq<Event>, from: nat) {
    forall k :: from <= k < |log| ==> Final(log[k])
  }

  lemma {:induction false} PassDelivers(rd: Conventions, q: Queue, items: seq<Item>, now: int, n: nat)
    requires n <= |items|
    ensures AllFinal(Handled(rd, q, items, DeliverAll(now).answers, now, n).log, 0)
  {
    if n > 0 {
      PassDelivers(rd, q, items, now, n - 1);
    }
  }

  lemma {:induction false} PassesDeliver(rd: Conventions, s: System, now: int, n: nat)
    ensures s.log <= Run(rd, s, DeliverAllTimes(now, n)).log
    ensures AllFinal(Run(rd, s, DeliverAllTimes(now, n)).log, |s.log|)
    ensures Ticks(DeliverAllTimes(now, n)) == n
    decreases n
  {
    if n > 0 {
      var ops := DeliverAllTimes(now, n);
      var s1 := Step(rd, s, DeliverAll(now));
      var items := ListDue(s.q, now, BATCH_LIMIT);
      assert ops[1..] == DeliverAllTimes(now, n - 1);
      PassDelivers(rd, s.q, items, now, |items|);
      PassesDeliver(rd, s1, now, n - 1);
    }
  }

  lemma {:induction false} TraceFinal(log: seq<Event>, id: int)
    requires AllFinal(log, 0)
    ensures AllFinal(Trace(log, id), 0)
  {
    if log != [] {
      TraceFinal(log[..|log| - 1], id);
    }
  }

  lemma {:induction false} MemberTraced(log: seq<Event>, id: int, k: nat)
    requires k < |log| && log[k].id == id
    ensures Trace(log, id) != []
  {
    if k < |log| - 1 {
      MemberTraced(log[..|log| - 1], id, k);
    }
  }

  /**
   * Sends of a continuation that were all delivered and deleted add to the deliveries if one of them is of this
   * message.
   */
  lemma SendsDeliver(before: seq<Event>, sends: seq<Event>, id: int)
    requires AllFinal(sends, 0) && Trace(sends, id) != []
    ensures var t := Trace(before + sends, id);
            DeletedFrom(t, |Trace(before, id)|) && Deliveries(t) > Deliveries(Trace(before, id))
  {
    TraceConcat(before, sends, id);
    TraceFinal(sends, id);
    DeliveriesConcat(Trace(before, id), Trace(sends, id));
    DeliveredCounts(Trace(sends, id), 0);
  }

  lemma SentSince(rd: Conventions, before: seq<Event>, after: seq<Event>, id: int, recipient: string)
    requires before <= after && AllFinal(after, |before|) && Attended(rd, after, |before|, id, recipient)
    ensures DeletedFrom(Trace(after, id), |Trace(before, id)|)
    ensures Deliveries(Trace(after, id)) > Deliveries(Trace(before, id))
  {
    var k :| |before| <= k < |after| && (after[k].id == id || FailedFor(rd, after[k], recipient));
    assert Final(after[k]);
    var sends := after[|before|..];
    assert after == before + sends && sends[k - |before|] == after[k];
    MemberTraced(sends, id, k - |before|);
    SendsDeliver(before, sends, id);
  }

  /** A message that is still queued is delivered again by enough further passes that deliver. */
  lemma DeliveredAgain(rd: Conventions, s: System, id: int) returns (more: seq<Op>)
    requires id in s.q && id < s.nextId
    ensures DeletedFrom(Trace(Run(rd, s, more).log, id), |Trace(s.log, id)|)
    ensures Deliveries(Trace(Run(rd, s, more).log, id)) > Deliveries(Trace(s.log, id))
  {
    var now := s.q[id].next;
    var n := |Ahead(s.q, Key(now, id))| / BATCH_LIMIT + 1;
    more := DeliverAllTimes(now, n);
    PassesDeliver(rd, s, now, n);
    NoStarvation(rd, s, more, id);
    SentSince(rd, s.log, Run(rd, s, more).log, id, s.q[id].recipient);
  }

  /** However the run goes on, as long as deliveries from now on are deleted, the message is delivered at most once. */
  ghost predicate AtMostOnce(rd: Conventions, s: System, id: int) {
    forall more: seq<Op> :: DeletedFrom(Trace(Run(rd, s, more).log, id), |Trace(s.log, id)|) ==>
      Deliveries(Trace(Run(rd, s, more).log, id)) <= 1
  }

  lemma NextIdsUnused(rd: Conventions, ops: seq<Op>, id: int)
    requires id in Run(rd, EMPTY_QUEUE, ops).q
    ensures 1 <= id < Run(rd, EMPTY_QUEUE, ops).nextId
  {
    EveryMessageLives(rd, ops, id);
  }

  /**
   * Delivery is at most once exactly if the deletion after every delivered send succeeds, whatever
   * listings, reschedules and deferrals fail: one failed deletion, and the message comes again.
   */
  lemma DeliveredOnceIff(rd: Conventions, ops: seq<Op>, id: int)
    ensures var s := Run(rd, EMPTY_QUEUE, ops); DeletedFrom(Trace(s.log, id), 0) <==> AtMostOnce(rd, s, id)
  {
    var s := Run(rd, EMPTY_QUEUE, ops);
    var t := Trace(s.log, id);
    EveryMessageLives(rd, ops, id);
    if DeletedFrom(t, 0) {
      forall more: seq<Op> | DeletedFrom(Trace(Run(rd, s, more).log, id), |t|)
        ensures Deliveries(Trace(Run(rd, s, more).log, id)) <= 1
      {
        TraceGrows(rd, s, more, id);
        RunConcat(rd, EMPTY_QUEUE, ops, more);
        EveryMessageLives(rd, ops + more, id);
        DeletedOnce(rd, Run(rd, s, more), id);
      }
    } else {
      var k :| 0 <= k < |t| && t[k].result.Delivered? && !t[k].saved;
      if id in s.q {
        NextIdsUnused(rd, ops, id);
        DeliveredCounts(t, k);
        var more := DeliveredAgain(rd, s, id);
        assert !AtMostOnce(rd, s, id);
      } else {
        var n := |t| - 1;
        DeliveredCounts(t[..n], k);
        assert Run(rd, s, []) == s;
        assert !AtMostOnce(rd, s, id);
      }
    }
  }

  /** The last send, and only that one, was delivered and then deleted. */
  ghost predicate Concluded(t: seq<Event>) {
    exists k :: 0 <= k < |t| && Final(t[k]) && k == |t| - 1 && forall i :: 0 <= i < k ==> !Final(t[i])
  }

  /** Some send was delivered and then deleted. */
  ghost predicate EverDeleted(t: seq<Event>) {
    exists k :: 0 <= k < |t| && Final(t[k])
  }

  /**
   * In every run, whatever fails: a message that was enqueued is gone exactly if a send of it was delivered and
   * deleted, which was its last.
   */
  lemma DeliveredLeaves(rd: Conventions, ops: seq<Op>, id: int)
    requires 1 <= id < Run(rd, EMPTY_QUEUE, ops).nextId
    ensures var s := Run(rd, EMPTY_QUEUE, ops);
            && (id !in s.q <==> EverDeleted(Trace(s.log, id)))
            && (id !in s.q ==> Concluded(Trace(s.log, id)))
  {
    EveryMessageLives(rd, ops, id);
    var t := Trace(Run(rd, EMPTY_QUEUE, ops).log, id);
    assert t != [] ==> Final(t[|t| - 1]) || !Final(t[|t| - 1]);
  }

  // ---- The program's own conventions ----

  lemma {:induction false} UnreachedRow(rd: Conventions, q: Queue, items: seq<Item>, answers: nat -> Answers,
                                        now: int, n: nat, id: int)
    requires n <= |items| && Listed(q, items, now) && id in q && !InItems(items, id, n)
    requires forall other :: rd.worker(other).Some? ==> rd.sql(q[id].recipient) != rd.worker(other)
    ensures var p := Handled(rd, q, items, answers, now, n); id in p.q && p.q[id] == q[id]
  {
    if n > 0 {
      assert !InItems(items, id, n - 1) by {
        assert forall i :: 0 <= i < n - 1 ==> items[i].id != id;
      }
      UnreachedRow(rd, q, items, answers, now, n - 1, id);
      assert items[n - 1].id != id;
    }
  }

  /**
   * A waiting row takes over the throttle of its domain if both readings agree, and stays as it is if SQL reads no
   * domain of the worker's.
   */
  lemma WaitingRow(rd: Conventions, q: Queue, now: int, answers: nat -> Answers, id: int)
    requires id in q
    requires var items := ListDue(q, now, BATCH_LIMIT); !InItems(items, id, |items|)
    ensures var p := RunPass(rd, q, now, true, answers);
            && id in p.q && p.q[id].recipient == q[id].recipient && p.q[id].next >= q[id].next
            && (Aligned(rd, q[id].recipient) ==> RowDeferred(rd, p, id))
            && ((forall other :: rd.worker(other).Some? ==> rd.sql(q[id].recipient) != rd.worker(other)) ==>
                  p.q[id] == q[id])
  {
    var items := ListDue(q, now, BATCH_LIMIT);
    ListingIsSound(q, now, BATCH_LIMIT);
    PassRow(rd, q, items, answers, now, |items|, id);
    if Aligned(rd, q[id].recipient) {
      PassDeferred(rd, q, items, answers, now, |items|, id);
    }
    if forall other :: rd.worker(other).Some? ==> rd.sql(q[id].recipient) != rd.worker(other) {
      UnreachedRow(rd, q, items, answers, now, |items|, id);
    }
  }

  lemma StoredIsDeferred(rd: Conventions, q: Queue, now: int, answers: nat -> Answers, domain: string)
    requires StoredFailure(rd, RunPass(rd, q, now, true, answers).log, domain)
    ensures domain in RunPass(rd, q, now, true, answers).deferred
  {
    var items := ListDue(q, now, BATCH_LIMIT);
    ListingIsSound(q, now, BATCH_LIMIT);
    ThrottleHolds(rd, q, items, answers, now, |items|);
  }

  lemma ReadAlike(recipient: string)
    requires CONVENTIONS.worker(recipient).Some?
    ensures if PlainAddress(recipient) then Aligned(CONVENTIONS, recipient)
            else forall other :: CONVENTIONS.worker(other).Some? ==>
                CONVENTIONS.sql(recipient) != CONVENTIONS.worker(other)
  {
    DomainsAgree(recipient);
    if !PlainAddress(recipient) {
      forall other | CONVENTIONS.worker(other).Some? ensures CONVENTIONS.sql(recipient) != CONVENTIONS.worker(other) {
        OddDomainUnread(recipient, other);
      }
    }
  }

  /** The program's delays back off, and its two readings agree on the addresses that are plain or have no domain. */
  lemma OwnConventions(recipient: string)
    ensures BacksOff(CONVENTIONS)
    ensures Aligned(CONVENTIONS, recipient) <==> PlainAddress(recipient) || NoDomain(recipient)
  {
    DomainsAgree(recipient);
  }

  /** The message was sent, or a send to the domain that the worker reads from its recipient failed temporarily. */
  ghost predicate Served(rd: Conventions, log: seq<Event>, from: nat, id: int, recipient: string) {
    exists k :: from <= k < |log| &&
      (log[k].id == id || (log[k].result.Temporary? && rd.worker(log[k].recipient) == rd.worker(recipient)))
  }

  lemma AttendedIsServed(rd: Conventions, log: seq<Event>, from: nat, id: int, recipient: string)
    requires rd.worker(recipient).Some? && Attended(rd, log, from, id, recipient)
    requires Aligned(rd, recipient) || forall other :: rd.worker(other).Some? ==> rd.sql(recipient) != rd.worker(other)
    ensures Served(rd, log, from, id, recipient)
  {
  }

  /**
   * The program sends a due message that has a domain, or a send to that domain fails, within floor(r / 25) + 1
   * passes.
   */
  lemma NoStarvationOwnDomain(s: System, ops: seq<Op>, id: int)
    requires id in s.q && id < s.nextId && CONVENTIONS.worker(s.q[id].recipient).Some?
    requires forall i :: 0 <= i < |ops| ==>
               var op := ops[i];
               if op.Tick? then op.listOk && UpdatesSucceed(op.answers) && op.now >= s.q[id].next
               else op.at >= s.q[id].next
    requires Ticks(ops) >= |Ahead(s.q, Key(s.q[id].next, id))| / 25 + 1
    ensures Served(CONVENTIONS, Run(CONVENTIONS, s, ops).log, |s.log|, id, s.q[id].recipient)
  {
    NoStarvation(CONVENTIONS, s, ops, id);
    ReadAlike(s.q[id].recipient);
    AttendedIsServed(CONVENTIONS, Run(CONVENTIONS, s, ops).log, |s.log|, id, s.q[id].recipient);
  }

  /**
   * A throttle whose updates were stored has reached a waiting message of its domain exactly when the
   * recipient is a plain address, or the message waits that long anyway, whatever else failed. The store accepts any
   * recipient; reports only go to plain ones.
   */
  lemma ThrottleReaches(q: Queue, now: int, answers: nat -> Answers, id: int)
    requires id in q && CONVENTIONS.worker(q[id].recipient).Some?
    requires var items := ListDue(q, now, BATCH_LIMIT); !InItems(items, id, |items|)
    requires StoredFailure(CONVENTIONS, RunPass(CONVENTIONS, q, now, true, answers).log,
                           CONVENTIONS.worker(q[id].recipient).value)
    ensures var p := RunPass(CONVENTIONS, q, now, true, answers);
            var domain := CONVENTIONS.worker(q[id].recipient).value;
            && domain in p.deferred && id in p.q
            && var retryAt := p.deferred[domain];
               (p.q[id].next >= retryAt <==> PlainAddress(q[id].recipient) || q[id].next >= retryAt)
  {
    StoredIsDeferred(CONVENTIONS, q, now, answers, CONVENTIONS.worker(q[id].recipient).value);
    WaitingRow(CONVENTIONS, q, now, answers, id);
    ReadAlike(q[id].recipient);
  }

  // ---- A failed deletion ----

  /** A pass at time 0 in which every send succeeds and no deletion does. */
  function Undeleted(): Op {
    Tick(0, true, (_: nat) => Answers(Delivered, 0, false, true))
  }

  lemma UndeletedPass(rd: Conventions, row: Row)
    requires row.next <= 0
    ensures RunPass(rd, map[1 := row], 0, true, Undeleted().answers) ==
              Pass(map[1 := row], map[], [Sent(1, 0, 0, row.recipient, Delivered, false, true)], 0)
  {
    var q: Queue := map[1 := row];
    var k := Key(row.next, 1);
    assert 1 in q && q[1] == row;
    assert forall x :: x in DueKeys(q, 0) <==> x == k;
    assert DueKeys(q, 0) == {k};
    var keys := Ascending(DueKeys(q, 0));
    assert keys[0] in keys;
    var items := ListDue(q, 0, BATCH_LIMIT);
    assert items == [Item(1, row)];
    assert Handled(rd, q, items, Undeleted().answers, 0, 0) == Pass(q, map[], [], 0);
  }

  lemma UndeletedStep(rd: Conventions, row: Row, log: seq<Event>)
    requires row.next <= 0
    ensures Step(rd, System(map[1 := row], 2, log), Undeleted()) ==
              System(map[1 := row], 2, log + [Sent(1, 0, 0, row.recipient, Delivered, false, true)])
  {
    UndeletedPass(rd, row);
  }

  /** The only report of a run is delivered twice when its deletions fail. */
  lemma FailedDeletionDeliversTwice(rd: Conventions, envelopeFrom: string, recipient: string, raw: string)
    ensures var e := Sent(1, 0, 0, recipient, Delivered, false, true);
            Run(rd, EMPTY_QUEUE, [Enqueue(0, envelopeFrom, recipient, raw, true), Undeleted(), Undeleted()])
              == System(map[1 := Row(envelopeFrom, recipient, raw, 0, 0)], 2, [e, e])
  {
    var e := Sent(1, 0, 0, recipient, Delivered, false, true);
    var row := Row(envelopeFrom, recipient, raw, 0, 0);
    var ops := [Enqueue(0, envelopeFrom, recipient, raw, true), Undeleted(), Undeleted()];
    var s1 := Step(rd, EMPTY_QUEUE, ops[0]);
    assert s1 == System(map[1 := row], 2, []);
    UndeletedStep(rd, row, []);
    UndeletedStep(rd, row, [] + [e]);
    assert [] + [e] + [e] == [e, e];
    var s2 := Step(rd, s1, Undeleted());
    var s3 := Step(rd, s2, Undeleted());
    assert ops[1..] == [Undeleted(), Undeleted()] && ops[1..][1..] == [Undeleted()] && ops[1..][1..][1..] == [];
    assert Run(rd, s2, [Undeleted()]) == Run(rd, s3, []);
    assert Run(rd, s1, ops[1..]) == Run(rd, s2, [Undeleted()]);
  }
}
