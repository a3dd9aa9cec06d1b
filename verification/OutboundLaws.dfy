/** How far a worker pass moves a message, and which listed messages it sends. */
module OutboundLaws {
  import opened Text
  import opened Address
  import opened KeyOrder
  import opened Durations
  import opened OutboundModel
  import opened OutboundProofs
  import opened OutboundRuns

  // ---- When a message is tried next ----

  /** The retry time of a temporary failure of this pass to a domain of the recipient, in one of its two readings. */
  ghost predicate ThrottleTime(rd: Conventions, q: Queue, log: seq<Event>, now: int, recipient: string, time: int) {
    exists e :: e in log && FailedFor(rd, e, recipient) && e.id in q && time == now + rd.delay(q[e.id].attempts + 1)
  }

  /** The row waits as before, for its own retry, or for that of a failure of its domain. */
  ghost predicate RowTime(rd: Conventions, q: Queue, p: Pass, now: int, id: int)
    requires id in q
  {
    id in p.q ==>
      || p.q[id].next == q[id].next
      || (p.q[id].next == now + rd.delay(q[id].attempts + 1) && exists e :: e in p.log && e.id == id && Counted(e))
      || ThrottleTime(rd, q, p.log, now, q[id].recipient, p.q[id].next)
  }

  /** What handling a message can do to the time of a row. */
  lemma HandledTime(rd: Conventions, p: Pass, item: Item, a: Answers, now: int, id: int)
    requires id in p.q && id in Handle(rd, p, item, a, now).q
    ensures var r := Handle(rd, p, item, a, now);
            var retryAt := now + rd.delay(item.row.attempts + 1);
            var domain := rd.worker(item.row.recipient);
            || r.q[id].next == p.q[id].next
            || (Throttled(rd, p, item.row.recipient, now) && item.id == id && r.q[id].next == p.deferred[domain.value])
            || (&& !Throttled(rd, p, item.row.recipient, now) && !a.send.Delivered? && a.writeOk
                && r.q[id].next == retryAt
                && (item.id == id || (a.send.Temporary? && domain.Some? && rd.sql(p.q[id].recipient) == domain)))
  {
  }

  /** A deferred domain carries the retry time of a failure of this pass. */
  lemma DeferredTime(rd: Conventions, q: Queue, p: Pass, now: int, recipient: string)
    requires FailuresDefer(rd, q, p, now) && DeferralsFailed(rd, p)
    requires rd.worker(recipient).Some? && rd.worker(recipient).value in p.deferred
    ensures ThrottleTime(rd, q, p.log, now, recipient, p.deferred[rd.worker(recipient).value])
  {
    var d := rd.worker(recipient).value;
    assert TemporaryTo(rd, p.log, d);
    var e :| e in p.log && e.result.Temporary? && rd.worker(e.recipient) == Some(d);
    assert FailedFor(rd, e, recipient);
  }

  lemma TimeStays(rd: Conventions, q: Queue, p: Pass, r: Pass, now: int, id: int)
    requires id in q && id in p.q && RowTime(rd, q, p, now, id)
    requires id in r.q && r.q[id].next == p.q[id].next && forall e :: e in p.log ==> e in r.log
    ensures RowTime(rd, q, r, now, id)
  {
    if ThrottleTime(rd, q, p.log, now, q[id].recipient, p.q[id].next) {
      var e :| e in p.log && FailedFor(rd, e, q[id].recipient) && e.id in q
               && p.q[id].next == now + rd.delay(q[e.id].attempts + 1);
      assert e in r.log;
    }
  }

  lemma LogKept(rd: Conventions, p: Pass, item: Item, a: Answers, now: int)
    ensures forall e :: e in p.log ==> e in Handle(rd, p, item, a, now).log
    ensures !Throttled(rd, p, item.row.recipient, now) ==>
              SendOf(item, a, now, p.clock) in Handle(rd, p, item, a, now).log
  {
  }

  lemma TimeStep(rd: Conventions, q: Queue, p: Pass, item: Item, a: Answers, now: int, id: int)
    requires id in q && Kept(q, p, id) && RowTime(rd, q, p, now, id)
    requires FailuresDefer(rd, q, p, now) && DeferralsFailed(rd, p)
    requires item.id in q && item.row == q[item.id]
    ensures RowTime(rd, q, Handle(rd, p, item, a, now), now, id)
  {
    var r := Handle(rd, p, item, a, now);
    LogKept(rd, p, item, a, now);
    if id in p.q && id in r.q {
      HandledTime(rd, p, item, a, now, id);
      if r.q[id].next == p.q[id].next {
        TimeStays(rd, q, p, r, now, id);
      } else if Throttled(rd, p, item.row.recipient, now) {
        DeferredTime(rd, q, p, now, item.row.recipient);
      } else {
        var e := SendOf(item, a, now, p.clock);
        assert e in r.log;
        assert item.id == id ==> Counted(e);
        assert item.id != id ==> FailedFor(rd, e, q[id].recipient);
      }
    } else if id !in p.q {
      GoneStays(rd, p, item, a, now, id);
    }
  }

  /** What is known before each step of a pass. */
  lemma PassFacts(rd: Conventions, q: Queue, items: seq<Item>, answers: nat -> Answers, now: int, n: nat, p: Pass,
                  id: int)
    requires n <= |items| && Listed(q, items, now) && p == Handled(rd, q, items, answers, now, n)
    ensures Kept(q, p, id) && FailuresDefer(rd, q, p, now) && DeferralsFailed(rd, p)
  {
    PassKeeps(rd, q, items, answers, now, n, id);
    ThrottleHolds(rd, q, items, answers, now, n);
  }

  /**
   * Whatever fails, a pass leaves a row at its time, or moves it to its own retry time after a counted failure, or
   * to the retry time of a message whose temporary failure concerned a domain of its recipient.
   */
  lemma {:induction false} PassTimes(rd: Conventions, q: Queue, items: seq<Item>, answers: nat -> Answers, now: int,
                                     n: nat, id: int)
    requires n <= |items| && Listed(q, items, now) && id in q
    ensures RowTime(rd, q, Handled(rd, q, items, answers, now, n), now, id)
  {
    if n > 0 {
      PassTimes(rd, q, items, answers, now, n - 1, id);
      var p := Handled(rd, q, items, answers, now, n - 1);
      PassFacts(rd, q, items, answers, now, n - 1, p, id);
      TimeStep(rd, q, p, items[n - 1], answers(n - 1), now, id);
    }
  }

  /** In every step of the program, whatever fails, a queued message is put off to an hour from now at the latest. */
  lemma WithinAnHour(s: System, op: Op, id: int)
    requires id in s.q && id < s.nextId
    ensures var r := Step(CONVENTIONS, s, op);
            id in r.q && r.q[id].next != s.q[id].next ==>
              op.Tick? && op.now + 60_000_000_000 <= r.q[id].next <= op.now + 3_600_000_000_000
  {
    if op.Tick? && op.listOk {
      var items := ListDue(s.q, op.now, BATCH_LIMIT);
      ListingIsSound(s.q, op.now, BATCH_LIMIT);
      PassTimes(CONVENTIONS, s.q, items, op.answers, op.now, |items|, id);
      forall n ensures 60_000_000_000 <= CONVENTIONS.delay(n) <= 3_600_000_000_000 {
        RetryDelayBounds(n);
      }
    }
  }

  /** All failures of a domain in one pass share one retry time. */
  lemma OneRetryTime(rd: Conventions, q: Queue, p: Pass, now: int, e: Event, id: int)
    requires FailuresDefer(rd, q, p, now) && id in q && RowTime(rd, q, p, now, id) && Trace(p.log, id) == []
    requires e in p.log && e.result.Temporary? && rd.worker(e.recipient).Some?
    requires Aligned(rd, q[id].recipient) && rd.worker(q[id].recipient) == rd.worker(e.recipient)
    requires id in p.q
    ensures e.id in q
    ensures p.q[id].next == q[id].next || p.q[id].next == now + rd.delay(q[e.id].attempts + 1)
  {
    if x :| x in p.log && x.id == id && Counted(x) {
      var k :| 0 <= k < |p.log| && p.log[k] == x;
      MemberTraced(p.log, id, k);
    }
  }

  /**
   * A stored temporary failure puts every waiting message of its domain at the failed message's retry time exactly,
   * unless that waits longer already; messages of other domains stay where they are.
   */
  lemma WaitingTime(q: Queue, now: int, answers: nat -> Answers, e: Event, id: int)
    requires id in q && CONVENTIONS.worker(q[id].recipient).Some? && PlainAddress(q[id].recipient)
    requires var items := ListDue(q, now, BATCH_LIMIT); !InItems(items, id, |items|)
    requires e in RunPass(CONVENTIONS, q, now, true, answers).log
    requires e.result.Temporary? && e.saved && e.deferred
    requires CONVENTIONS.worker(e.recipient) == CONVENTIONS.worker(q[id].recipient)
    ensures var p := RunPass(CONVENTIONS, q, now, true, answers);
            && id in p.q && e.id in q
            && var retryAt := now + RetryDelay(q[e.id].attempts + 1);
               p.q[id] == q[id].(next := if q[id].next < retryAt then retryAt else q[id].next)
  {
    var rd := CONVENTIONS;
    var p := RunPass(rd, q, now, true, answers);
    var items := ListDue(q, now, BATCH_LIMIT);
    ListingIsSound(q, now, BATCH_LIMIT);
    ReadAlike(q[id].recipient);
    PassRow(rd, q, items, answers, now, |items|, id);
    PassTimes(rd, q, items, answers, now, |items|, id);
    ThrottleHolds(rd, q, items, answers, now, |items|);
    ThrottleStored(rd, q, now, answers, p, e, id);
    UnlistedUnsent(rd, q, items, answers, now, |items|, id);
    OneRetryTime(rd, q, p, now, e, id);
    assert rd.delay(q[e.id].attempts + 1) == RetryDelay(q[e.id].attempts + 1);
  }

  // ---- Which messages are sent ----

  /** The send answers what the outside answered for the listed message, to its recipient. */
  ghost predicate AnsweredBy(e: Event, items: seq<Item>, answers: nat -> Answers, now: int, n: nat) {
    exists i: nat :: i < n <= |items| && e.id == items[i].id && e.recipient == items[i].row.recipient && e.pass == now
      && e.result == answers(i).send && e.saved == answers(i).writeOk && e.deferred == answers(i).deferOk
  }

  lemma AnsweredStep(rd: Conventions, p: Pass, items: seq<Item>, answers: nat -> Answers, now: int, n: nat)
    requires 0 < n <= |items| && forall e :: e in p.log ==> AnsweredBy(e, items, answers, now, n - 1)
    ensures forall e :: e in Handle(rd, p, items[n - 1], answers(n - 1), now).log ==>
        AnsweredBy(e, items, answers, now, n)
  {
    var r := Handle(rd, p, items[n - 1], answers(n - 1), now);
    forall e | e in r.log ensures AnsweredBy(e, items, answers, now, n) {
      if e in p.log {
        var i: nat :| i < n - 1 && e.id == items[i].id && e.recipient == items[i].row.recipient && e.pass == now
          && e.result == answers(i).send && e.saved == answers(i).writeOk && e.deferred == answers(i).deferOk;
        assert i < n;
      } else {
        assert e == SendOf(items[n - 1], answers(n - 1), now, p.clock);
        var i: nat := n - 1;
        assert e.id == items[i].id;
      }
    }
  }

  /** The log of a pass holds what was sent and what came of it. */
  lemma {:induction false} SendsAreAnswered(rd: Conventions, q: Queue, items: seq<Item>, answers: nat -> Answers,
                                            now: int, n: nat)
    requires n <= |items|
    ensures forall e :: e in Handled(rd, q, items, answers, now, n).log ==> AnsweredBy(e, items, answers, now, n)
  {
    if n > 0 {
      SendsAreAnswered(rd, q, items, answers, now, n - 1);
      AnsweredStep(rd, Handled(rd, q, items, answers, now, n - 1), items, answers, now, n);
    }
  }

  /** A listed message was sent, or a send to its domain has failed temporarily in this pass. */
  ghost predicate SentOrThrottled(rd: Conventions, p: Pass, id: int, recipient: string) {
    || Trace(p.log, id) != []
    || (rd.worker(recipient).Some? && TemporaryTo(rd, p.log, rd.worker(recipient).value))
  }

  lemma SentStays(rd: Conventions, p: Pass, item: Item, a: Answers, now: int, id: int, recipient: string)
    requires SentOrThrottled(rd, p, id, recipient)
    ensures SentOrThrottled(rd, Handle(rd, p, item, a, now), id, recipient)
  {
    var r := Handle(rd, p, item, a, now);
    TracePush(p.log, SendOf(item, a, now, p.clock), id);
    LogKept(rd, p, item, a, now);
    if rd.worker(recipient).Some? && TemporaryTo(rd, p.log, rd.worker(recipient).value) {
      var e :| e in p.log && e.result.Temporary? && rd.worker(e.recipient) == rd.worker(recipient);
      assert e in r.log;
    }
  }

  lemma SentNow(rd: Conventions, q: Queue, items: seq<Item>, answers: nat -> Answers, now: int, k: nat)
    requires k < |items| && Listed(q, items, now)
    ensures SentOrThrottled(rd, Handle(rd, Handled(rd, q, items, answers, now, k), items[k], answers(k), now),
                            items[k].id, items[k].row.recipient)
  {
    var p, item, a := Handled(rd, q, items, answers, now, k), items[k], answers(k);
    ThrottleHolds(rd, q, items, answers, now, k);
    TracePush(p.log, SendOf(item, a, now, p.clock), item.id);
  }

  lemma {:induction false} SentBefore(rd: Conventions, q: Queue, items: seq<Item>, answers: nat -> Answers, now: int,
                                      n: nat, m: nat, id: int, recipient: string)
    requires n <= m <= |items|
    requires SentOrThrottled(rd, Handled(rd, q, items, answers, now, n), id, recipient)
    ensures SentOrThrottled(rd, Handled(rd, q, items, answers, now, m), id, recipient)
    decreases m - n
  {
    if n < m {
      var p := Handled(rd, q, items, answers, now, n);
      SentStays(rd, p, items[n], answers(n), now, id, recipient);
      assert Handled(rd, q, items, answers, now, n + 1) == Handle(rd, p, items[n], answers(n), now);
      SentBefore(rd, q, items, answers, now, n + 1, m, id, recipient);
    }
  }

  /** Whatever fails, every listed message is sent unless a send to its domain failed temporarily in this pass. */
  lemma ListedIsSent(rd: Conventions, q: Queue, items: seq<Item>, answers: nat -> Answers, now: int, n: nat, k: nat)
    requires k < n <= |items| && Listed(q, items, now)
    ensures SentOrThrottled(rd, Handled(rd, q, items, answers, now, n), items[k].id, items[k].row.recipient)
  {
    SentNow(rd, q, items, answers, now, k);
    SentBefore(rd, q, items, answers, now, k + 1, n, items[k].id, items[k].row.recipient);
  }

  /** A listing without a positive limit is one of 25. */
  lemma DefaultLimit(q: Queue, before: int, limit: int)
    requires limit <= 0
    ensures ListDue(q, before, limit) == ListDue(q, before, 25)
  {
  }

  // ---- The delays ----

  /** The delays in nanoseconds: a minute, doubled for each further attempt, up to an hour from the seventh on. */
  lemma RetryDelays(attempts: int)
    ensures attempts <= 1 ==> RetryDelay(attempts) == 60_000_000_000
    ensures 1 <= attempts <= 5 ==> RetryDelay(attempts + 1) == 2 * RetryDelay(attempts)
    ensures RetryDelay(6) == 1_920_000_000_000
    ensures attempts >= 7 ==> RetryDelay(attempts) == 3_600_000_000_000
  {
    assert Pow2(0) == 1 && Pow2(3) == 8 && Pow2(5) == 32 && Pow2(6) == 64;
    if attempts >= 7 {
      Pow2Grows(6, attempts - 1);
    }
    if 1 <= attempts <= 5 {
      Pow2Grows(attempts, 5);
    }
  }
}
