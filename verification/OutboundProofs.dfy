/** What every worker pass, and every run of the outbound queue, keeps. */
module OutboundProofs {
  import opened Text
  import opened KeyOrder
  import opened OutboundModel

  // ---- Traces ----

  lemma {:induction false} TraceConcat(a: seq<Event>, b: seq<Event>, id: int)
    ensures Trace(a + b, id) == Trace(a, id) + Trace(b, id)
  {
    if b == [] {
      assert a + b == a;
    } else {
      var n := |b| - 1;
      assert (a + b)[..|a + b| - 1] == a + b[..n];
      TraceConcat(a, b[..n], id);
    }
  }

  lemma TracePush(log: seq<Event>, e: Event, id: int)
    ensures Trace(log + [e], id) == Trace(log, id) + (if e.id == id then [e] else [])
  {
    assert (log + [e])[..|log|] == log;
  }

  // ---- The listing ----

  ghost predicate Distinct(items: seq<Item>) {
    forall i, j :: 0 <= i < j < |items| ==> items[i].id != items[j].id
  }

  ghost predicate Listed(q: Queue, items: seq<Item>, now: int) {
    && Distinct(items)
    && forall i :: 0 <= i < |items| ==> items[i].id in q && items[i].row == q[items[i].id] && items[i].row.next <= now
  }

  predicate InItems(items: seq<Item>, id: int, n: nat)
    requires n <= |items|
  {
    exists i :: 0 <= i < n && items[i].id == id
  }

  function ItemKeys(items: seq<Item>): seq<Key> {
    seq(|items|, i requires 0 <= i < |items| => Key(items[i].row.next, items[i].id))
  }

  /** The listing returns due rows, each once, earliest first, and at most as many as asked for. */
  lemma ListingIsSound(q: Queue, now: int, limit: int)
    requires limit > 0
    ensures Listed(q, ListDue(q, now, limit), now) && |ListDue(q, now, limit)| <= limit
    ensures Sorted(ItemKeys(ListDue(q, now, limit)))
    ensures var items := ListDue(q, now, limit);
            forall i, j :: 0 <= i < j < |items| ==>
              items[i].row.next < items[j].row.next
                  || (items[i].row.next == items[j].row.next && items[i].id < items[j].id)
  {
    var keys := Ascending(DueKeys(q, now));
    var items := ListDue(q, now, limit);
    assert forall i :: 0 <= i < |keys| ==> keys[i] in keys;
    assert forall i :: 0 <= i < |items| ==> items[i].id == keys[i].id && items[i].row.next == keys[i].at;
  }

  /** A due row that is left out comes after all the rows returned, of which there are then `limit`. */
  lemma ListingIsFair(q: Queue, now: int, limit: int, id: int)
    requires limit > 0 && id in q && q[id].next <= now
    requires !InItems(ListDue(q, now, limit), id, |ListDue(q, now, limit)|)
    ensures |ListDue(q, now, limit)| == limit
    ensures forall k :: k in ItemKeys(ListDue(q, now, limit)) ==> Before(k, Key(q[id].next, id))
  {
    var keys := Ascending(DueKeys(q, now));
    var items := ListDue(q, now, limit);
    var k := Key(q[id].next, id);
    assert k in DueKeys(q, now);
    var j :| 0 <= j < |keys| && keys[j] == k;
    assert forall i :: 0 <= i < |keys| ==> keys[i] in keys;
    assert forall i :: 0 <= i < |items| ==> items[i].id == keys[i].id && items[i].row.next == keys[i].at;
  }

  // ---- One pass, any failures ----

  ghost predicate AllLater(deferred: map<string, int>, now: int) {
    forall d :: d in deferred ==> deferred[d] > now
  }

  /** Every temporary failure of the pass has deferred its domain to the retry time of the failed message. */
  ghost predicate FailuresDefer(rd: Conventions, q: Queue, p: Pass, now: int) {
    && AllLater(p.deferred, now)
    && forall e :: e in p.log && e.result.Temporary? && rd.worker(e.recipient).Some? ==>
          var domain := rd.worker(e.recipient).value;
          domain in p.deferred && e.id in q && p.deferred[domain] == now + rd.delay(q[e.id].attempts + 1)
  }

  ghost predicate TemporaryTo(rd: Conventions, log: seq<Event>, domain: string) {
    exists e :: e in log && e.result.Temporary? && rd.worker(e.recipient) == Some(domain)
  }

  /** A domain is deferred only after a temporary failure to it in this pass. */
  ghost predicate DeferralsFailed(rd: Conventions, p: Pass) {
    forall d :: d in p.deferred ==> TemporaryTo(rd, p.log, d)
  }

  /** After a temporary failure, no later send of the pass goes to the same domain. */
  ghost predicate ThrottleKept(rd: Conventions, log: seq<Event>) {
    forall i, j :: 0 <= i < j < |log| && log[i].result.Temporary? && rd.worker(log[i].recipient).Some? ==>
      rd.worker(log[j].recipient) != rd.worker(log[i].recipient)
  }

  lemma HandleDefers(rd: Conventions, q: Queue, p: Pass, item: Item, a: Answers, now: int)
    requires FailuresDefer(rd, q, p, now) && item.id in q && item.row == q[item.id]
    ensures FailuresDefer(rd, q, Handle(rd, p, item, a, now), now)
  {
  }

  lemma HandleFailed(rd: Conventions, p: Pass, item: Item, a: Answers, now: int)
    requires DeferralsFailed(rd, p)
    ensures DeferralsFailed(rd, Handle(rd, p, item, a, now))
  {
    var r := Handle(rd, p, item, a, now);
    forall d | d in r.deferred ensures TemporaryTo(rd, r.log, d) {
      if d in p.deferred {
        var x :| x in p.log && x.result.Temporary? && rd.worker(x.recipient) == Some(d);
        assert x in r.log;
      } else {
        assert r.log[|r.log| - 1] in r.log;
      }
    }
  }

  lemma HandleThrottle(rd: Conventions, q: Queue, p: Pass, item: Item, a: Answers, now: int)
    requires FailuresDefer(rd, q, p, now) && ThrottleKept(rd, p.log)
    ensures ThrottleKept(rd, Handle(rd, p, item, a, now).log)
  {
    var r := Handle(rd, p, item, a, now);
    forall i, j | 0 <= i < j < |r.log| && r.log[i].result.Temporary? && rd.worker(r.log[i].recipient).Some?
      ensures rd.worker(r.log[j].recipient) != rd.worker(r.log[i].recipient)
    {
      assert r.log[i] == p.log[i] && p.log[i] in p.log;
    }
  }

  /**
   * Whatever the sender answers and whichever writes fail: once a send to a domain fails
   * temporarily, the rest of the pass sends nothing to that domain.
   */
  lemma {:induction false} ThrottleHolds(rd: Conventions, q: Queue, items: seq<Item>, answers: nat -> Answers,
                                         now: int, n: nat)
    requires n <= |items| && Listed(q, items, now)
    ensures var p := Handled(rd, q, items, answers, now, n);
            FailuresDefer(rd, q, p, now) && DeferralsFailed(rd, p) && ThrottleKept(rd, p.log)
  {
    if n > 0 {
      ThrottleHolds(rd, q, items, answers, now, n - 1);
      var p := Handled(rd, q, items, answers, now, n - 1);
      HandleDefers(rd, q, p, items[n - 1], answers(n - 1), now);
      HandleFailed(rd, p, items[n - 1], answers(n - 1), now);
      HandleThrottle(rd, q, p, items[n - 1], answers(n - 1), now);
    }
  }

  lemma DeferralsLater(rd: Conventions, q: Queue, items: seq<Item>, answers: nat -> Answers, now: int, n: nat)
    requires n <= |items| && Listed(q, items, now)
    ensures AllLater(Handled(rd, q, items, answers, now, n).deferred, now)
  {
    ThrottleHolds(rd, q, items, answers, now, n);
  }

  /** A row keeps its mail, and is gone only if a send of it was delivered. */
  ghost predicate Kept(q: Queue, p: Pass, id: int) {
    && (id in p.q ==> id in q && SameMail(p.q[id], q[id]))
    && (id in q && id !in p.q ==> exists e :: e in p.log && e.id == id && e.result.Delivered?)
  }

  lemma {:induction false} PassKeeps(rd: Conventions, q: Queue, items: seq<Item>, answers: nat -> Answers, now: int,
                                     n: nat, id: int)
    requires n <= |items|
    ensures Kept(q, Handled(rd, q, items, answers, now, n), id)
  {
    if n > 0 {
      PassKeeps(rd, q, items, answers, now, n - 1, id);
      var p := Handled(rd, q, items, answers, now, n - 1);
      var r := Handle(rd, p, items[n - 1], answers(n - 1), now);
      var e := SendOf(items[n - 1], answers(n - 1), now, Handled(rd, q, items, answers, now, n - 1).clock);
      if !Throttled(rd, p, items[n - 1].row.recipient, now) {
        assert r.log == p.log + [e];
        assert e in r.log;
        assert forall x :: x in p.log ==> x in r.log;
      }
    }
  }

  lemma {:induction false} ClockRuns(rd: Conventions, q: Queue, items: seq<Item>, answers: nat -> Answers, now: int,
                                     n: nat)
    requires n <= |items|
    ensures Handled(rd, q, items, answers, now, n).clock >= now
  {
    if n > 0 {
      ClockRuns(rd, q, items, answers, now, n - 1);
    }
  }

  // ---- One pass over one row, any failures ----

  /** A failed send that the table counts. */
  predicate Counted(e: Event) {
    !e.result.Delivered? && e.saved
  }

  /** A delivered send after which the message was deleted. */
  predicate Final(e: Event) {
    e.result.Delivered? && e.saved
  }

  /** A domain of the recipient, in one of the two readings, is deferred. */
  ghost predicate DomainDeferred(rd: Conventions, p: Pass, recipient: string) {
    || (rd.worker(recipient).Some? && rd.worker(recipient).value in p.deferred)
    || (rd.sql(recipient).Some? && rd.sql(recipient).value in p.deferred)
  }

  /** What a pass has done so far to the row `id`, listed (`seen`) or not. */
  ghost predicate RowState(rd: Conventions, q: Queue, p: Pass, now: int, id: int, seen: bool)
    requires id in q
  {
    var t := Trace(p.log, id);
    var was := q[id];
    && |t| <= 1
    && (t != [] ==> seen && t[0].pass == now && t[0].at >= now)
    && (id !in p.q ==> t != [] && Final(t[0]))
    && (id in p.q ==>
          var row := p.q[id];
          && SameMail(row, was) && row.next >= was.next
          && (t == [] ==>
                row.attempts == was.attempts && (row.next != was.next ==> DomainDeferred(rd, p, was.recipient)))
          && (t != [] ==> !Final(t[0]) && row.attempts == was.attempts + (if Counted(t[0]) then 1 else 0))
          && (t != [] && Counted(t[0]) ==> row.next >= now + rd.delay(row.attempts)))
  }

  /** What handling another message does to the row `id`: at most a deferral of its domain. */
  ghost predicate OtherEffect(rd: Conventions, p: Pass, r: Pass, id: int, stored: bool) {
    && Trace(r.log, id) == Trace(p.log, id)
    && (id in r.q <==> id in p.q)
    && (forall d :: d in p.deferred ==> d in r.deferred && r.deferred[d] == p.deferred[d])
    && (id in p.q ==>
          var domain := rd.sql(p.q[id].recipient);
          && r.q[id] == p.q[id].(next := r.q[id].next)
          && r.q[id].next >= p.q[id].next
          && (r.q[id].next != p.q[id].next ==> domain.Some? && domain.value in r.deferred)
          && (stored && domain.Some? && domain.value in r.deferred && domain.value !in p.deferred ==>
                r.q[id].next >= r.deferred[domain.value]))
  }

  lemma OtherFailure(rd: Conventions, p: Pass, item: Item, a: Answers, retryAt: int, id: int)
    requires item.id != id && !a.send.Delivered?
    requires rd.worker(item.row.recipient).Some? ==> rd.worker(item.row.recipient).value !in p.deferred
    ensures OtherEffect(rd, p, RecordFailure(rd, p, item, a, retryAt), id, a.writeOk && a.deferOk)
  {
  }

  lemma OtherSame(rd: Conventions, p: Pass, r: Pass, id: int, stored: bool)
    requires Trace(r.log, id) == Trace(p.log, id) && r.deferred == p.deferred
    requires (id in r.q <==> id in p.q) && (id in p.q ==> r.q[id] == p.q[id])
    ensures OtherEffect(rd, p, r, id, stored)
  {
  }

  lemma OtherLogged(rd: Conventions, p: Pass, sent: Pass, r: Pass, id: int, stored: bool)
    requires sent.q == p.q && sent.deferred == p.deferred && Trace(sent.log, id) == Trace(p.log, id)
    requires OtherEffect(rd, sent, r, id, stored)
    ensures OtherEffect(rd, p, r, id, stored)
  {
  }

  lemma OtherFailedRow(rd: Conventions, p: Pass, item: Item, a: Answers, now: int, r: Pass, id: int)
    requires item.id != id && !a.send.Delivered? && AllLater(p.deferred, now)
    requires !Throttled(rd, p, item.row.recipient, now) && r == Handle(rd, p, item, a, now)
    ensures OtherEffect(rd, p, r, id, a.writeOk && a.deferOk)
  {
    var e := SendOf(item, a, now, p.clock);
    var sent := p.(log := p.log + [e], clock := p.clock + a.took);
    var retryAt := now + rd.delay(item.row.attempts + 1);
    assert r == RecordFailure(rd, sent, item, a, retryAt);
    TracePush(p.log, e, id);
    OtherFailure(rd, sent, item, a, retryAt, id);
    OtherLogged(rd, p, sent, r, id, a.writeOk && a.deferOk);
  }

  lemma OtherRow(rd: Conventions, p: Pass, item: Item, a: Answers, now: int, r: Pass, id: int)
    requires item.id != id && AllLater(p.deferred, now)
    requires r == Handle(rd, p, item, a, now)
    ensures OtherEffect(rd, p, r, id, a.writeOk && a.deferOk)
  {
    if !Throttled(rd, p, item.row.recipient, now) && !a.send.Delivered? {
      OtherFailedRow(rd, p, item, a, now, r, id);
    } else {
      TracePush(p.log, SendOf(item, a, now, p.clock), id);
      OtherSame(rd, p, r, id, a.writeOk && a.deferOk);
    }
  }

  lemma OtherKeeps(rd: Conventions, q: Queue, p: Pass, r: Pass, now: int, id: int, seen: bool, stored: bool)
    requires id in q && RowState(rd, q, p, now, id, seen) && OtherEffect(rd, p, r, id, stored)
    ensures RowState(rd, q, r, now, id, seen)
  {
  }

  // Handling a due message does one of four things to its own row.

  /** The row after an update that the database may refuse. */
  function Updated(row: Row, attempts: int, next: int, writeOk: bool): Row {
    if writeOk then row.(attempts := attempts, next := next) else row
  }

  ghost predicate SelfDeferred(rd: Conventions, p: Pass, r: Pass, item: Item, a: Answers, now: int)
    requires item.id in p.q
  {
    var domain := rd.worker(item.row.recipient);
    && domain.Some? && domain.value in p.deferred && now < p.deferred[domain.value]
    && r.log == p.log && r.deferred == p.deferred
    && item.id in r.q && r.q[item.id] == Updated(p.q[item.id], item.row.attempts, p.deferred[domain.value], a.writeOk)
  }

  ghost predicate SelfDelivered(p: Pass, r: Pass, item: Item, a: Answers, now: int)
    requires item.id in p.q
  {
    && a.send.Delivered? && r.deferred == p.deferred
    && r.log == p.log + [SendOf(item, a, now, p.clock)]
    && (if a.writeOk then item.id !in r.q else item.id in r.q && r.q[item.id] == p.q[item.id])
  }

  ghost predicate SelfFailed(rd: Conventions, p: Pass, r: Pass, item: Item, a: Answers, now: int)
    requires item.id in p.q
  {
    var domain := rd.worker(item.row.recipient);
    var retryAt := now + rd.delay(item.row.attempts + 1);
    && !a.send.Delivered? && (domain.Some? ==> domain.value !in p.deferred)
    && r.log == p.log + [SendOf(item, a, now, p.clock)]
    && item.id in r.q
    && r.q[item.id] == Updated(p.q[item.id], item.row.attempts + 1, retryAt, a.writeOk)
    && (domain.Some? && domain.value in r.deferred ==> retryAt >= r.deferred[domain.value])
  }

  lemma SelfRow(rd: Conventions, p: Pass, item: Item, a: Answers, now: int)
    requires item.id in p.q && AllLater(p.deferred, now)
    ensures var r := Handle(rd, p, item, a, now);
            SelfDeferred(rd, p, r, item, a, now) || SelfDelivered(p, r, item, a, now)
                || SelfFailed(rd, p, r, item, a, now)
  {
  }

  lemma DeferredKeeps(rd: Conventions, q: Queue, p: Pass, r: Pass, item: Item, a: Answers, now: int)
    requires item.id in q && item.row == q[item.id] && item.row.next <= now
    requires RowState(rd, q, p, now, item.id, false) && item.id in p.q
    requires SelfDeferred(rd, p, r, item, a, now)
    ensures RowState(rd, q, r, now, item.id, true)
  {
  }

  lemma DeliveredKeeps(rd: Conventions, q: Queue, p: Pass, r: Pass, item: Item, a: Answers, now: int)
    requires item.id in q && item.row == q[item.id] && item.row.next <= now <= p.clock
    requires RowState(rd, q, p, now, item.id, false) && item.id in p.q
    requires SelfDelivered(p, r, item, a, now)
    ensures RowState(rd, q, r, now, item.id, true)
  {
    TracePush(p.log, SendOf(item, a, now, p.clock), item.id);
  }

  lemma FailedKeeps(rd: Conventions, q: Queue, p: Pass, r: Pass, item: Item, a: Answers, now: int)
    requires item.id in q && item.row == q[item.id] && item.row.next <= now <= p.clock
    requires RowState(rd, q, p, now, item.id, false) && item.id in p.q
    requires SelfFailed(rd, p, r, item, a, now)
    ensures RowState(rd, q, r, now, item.id, true)
  {
    var e := SendOf(item, a, now, p.clock);
    TracePush(p.log, e, item.id);
    assert Trace(r.log, item.id) == [e];
  }

  lemma PassRowStep(rd: Conventions, q: Queue, p: Pass, item: Item, a: Answers, now: int, id: int, seen: bool)
    requires id in q && AllLater(p.deferred, now) && p.clock >= now && RowState(rd, q, p, now, id, seen)
    requires item.id == id ==> !seen && item.row == q[id] && item.row.next <= now
    ensures RowState(rd, q, Handle(rd, p, item, a, now), now, id, seen || item.id == id)
  {
    var r := Handle(rd, p, item, a, now);
    if item.id != id {
      OtherRow(rd, p, item, a, now, r, id);
      OtherKeeps(rd, q, p, r, now, id, seen, a.writeOk && a.deferOk);
    } else {
      SelfRow(rd, p, item, a, now);
      if SelfDeferred(rd, p, r, item, a, now) {
        DeferredKeeps(rd, q, p, r, item, a, now);
      } else if SelfDelivered(p, r, item, a, now) {
        DeliveredKeeps(rd, q, p, r, item, a, now);
      } else {
        FailedKeeps(rd, q, p, r, item, a, now);
      }
    }
  }

  lemma ListedOnce(items: seq<Item>, id: int, n: nat)
    requires 0 < n <= |items| && Distinct(items)
    ensures InItems(items, id, n) <==> InItems(items, id, n - 1) || items[n - 1].id == id
    ensures items[n - 1].id == id ==> !InItems(items, id, n - 1)
  {
  }

  /**
   * Whatever fails: a pass sends a row at most once, and only if it is listed. It keeps the row's
   * mail, never moves its next attempt earlier, counts exactly the failed send that was saved, and
   * removes the row exactly after a delivered send whose deletion succeeds.
   */
  lemma {:induction false} PassRow(rd: Conventions, q: Queue, items: seq<Item>, answers: nat -> Answers, now: int,
                                   n: nat, id: int)
    requires n <= |items| && Listed(q, items, now) && id in q
    ensures RowState(rd, q, Handled(rd, q, items, answers, now, n), now, id, InItems(items, id, n))
  {
    if n > 0 {
      PassRow(rd, q, items, answers, now, n - 1, id);
      ClockRuns(rd, q, items, answers, now, n - 1);
      DeferralsLater(rd, q, items, answers, now, n - 1);
      ListedOnce(items, id, n);
      var p := Handled(rd, q, items, answers, now, n - 1);
      PassRowStep(rd, q, p, items[n - 1], answers(n - 1), now, id, InItems(items, id, n - 1));
    }
  }

  // ---- One pass over one row, successful writes ----

  /** A message that was handled is gone or waits. */
  ghost predicate RowMoved(p: Pass, now: int, id: int, seen: bool) {
    seen && id in p.q ==> p.q[id].next > now
  }

  lemma HandleMoves(rd: Conventions, p: Pass, item: Item, a: Answers, now: int, id: int, seen: bool)
    requires a.writeOk && AllLater(p.deferred, now) && RowMoved(p, now, id, seen)
    ensures RowMoved(Handle(rd, p, item, a, now), now, id, seen || item.id == id)
  {
  }

  /** With successful updates every listed message is gone or moved to a time after `now`. */
  lemma {:induction false} PassMoves(rd: Conventions, q: Queue, items: seq<Item>, answers: nat -> Answers, now: int,
                                     n: nat, id: int)
    requires n <= |items| && Listed(q, items, now) && UpdatesSucceed(answers)
    ensures RowMoved(Handled(rd, q, items, answers, now, n), now, id, InItems(items, id, n))
  {
    if n > 0 {
      PassMoves(rd, q, items, answers, now, n - 1, id);
      DeferralsLater(rd, q, items, answers, now, n - 1);
      ListedOnce(items, id, n);
      HandleMoves(rd, Handled(rd, q, items, answers, now, n - 1), items[n - 1], answers(n - 1), now, id,
                  InItems(items, id, n - 1));
    }
  }

  // ---- The throttle as it is stored, any failures ----

  /** A send to the domain failed temporarily in this pass, and its reschedule and its deferral were stored. */
  ghost predicate StoredFailure(rd: Conventions, log: seq<Event>, domain: string) {
    exists e :: e in log && e.result.Temporary? && rd.worker(e.recipient) == Some(domain) && e.saved && e.deferred
  }

  /** A stored failure of the row's domain, as SQL reads it, has moved the row to the retry time. */
  ghost predicate RowDeferred(rd: Conventions, p: Pass, id: int) {
    id in p.q ==>
      var domain := rd.sql(p.q[id].recipient);
      domain.Some? && StoredFailure(rd, p.log, domain.value) ==>
        domain.value in p.deferred && p.q[id].next >= p.deferred[domain.value]
  }

  /** A domain's first stored failure of the pass is the one that was just handled. */
  lemma FirstStored(rd: Conventions, p: Pass, item: Item, a: Answers, now: int, domain: string)
    requires AllLater(p.deferred, now) && !StoredFailure(rd, p.log, domain)
    requires StoredFailure(rd, Handle(rd, p, item, a, now).log, domain)
    ensures a.writeOk && a.deferOk && !a.send.Delivered?
    ensures domain !in p.deferred && domain in Handle(rd, p, item, a, now).deferred
  {
    var r := Handle(rd, p, item, a, now);
    var e :| e in r.log && e.result.Temporary? && rd.worker(e.recipient) == Some(domain) && e.saved && e.deferred;
    assert e !in p.log;
    assert r.log == p.log + [SendOf(item, a, now, p.clock)];
  }

  lemma OtherDefers(rd: Conventions, p: Pass, item: Item, a: Answers, now: int, id: int)
    requires item.id != id && AllLater(p.deferred, now) && RowDeferred(rd, p, id)
    ensures RowDeferred(rd, Handle(rd, p, item, a, now), id)
  {
    var r := Handle(rd, p, item, a, now);
    OtherRow(rd, p, item, a, now, r, id);
    if id in r.q && rd.sql(r.q[id].recipient).Some? {
      var domain := rd.sql(r.q[id].recipient).value;
      if StoredFailure(rd, r.log, domain) && !StoredFailure(rd, p.log, domain) {
        FirstStored(rd, p, item, a, now, domain);
      }
    }
  }

  lemma SelfDefers(rd: Conventions, p: Pass, item: Item, a: Answers, now: int)
    requires item.id in p.q && item.row.recipient == p.q[item.id].recipient && Aligned(rd, item.row.recipient)
    requires AllLater(p.deferred, now) && RowDeferred(rd, p, item.id)
    ensures RowDeferred(rd, Handle(rd, p, item, a, now), item.id)
  {
    var r := Handle(rd, p, item, a, now);
    SelfRow(rd, p, item, a, now);
    if rd.worker(item.row.recipient).Some? {
      var domain := rd.worker(item.row.recipient).value;
      if StoredFailure(rd, r.log, domain) && !StoredFailure(rd, p.log, domain) {
        FirstStored(rd, p, item, a, now, domain);
      }
    }
  }

  lemma GoneStays(rd: Conventions, p: Pass, item: Item, a: Answers, now: int, id: int)
    requires id !in p.q
    ensures id !in Handle(rd, p, item, a, now).q
  {
  }

  /**
   * Whatever else fails: a temporary failure whose own two updates were stored has moved the rows of its
   * domain, if both readings agree on it, to the retry time.
   */
  lemma {:induction false} PassDeferred(rd: Conventions, q: Queue, items: seq<Item>, answers: nat -> Answers,
                                        now: int, n: nat, id: int)
    requires n <= |items| && Listed(q, items, now)
    requires id in q && Aligned(rd, q[id].recipient)
    ensures RowDeferred(rd, Handled(rd, q, items, answers, now, n), id)
  {
    if n > 0 {
      PassDeferred(rd, q, items, answers, now, n - 1, id);
      DeferralsLater(rd, q, items, answers, now, n - 1);
      PassKeeps(rd, q, items, answers, now, n - 1, id);
      var p := Handled(rd, q, items, answers, now, n - 1);
      if items[n - 1].id != id {
        OtherDefers(rd, p, items[n - 1], answers(n - 1), now, id);
      } else if id in p.q {
        SelfDefers(rd, p, items[n - 1], answers(n - 1), now);
      } else {
        GoneStays(rd, p, items[n - 1], answers(n - 1), now, id);
      }
    }
  }

  /** Rows that are not listed are never sent. */
  lemma {:induction false} UnlistedUnsent(rd: Conventions, q: Queue, items: seq<Item>, answers: nat -> Answers,
                                          now: int, n: nat, id: int)
    requires n <= |items| && !InItems(items, id, n)
    ensures Trace(Handled(rd, q, items, answers, now, n).log, id) == []
  {
    if n > 0 {
      assert !InItems(items, id, n - 1) by {
        if i :| 0 <= i < n - 1 && items[i].id == id { }
      }
      UnlistedUnsent(rd, q, items, answers, now, n - 1, id);
      TracePush(Handled(rd, q, items, answers, now, n - 1).log,
                SendOf(items[n - 1], answers(n - 1), now, Handled(rd, q, items, answers, now, n - 1).clock), id);
    }
  }
}
