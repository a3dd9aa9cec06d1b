/**
 * The outbound report queue and one worker pass over it, as functions of the table, the clock and
 * the answers of the outside world (the sender and the database).
 */
module OutboundModel {
  import opened Text
  import opened Address
  import opened KeyOrder
  import opened Durations

  const BATCH_LIMIT: int := 25

  datatype Row = Row(envelopeFrom: string, recipient: string, raw: string, attempts: int, next: int)

  type Queue = map<int, Row>

  /** A row as the worker got it from the listing; later updates of the table do not change it. */
  datatype Item = Item(id: int, row: Row)

  datatype SendResult = Delivered | Temporary | Permanent

  /** What the outside world answers while one listed message is handled. */
  datatype Answers = Answers(send: SendResult, took: nat, writeOk: bool, deferOk: bool)

  /**
   * A send: the time of its pass, which the retry time is counted from, and the time it began, after the
   * sends before it; its result; whether the message was then deleted or rescheduled in the table (`saved`),
   * and whether the table takes a deferral of its domain (`deferred`).
   */
  datatype Event = Sent(id: int, pass: int, at: int, recipient: string, result: SendResult, saved: bool, deferred: bool)

  function Min(a: int, b: int): int {
    if a < b then a else b
  }

  function Pow2(n: nat): nat {
    if n == 0 then 1 else 2 * Pow2(n - 1)
  }

  /** One minute, doubled for every further attempt, and never more than an hour. */
  function RetryDelay(attempts: int): int {
    if attempts < 1 then MINUTE else Min(HOUR, MINUTE * Pow2(attempts - 1))
  }

  lemma {:induction false} Pow2Grows(m: nat, n: nat)
    requires m <= n
    ensures Pow2(m) <= Pow2(n)
  {
    if m < n {
      Pow2Grows(m, n - 1);
    }
  }

  lemma RetryDelayBounds(attempts: int)
    ensures MINUTE <= RetryDelay(attempts) <= HOUR
  {
    if attempts >= 1 {
      Pow2Grows(0, attempts - 1);
    }
  }

  type Duration = d: int | d > 0 witness 1

  /**
   * How a recipient's domain is read, by the worker and by the SQL that defers a whole domain, and
   * how long a message waits after a failed attempt. The queue is modelled for any such conventions;
   * `CONVENTIONS` are the program's own.
   */
  datatype Conventions = Conventions(worker: string -> Option<string>, sql: string -> Option<string>,
                                     delay: int -> Duration)

  function PositiveDelay(attempts: int): (d: Duration)
    ensures d == RetryDelay(attempts)
  {
    RetryDelayBounds(attempts);
    RetryDelay(attempts)
  }

  const CONVENTIONS := Conventions(
    (a: string) => ExtractDomain(a), (a: string) => SqlDomain(a), (n: int) => PositiveDelay(n))

  // ---- Table operations ----

  function DueKeys(q: Queue, before: int): set<Key> {
    set id | id in q && q[id].next <= before :: Key(q[id].next, id)
  }

  /** The first `limit` due rows in (next_attempt, id) order; a limit below one means 25. */
  ghost function ListDue(q: Queue, before: int, limit: int): seq<Item> {
    var keys := Ascending(DueKeys(q, before));
    assert forall i :: 0 <= i < |keys| ==> keys[i] in keys;
    seq(Min(if limit <= 0 then 25 else limit, |keys|), i requires 0 <= i < |keys| => Item(keys[i].id, q[keys[i].id]))
  }

  function Reschedule(q: Queue, id: int, attempts: int, next: int): Queue {
    if id in q then q[id := q[id].(attempts := attempts, next := next)] else q
  }

  /** Every other row whose recipient is in `domain` waits at least until `retryAt`. */
  function DeferDomain(rd: Conventions, q: Queue, domain: string, exceptId: int, retryAt: int): Queue {
    map id | id in q :: if id != exceptId && rd.sql(q[id].recipient) == Some(domain) && q[id].next < retryAt
                        then q[id].(next := retryAt) else q[id]
  }

  // ---- One worker pass ----

  /** The table, the worker's deferred-domain map, the sends made so far in this pass, and the time of day. */
  datatype Pass = Pass(q: Queue, deferred: map<string, int>, log: seq<Event>, clock: int)

  function SendOf(item: Item, a: Answers, now: int, clock: int): Event {
    Sent(item.id, now, clock, item.row.recipient, a.send, a.writeOk, a.deferOk)
  }

  predicate Throttled(rd: Conventions, p: Pass, recipient: string, now: int) {
    var domain := rd.worker(recipient);
    domain.Some? && domain.value in p.deferred && now < p.deferred[domain.value]
  }

  /** What is recorded after a failed send: one more attempt and, for a temporary failure, the domain's throttle. */
  function RecordFailure(rd: Conventions, p: Pass, item: Item, a: Answers, retryAt: int): Pass {
    var domain := rd.worker(item.row.recipient);
    var throttle := a.send.Temporary? && domain.Some?;
    var q1 := if a.writeOk then Reschedule(p.q, item.id, item.row.attempts + 1, retryAt) else p.q;
    var q2 := if a.writeOk && throttle && a.deferOk then DeferDomain(rd, q1, domain.value, item.id, retryAt) else q1;
    p.(q := q2, deferred := if throttle then p.deferred[domain.value := retryAt] else p.deferred)
  }

  function Handle(rd: Conventions, p: Pass, item: Item, a: Answers, now: int): Pass {
    if Throttled(rd, p, item.row.recipient, now) then
      var retryAt := p.deferred[rd.worker(item.row.recipient).value];
      p.(q := if a.writeOk then Reschedule(p.q, item.id, item.row.attempts, retryAt) else p.q)
    else
      var sent := p.(log := p.log + [SendOf(item, a, now, p.clock)], clock := p.clock + a.took);
      if a.send.Delivered? then
        sent.(q := if a.writeOk then p.q - {item.id} else p.q)
      else
        RecordFailure(rd, sent, item, a, now + rd.delay(item.row.attempts + 1))
  }

  /** The pass after its first `n` listed messages. */
  function Handled(rd: Conventions, q: Queue, items: seq<Item>, answers: nat -> Answers, now: int, n: nat): Pass
    requires n <= |items|
  {
    if n == 0 then Pass(q, map[], [], now)
    else Handle(rd, Handled(rd, q, items, answers, now, n - 1), items[n - 1], answers(n - 1), now)
  }

  ghost function RunPass(rd: Conventions, q: Queue, now: int, listOk: bool, answers: nat -> Answers): Pass {
    if !listOk then Pass(q, map[], [], now)
    else
      var items := ListDue(q, now, BATCH_LIMIT);
      Handled(rd, q, items, answers, now, |items|)
  }

  // ---- Whole runs ----

  /** A report is enqueued for immediate delivery, or the worker makes a pass. */
  datatype Op =
    | Enqueue(at: int, envelopeFrom: string, recipient: string, raw: string, ok: bool)
    | Tick(now: int, listOk: bool, answers: nat -> Answers)

  /** The table, its next row id, and every send of the run so far. */
  datatype System = System(q: Queue, nextId: int, log: seq<Event>)

  const EMPTY_QUEUE: System := System(map[], 1, [])

  ghost function Step(rd: Conventions, s: System, op: Op): System {
    match op
    case Enqueue(at, envelopeFrom, recipient, raw, ok) =>
      if ok then System(s.q[s.nextId := Row(envelopeFrom, recipient, raw, 0, at)], s.nextId + 1, s.log) else s
    case Tick(now, listOk, answers) =>
      var p := RunPass(rd, s.q, now, listOk, answers);
      System(p.q, s.nextId, s.log + p.log)
  }

  ghost function Run(rd: Conventions, s: System, ops: seq<Op>): System
    decreases |ops|
  {
    if ops == [] then s else Run(rd, Step(rd, s, ops[0]), ops[1..])
  }

  /** Deleting or rescheduling a handled message succeeds; the sender still answers as it likes. */
  ghost predicate UpdatesSucceed(answers: nat -> Answers) {
    forall i: nat :: answers(i).writeOk
  }

  /** The sends of one message, in order. */
  function Trace(log: seq<Event>, id: int): seq<Event> {
    if log == [] then []
    else
      var e := log[|log| - 1];
      Trace(log[..|log| - 1], id) + (if e.id == id then [e] else [])
  }

  /** The two readings of the recipient's domain coincide. */
  predicate Aligned(rd: Conventions, recipient: string) {
    rd.sql(recipient) == rd.worker(recipient)
  }

  predicate SameMail(a: Row, b: Row) {
    a.envelopeFrom == b.envelopeFrom && a.recipient == b.recipient && a.raw == b.raw
  }
}
