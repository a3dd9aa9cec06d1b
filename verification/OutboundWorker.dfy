/** The outbound queue as a mutable table, and the worker that empties it. */
module OutboundWorker {
  import opened Text
  import opened Address
  import opened KeyOrder
  import opened Durations
  import opened OutboundModel
  import opened Sets

  /** The delay doubles with each attempt from one minute up to an hour. */
  method OutboundRetryDelay(attempts: int) returns (delay: int)
    ensures delay == RetryDelay(attempts)
    ensures MINUTE <= delay <= HOUR
  {
    var a := attempts;
    if a < 1 {
      a := 1;
    }
    if a > 7 {
      a := 7;
    }
    var shifted := 1;
    for i := 0 to a - 1
      invariant shifted == Pow2(i)
    {
      shifted := 2 * shifted;
    }
    delay := MINUTE * shifted;
    if delay > HOUR {
      delay := HOUR;
    }
    assert Pow2(3) == 8 && Pow2(6) == 64;
    if attempts > 7 {
      Pow2Grows(6, attempts - 1);
    }
    RetryDelayBounds(attempts);
  }

  /** The row moved to `retryAt` if it is another, earlier one of the domain, and otherwise unchanged. */
  predicate Postponed(was: Row, row: Row, id: int, domain: string, exceptId: int, retryAt: int) {
    if id != exceptId && SqlDomain(was.recipient) == Some(domain) && was.next < retryAt
    then row == was.(next := retryAt) else row == was
  }

  lemma PostponedIsDeferred(q: Queue, r: Queue, domain: string, exceptId: int, retryAt: int)
    requires r.Keys == q.Keys && forall id :: id in q ==> Postponed(q[id], r[id], id, domain, exceptId, retryAt)
    ensures r == DeferDomain(CONVENTIONS, q, domain, exceptId, retryAt)
  {
    var d := DeferDomain(CONVENTIONS, q, domain, exceptId, retryAt);
    forall id | id in q ensures r[id] == d[id] {
      assert CONVENTIONS.sql(q[id].recipient) == SqlDomain(q[id].recipient);
    }
  }

  class Store {
    var rows: Queue
    var nextId: int

    constructor ()
      ensures rows == map[] && nextId == 1
    {
      rows, nextId := map[], 1;
    }

    /** Without a time of its own the message is due at once. */
    method Enqueue(envelopeFrom: string, recipient: string, raw: string, attempts: int, next: Option<int>, now: int,
                   ok: bool)
      modifies this
      ensures var due := if next.Some? then next.value else now;
              if ok then
                rows == old(rows)[old(nextId) := Row(envelopeFrom, recipient, raw, attempts, due)]
                    && nextId == old(nextId) + 1
              else
                rows == old(rows) && nextId == old(nextId)
    {
      var nextAttempt := now;
      if next.Some? {
        nextAttempt := next.value;
      }
      if ok {
        rows := rows[nextId := Row(envelopeFrom, recipient, raw, attempts, nextAttempt)];
        nextId := nextId + 1;
      }
    }

    /** The due rows, read in (next_attempt, id) order up to the limit. */
    method ListDueMessages(before: int, limit: int) returns (messages: seq<Item>)
      ensures messages == ListDue(rows, before, limit)
    {
      var bound := if limit <= 0 then 25 else limit;
      var keys := SortAscending(DueKeys(rows, before));
      assert forall i :: 0 <= i < |keys| ==> keys[i] in keys;
      messages := [];
      while |messages| < bound && |messages| < |keys|
        invariant |messages| <= bound && |messages| <= |keys|
        invariant forall i :: 0 <= i < |messages| ==> messages[i] == Item(keys[i].id, rows[keys[i].id])
      {
        var id := keys[|messages|].id;
        messages := messages + [Item(id, rows[id])];
      }
    }

    method DeleteMessage(id: int, ok: bool)
      modifies this`rows
      ensures rows == if ok then old(rows) - {id} else old(rows)
    {
      if ok {
        rows := rows - {id};
      }
    }

    method RescheduleMessage(id: int, attempts: int, next: int, ok: bool)
      modifies this`rows
      ensures rows == if ok then Reschedule(old(rows), id, attempts, next) else old(rows)
    {
      if ok && id in rows {
        rows := rows[id := rows[id].(attempts := attempts, next := next)];
      }
    }

    /** Moves the domain's other messages, one row after another and in any order, to `retryAt` at the earliest. */
    method DeferMessagesForDomain(domain: string, exceptId: int, retryAt: int, ok: bool) returns (failed: bool)
      modifies this`rows
      ensures failed <==> Trim(domain) == "" || !ok
      ensures rows == if failed then old(rows)
                      else DeferDomain(CONVENTIONS, old(rows), Lower(Trim(domain)), exceptId, retryAt)
      ensures rows.Keys == old(rows).Keys
      ensures !failed ==> forall id :: id in rows ==>
                Postponed(old(rows)[id], rows[id], id, Lower(Trim(domain)), exceptId, retryAt)
    {
      var wanted := Lower(Trim(domain));
      if wanted == "" || !ok {
        return true;
      }
      var rest := rows.Keys;
      while rest != {}
        invariant rest <= old(rows).Keys && rows.Keys == old(rows).Keys
        invariant forall id :: id in rest ==> rows[id] == old(rows)[id]
        invariant forall id :: id in rows && id !in rest ==>
                    Postponed(old(rows)[id], rows[id], id, wanted, exceptId, retryAt)
      {
        NonEmptyIds(rest);
        var id :| id in rest;
        var row := rows[id];
        if id != exceptId && SqlDomain(row.recipient) == Some(wanted) && row.next < retryAt {
          rows := rows[id := row.(next := retryAt)];
        }
        rest := rest - {id};
      }
      PostponedIsDeferred(old(rows), rows, wanted, exceptId, retryAt);
      failed := false;
    }
  }

  /** A domain taken from an address is not changed by the trimming and lower-casing of the store. */
  lemma DomainUnchanged(address: string)
    requires ExtractDomain(address).Some?
    ensures Trim(ExtractDomain(address).value) != ""
        && Lower(Trim(ExtractDomain(address).value)) == ExtractDomain(address).value
  {
    var d := ExtractDomain(address).value;
    DomainNonEmpty(address);
    TrimFixed(d);
    DomainIsLower(address);
  }

  /** After a failed send: the next attempt is stored, and for a temporary failure the domain is deferred. */
  method RecordFailedSend(store: Store, deferred: map<string, int>, message: Item, a: Answers, now: int)
    returns (deferredDomains: map<string, int>)
    modifies store`rows
    ensures forall log, clock ::
              var retryAt := now + CONVENTIONS.delay(message.row.attempts + 1);
              RecordFailure(CONVENTIONS, Pass(old(store.rows), deferred, log, clock), message, a, retryAt)
                == Pass(store.rows, deferredDomains, log, clock)
  {
    deferredDomains := deferred;
    var domain := ExtractDomain(message.row.recipient);
    var attempts := message.row.attempts + 1;
    var delay := OutboundRetryDelay(attempts);
    var nextAttempt := now + delay;
    var throttle := a.send.Temporary? && domain.Some?;
    assert domain == CONVENTIONS.worker(message.row.recipient) && delay == CONVENTIONS.delay(attempts);
    if throttle {
      deferredDomains := deferredDomains[domain.value := nextAttempt];
    }
    store.RescheduleMessage(message.id, attempts, nextAttempt, a.writeOk);
    if !a.writeOk {
      return;
    }
    if throttle {
      DomainUnchanged(message.row.recipient);
      var _ := store.DeferMessagesForDomain(domain.value, message.id, nextAttempt, a.deferOk);
    }
  }

  /** The body of the worker's loop: throttle, send, and record the outcome of one message. */
  method HandleMessage(store: Store, deferred: map<string, int>, sends: seq<Event>, message: Item, a: Answers, now: int,
                       begun: int)
    returns (deferredDomains: map<string, int>, log: seq<Event>, clock: int)
    modifies store`rows
    ensures Pass(store.rows, deferredDomains, log, clock)
         == Handle(CONVENTIONS, Pass(old(store.rows), deferred, sends, begun), message, a, now)
  {
    deferredDomains, log, clock := deferred, sends, begun;
    var domain := ExtractDomain(message.row.recipient);
    assert domain == CONVENTIONS.worker(message.row.recipient);
    if domain.Some? && domain.value in deferredDomains && now < deferredDomains[domain.value] {
      store.RescheduleMessage(message.id, message.row.attempts, deferredDomains[domain.value], a.writeOk);
      return;
    }
    log := log + [SendOf(message, a, now, clock)];
    clock := clock + a.took;
    if a.send.Delivered? {
      store.DeleteMessage(message.id, a.writeOk);
      return;
    }
    deferredDomains := RecordFailedSend(store, deferredDomains, message, a, now);
  }

  /**
   * One pass of the worker over the due messages. The sender's and the database's answers are
   * given by `answers`; the table ends up as the functional pass says.
   */
  method RunOutboundBatch(store: Store, now: int, listOk: bool, answers: nat -> Answers) returns (log: seq<Event>)
    modifies store`rows
    ensures var p := RunPass(CONVENTIONS, old(store.rows), now, listOk, answers);
            store.rows == p.q && log == p.log
  {
    var clock := now;
    log := [];
    if !listOk {
      return;
    }
    var messages := store.ListDueMessages(now, BATCH_LIMIT);
    var deferredDomains: map<string, int> := map[];
    for i := 0 to |messages|
      invariant Handled(CONVENTIONS, old(store.rows), messages, answers, now, i)
          == Pass(store.rows, deferredDomains, log, clock)
    {
      deferredDomains, log, clock := HandleMessage(store, deferredDomains, log, messages[i], answers(i), now, clock);
    }
  }
}
