/** From the envelope of a session to the row of the mailbox. */
module Delivery {
  import opened Policy
  import opened Mailboxes
  import opened Routing
  import opened MailFailRules
  import opened SessionModel
  import opened SessionProofs
  import opened Retention

  /** The row that the store keeps for an envelope received at this time. */
  function RowFor(db: Db, e: Envelope, receivedAt: int, tags: set<string>, text: string): Message {
    Message(e.owner, receivedAt, Deadline(receivedAt, DaysOf(db, e.owner)), e.mailFrom, e.rcptTo, tags, text)
  }

  function Deliver(e: Envelope, receivedAt: int, tags: set<string>, text: string): Op {
    Op.Deliver(e.owner, receivedAt, e.mailFrom, e.rcptTo, tags, text, Success(true, true, true))
  }

  /** The owner of an envelope routed by this store is a mailbox that can own messages. */
  lemma OwnerCanOwn(lib: Library, b: Builder, db: Db, fallback: PolicyState, e: Envelope)
    requires WellFormed(db) && EnvelopeInv(lib, e) && e.cfg == ConfigOf(b, db, fallback)
    ensures 0 <= e.owner < db.nextUser
  {
    var p := MailboxState(e.cfg, e.owner).value;
    assert RoutedTo(lib, e.cfg, e.remoteIP, e.mailFrom, e.rcptTo[0], e.owner, p);
    OwnerExists(lib, b, db, fallback, e.remoteIP, e.mailFrom, e.rcptTo[0], e.owner, p);
  }

  /**
   * Handing over an envelope routed by this store adds its row, changes no other, and leaves deadlines in agreement.
   */
  lemma EnvelopeIsDelivered(lib: Library, b: Builder, db: Db, fallback: PolicyState, e: Envelope, receivedAt: int,
                            tags: set<string>, text: string)
    requires WellFormed(db) && Agree(db) && EnvelopeInv(lib, e) && e.cfg == ConfigOf(b, db, fallback)
    ensures var (r, ok) := Step(lib, b, db, Deliver(e, receivedAt, tags, text));
            && ok && Agree(r) && WellFormed(r) && db.nextMessage !in db.messages
            && r.messages == db.messages[db.nextMessage := RowFor(db, e, receivedAt, tags, text)]
  {
    OwnerCanOwn(lib, b, db, fallback, e);
    var op := Deliver(e, receivedAt, tags, text);
    StepAgrees(lib, b, db, op);
    StepWellFormed(lib, b, db, op);
  }

  /**
   * In every connection whose store does not change during an envelope: what a DATA command hands over
   * becomes one new row with the session's recipients, each of which was routed to the row's owner, and
   * with the deadline that this owner's current settings give.
   */
  lemma EnvelopeBecomesRow(lib: Library, tr: TriggerTest, b: Builder, db: Db, fallback: PolicyState, k: Connection,
                           command: Command,
                           receivedAt: int, tags: set<string>, text: string) returns (e: Envelope)
    requires WellFormed(db) && Agree(db)
    requires ConnectionInv(lib, k) && k.cfg == ConfigOf(b, db, fallback)
    requires OnCommand(lib, tr, k, command).stored != k.stored
    ensures OnCommand(lib, tr, k, command).stored == k.stored + [e]
    ensures e.rcptTo == k.session.rcptTo && e.mailFrom == k.session.mailFrom && e.owner == k.session.owner
    ensures AllRouted(lib, k.cfg, k.session.remoteIP, e.mailFrom, e.rcptTo, e.owner)
    ensures var (r, ok) := Step(lib, b, db, Deliver(e, receivedAt, tags, text));
            && ok && Agree(r) && WellFormed(r) && db.nextMessage !in db.messages
            && r.messages == db.messages[db.nextMessage := RowFor(db, e, receivedAt, tags, text)]
  {
    StoredEnvelope(lib, tr, k, command);
    var stored := OnCommand(lib, tr, k, command).stored;
    e := stored[|k.stored|];
    EnvelopeIsDelivered(lib, b, db, fallback, e, receivedAt, tags, text);
  }
}
