/** Stored deadlines agree with the owners' current settings. */
module Retention {
  import opened Text
  import opened Settings
  import opened Policy
  import opened Mailboxes
  import opened Durations

  /** Every stored deadline is the one the owner's current settings give. */
  ghost predicate Agree(db: Db) {
    forall m :: m in db.messages ==>
      db.messages[m].expiresAt == Deadline(db.messages[m].receivedAt, DaysOf(db, db.messages[m].owner))
  }

  /** The time a retention setting adds, or none. */
  function Effective(days: int): Option<int> {
    if days > 0 then Some(Interval(days)) else None
  }

  /** The owner and the new retention setting of a call that saves settings but recalculates no deadlines. */
  function SavedOnly(lib: Library, b: Builder, db: Db, op: Op): Option<(int, int)> {
    match op
    case UpdateUser(id, name, newPassword, s, reserved, ok) =>
      if !UpdateAllowed(lib, b, db, id, name, s, reserved) || id !in db.users || !ok.write then None
      else if (newPassword && !ok.password) || !ok.recalculation then Some((id, s.autoDeleteAfterDays))
      else None
    case UpdateSettings(id, s, ok) =>
      if id in db.users && OwnershipFree(lib, b, db, id, s) && ok.write && !ok.recalculation
      then Some((id, s.autoDeleteAfterDays)) else None
    case UpdateAdminMailbox(s, ok) =>
      if OwnershipFree(lib, b, db, 0, s) && ok.write && !ok.recalculation
      then Some((0, s.autoDeleteAfterDays)) else None
    case _ => None
  }

  predicate HasMessages(db: Db, owner: int) {
    exists m :: m in db.messages && db.messages[m].owner == owner
  }

  /** A call that stops between saving and recalculating, with messages whose deadline it should have changed. */
  predicate LeavesStale(lib: Library, b: Builder, db: Db, op: Op) {
    var saved := SavedOnly(lib, b, db, op);
    && saved.Some?
    && HasMessages(db, saved.value.0)
    && Effective(saved.value.1) != Effective(DaysOf(db, saved.value.0))
  }

  lemma SavedDays(db: Db, id: int, s: AppSettings, recalculated: bool)
    requires WellFormed(db) && Agree(db) && id > 0
    ensures var r := SaveSettings(db, id, s, recalculated);
            Agree(r) <==>
              recalculated || !HasMessages(db, id)
              || Effective(s.autoDeleteAfterDays) == Effective(DaysOf(db, id))
  {
    var r := SaveSettings(db, id, s, recalculated);
    assert DaysOf(r, id) == s.autoDeleteAfterDays;
    assert forall o :: o != id ==> DaysOf(r, o) == DaysOf(db, o);
    if !recalculated && HasMessages(db, id) && Effective(s.autoDeleteAfterDays) != Effective(DaysOf(db, id)) {
      var m :| m in db.messages && db.messages[m].owner == id;
      assert m in r.messages && r.messages[m].expiresAt != Deadline(r.messages[m].receivedAt, DaysOf(r, id));
    }
  }

  lemma AdminDays(db: Db, s: AppSettings, recalculated: bool)
    requires WellFormed(db) && Agree(db)
    ensures Agree(SaveAdmin(db, s, recalculated)) <==>
        recalculated || !HasMessages(db, 0) || Effective(s.autoDeleteAfterDays) == Effective(DaysOf(db, 0))
  {
    var r := SaveAdmin(db, s, recalculated);
    assert DaysOf(r, 0) == s.autoDeleteAfterDays;
    assert forall o :: o != 0 ==> DaysOf(r, o) == DaysOf(db, o);
    if !recalculated && HasMessages(db, 0) && Effective(s.autoDeleteAfterDays) != Effective(DaysOf(db, 0)) {
      var m :| m in db.messages && db.messages[m].owner == 0;
      assert m in r.messages && r.messages[m].expiresAt != Deadline(r.messages[m].receivedAt, DaysOf(r, 0));
    }
  }

  lemma FewerAgree(db: Db, r: Db)
    requires Agree(db)
    requires forall m :: m in r.messages ==> m in db.messages && r.messages[m] == db.messages[m]
    requires forall m :: m in r.messages ==> DaysOf(r, r.messages[m].owner) == DaysOf(db, r.messages[m].owner)
    ensures Agree(r)
  {
  }

  lemma AddUserAgrees(db: Db, name: string, s: AppSettings)
    requires WellFormed(db) && Agree(db)
    ensures Agree(AddUser(db, name, s))
  {
    FewerAgree(db, AddUser(db, name, s));
  }

  lemma RemoveUserAgrees(db: Db, id: int)
    requires WellFormed(db) && Agree(db)
    ensures Agree(RemoveUser(db, id))
  {
    FewerAgree(db, RemoveUser(db, id));
  }

  lemma AddMessageAgrees(db: Db, owner: int, receivedAt: int, mailFrom: string, rcptTo: seq<string>,
                         tags: set<string>, text: string)
    requires Agree(db)
    ensures Agree(AddMessage(db, owner, receivedAt, mailFrom, rcptTo, tags, text))
  {
  }

  /** Renaming a user changes no deadline and no setting. */
  lemma RenamedAgree(db: Db, id: int, name: string)
    requires WellFormed(db) && Agree(db) && id in db.users
    ensures var r := db.(users := db.users[id := name]); WellFormed(r) && Agree(r) && DaysOf(r, id) == DaysOf(db, id)
  {
  }

  lemma UpdateUserAgrees(lib: Library, b: Builder, db: Db, op: Op)
    requires WellFormed(db) && Agree(db) && op.UpdateUser? && op.id in db.users
    ensures Agree(Step(lib, b, db, op).0) <==> !LeavesStale(lib, b, db, op)
  {
    RenamedAgree(db, op.id, op.name);
    SavedDays(db.(users := db.users[op.id := op.name]), op.id, op.s, !(op.newPassword && !op.ok.password)
        && op.ok.recalculation);
  }

  /**
   * Any call on an agreeing store leaves it agreeing exactly unless it stops after saving settings
   * that change the deadline of a stored message.
   */
  lemma StepAgrees(lib: Library, b: Builder, db: Db, op: Op)
    requires WellFormed(db) && Agree(db)
    ensures Agree(Step(lib, b, db, op).0) <==> !LeavesStale(lib, b, db, op)
  {
    match op {
      case UpdateUser(id, _, _, _, _, _) =>
        if id in db.users {
          UpdateUserAgrees(lib, b, db, op);
        }
      case UpdateSettings(id, s, ok) =>
        if id in db.users {
          SavedDays(db, id, s, ok.recalculation);
        }
      case UpdateAdminMailbox(s, ok) =>
        AdminDays(db, s, ok.recalculation);
      case CreateUser(name, _, s, _, _) =>
        AddUserAgrees(db, name, s);
      case DeleteUser(id, _) =>
        RemoveUserAgrees(db, id);
      case Deliver(owner, receivedAt, mailFrom, rcptTo, tags, text, _) =>
        AddMessageAgrees(db, owner, receivedAt, mailFrom, rcptTo, tags, text);
      case ExpireMessages(now, _) =>
        FewerAgree(db, RemoveExpired(db, now));
      case DeleteMessages(ids, _) =>
        FewerAgree(db, db.(messages := Without(db.messages, ids)));
    }
  }

  /** Calls that save settings also finish; any other part may fail. */
  ghost predicate Finishes(op: Op) {
    op.ok.password && op.ok.recalculation
  }

  /** In every state reached from the empty store by calls that finish, deadlines agree with settings. */
  lemma {:induction false} RunsAgree(lib: Library, b: Builder, db: Db, ops: seq<Op>)
    requires WellFormed(db) && Agree(db)
    requires forall i :: 0 <= i < |ops| ==> Finishes(ops[i])
    ensures WellFormed(Run(lib, b, db, ops)) && Agree(Run(lib, b, db, ops))
    decreases |ops|
  {
    if ops != [] {
      StepAgrees(lib, b, db, ops[0]);
      StepWellFormed(lib, b, db, ops[0]);
      RunsAgree(lib, b, Step(lib, b, db, ops[0]).0, ops[1..]);
    }
  }

  /** The retention setting that is stored for an owner. */
  function StoredDays(db: Db, owner: int): int {
    if owner == 0 then (if db.admin == None then 0 else db.admin.value.autoDeleteAfterDays)
    else if owner > 0 && owner in db.settings then db.settings[owner].autoDeleteAfterDays
    else 0
  }

  /**
   * A retention pass over an agreeing store removes exactly the messages whose owner's current
   * settings put their deadline at or before now, and keeps the others as they are.
   */
  lemma RetentionPass(lib: Library, b: Builder, db: Db, now: int, ok: Success)
    requires Agree(db) && ok.write
    ensures var r := Step(lib, b, db, ExpireMessages(now, ok)).0;
            && (forall m :: m in r.messages <==>
                  m in db.messages &&
                  var days := StoredDays(db, db.messages[m].owner);
                  !(days > 0 && db.messages[m].receivedAt + Interval(days) <= now))
            && (forall m :: m in r.messages ==> r.messages[m] == db.messages[m])
            && r == db.(messages := r.messages)
  {
    assert forall owner :: StoredDays(db, owner) == DaysOf(db, owner);
  }

  // ---- The arithmetic of the interval ----

  /** A retention time in nanoseconds is what a signed 64-bit integer makes of it. */
  lemma IntervalWraps(days: int) returns (turns: int)
    ensures Interval(days) == days * 86_400_000_000_000 - turns * 0x1_0000_0000_0000_0000
    ensures -0x8000_0000_0000_0000 <= Interval(days) < 0x8000_0000_0000_0000
  {
    turns := (days * DAY + 0x8000_0000_0000_0000) / 0x1_0000_0000_0000_0000;
  }

  /** A retention time is counted exactly up to 106751 days, and never beyond. */
  lemma IntervalExact(days: int)
    requires days > 0
    ensures Interval(days) == days * 86_400_000_000_000 <==> days <= 106751
  {
  }

  /** From 106752 to 213503 days it is negative: a message is past its deadline when it arrives. */
  lemma IntervalOverflows(days: int, receivedAt: int)
    requires 106752 <= days <= 213503
    ensures Deadline(receivedAt, days).Some? && Deadline(receivedAt, days).value < receivedAt
  {
  }
}
