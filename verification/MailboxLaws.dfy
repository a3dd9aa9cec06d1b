/** When a service call is carried out, what it changes then, and what it leaves alone. */
module MailboxLaws {
  import opened Text
  import opened Settings
  import opened Policy
  import opened Mailboxes
  import opened Routing

  // ---- What the laws are about ----

  function StoredFor(db: Db, id: int): AppSettings {
    if id in db.settings then db.settings[id] else NO_SETTINGS
  }

  /** The other mailbox can be built, and the probe finds no overlap with it. */
  predicate NoClash(lib: Library, b: Builder, rcpt: Matcher, id: int, s: AppSettings) {
    b(id, s).Some? && !Overlaps(lib, rcpt, b(id, s).value.rcpt)
  }

  /** The settings can be built, and if they have recipients, no other mailbox clashes with them. */
  ghost predicate Saveable(lib: Library, b: Builder, db: Db, owner: int, s: AppSettings) {
    && b(owner, s).Some?
    && var rcpt := b(owner, s).value.rcpt;
       rcpt.exact != {} || rcpt.patterns != [] ==>
         && (db.admin.Some? && owner != 0 ==> NoClash(lib, b, rcpt, 0, db.admin.value))
         && forall id :: id in db.users && id != owner ==> NoClash(lib, b, rcpt, id, StoredFor(db, id))
  }

  /** The name is not that of the administrator or of a user other than `self`, whatever the case. */
  predicate NameFree(db: Db, name: string, reserved: string, self: int) {
    && name != "" && Lower(name) != Lower(reserved)
    && forall id :: id in db.users && id != self ==> Lower(db.users[id]) != Lower(name)
  }

  /** Every message of the owner has the deadline that `days` gives, and nothing else of it or of another changes. */
  ghost predicate Redated(before: map<int, Message>, after: map<int, Message>, owner: int, days: int) {
    && after.Keys == before.Keys
    && forall m :: m in before ==>
         if before[m].owner == owner
         then after[m] == before[m].(expiresAt := if days > 0 then Some(before[m].receivedAt + Interval(days))
             else None)
         else after[m] == before[m]
  }

  lemma SaveableIsFree(lib: Library, b: Builder, db: Db, owner: int, s: AppSettings)
    ensures OwnershipFree(lib, b, db, owner, s) <==> Saveable(lib, b, db, owner, s)
  {
    if b(owner, s).Some? {
      var candidate := b(owner, s).value;
      assert forall id :: id in db.users ==>
               (FreeOf(lib, candidate, b(id, SettingsOf(db, id))) <==>
                   NoClash(lib, b, candidate.rcpt, id, StoredFor(db, id)));
      assert db.admin.Some? ==>
               (FreeOf(lib, candidate, b(0, db.admin.value)) <==> NoClash(lib, b, candidate.rcpt, 0, db.admin.value));
      assert Empty(candidate.rcpt) <==> !(candidate.rcpt.exact != {} || candidate.rcpt.patterns != []);
    }
  }

  lemma RecalculateRedates(messages: map<int, Message>, owner: int, days: int)
    ensures Redated(messages, Recalculate(messages, owner, days), owner, days)
  {
  }

  // ---- One law for each call ----

  /** A user is created exactly if name, password and settings pass and the writes succeed; nothing else changes. */
  lemma CreateUserLaw(lib: Library, b: Builder, db: Db, name: string, password: string, s: AppSettings,
                      reserved: string, ok: Success)
    ensures var (r, done) := Step(lib, b, db, CreateUser(name, password, s, reserved, ok));
            && (done <==> NameFree(db, name, reserved, -1) && password != "" && Saveable(lib, b, db, -1, s)
                          && b(0, s).Some? && ok.password && ok.write && db.nextUser !in db.settings)
            && r == if done then Db(db.users[db.nextUser := name], db.settings[db.nextUser := s], db.admin,
                                    db.nextUser + 1, db.messages, db.nextMessage)
                    else db
  {
    SaveableIsFree(lib, b, db, -1, s);
  }

  /** The parts of an update that come after the settings were saved succeed. */
  predicate Completes(newPassword: bool, ok: Success) {
    (newPassword ==> ok.password) && ok.recalculation
  }

  /**
   * Users and settings are as given, the owner's messages are redated if the call completes, and the rest is as
   * before.
   */
  ghost predicate SavedAs(db: Db, r: Db, users: map<int, string>, settings: map<int, AppSettings>,
                          admin: Option<AppSettings>, owner: int, days: int, complete: bool) {
    && r.users == users && r.settings == settings && r.admin == admin
    && r.nextUser == db.nextUser && r.nextMessage == db.nextMessage
    && (if complete then Redated(db.messages, r.messages, owner, days) else r.messages == db.messages)
  }

  lemma UpdateUserLaw(lib: Library, b: Builder, db: Db, id: int, name: string, newPassword: bool, s: AppSettings,
                      reserved: string, ok: Success)
    ensures var (r, done) := Step(lib, b, db, UpdateUser(id, name, newPassword, s, reserved, ok));
            var saved := id in db.users && NameFree(db, name, reserved, id) && Saveable(lib, b, db, id, s) && ok.write;
            && (done <==> saved && Completes(newPassword, ok))
            && (!saved ==> r == db)
            && (saved ==> SavedAs(db, r, db.users[id := name], db.settings[id := s], db.admin, id,
                                  s.autoDeleteAfterDays, Completes(newPassword, ok)))
  {
    SaveableIsFree(lib, b, db, id, s);
    RecalculateRedates(db.messages, id, s.autoDeleteAfterDays);
  }

  lemma UpdateSettingsLaw(lib: Library, b: Builder, db: Db, id: int, s: AppSettings, ok: Success)
    ensures var (r, done) := Step(lib, b, db, UpdateSettings(id, s, ok));
            var saved := id in db.users && Saveable(lib, b, db, id, s) && ok.write;
            && (done <==> saved && ok.recalculation)
            && (!saved ==> r == db)
            && (saved ==> SavedAs(db, r, db.users, db.settings[id := s], db.admin, id, s.autoDeleteAfterDays,
                                  ok.recalculation))
  {
    SaveableIsFree(lib, b, db, id, s);
    RecalculateRedates(db.messages, id, s.autoDeleteAfterDays);
  }

  lemma UpdateAdminLaw(lib: Library, b: Builder, db: Db, s: AppSettings, ok: Success)
    ensures var (r, done) := Step(lib, b, db, UpdateAdminMailbox(s, ok));
            var saved := Saveable(lib, b, db, 0, s) && ok.write;
            && (done <==> saved && ok.recalculation)
            && (!saved ==> r == db)
            && (saved ==> SavedAs(db, r, db.users, db.settings, Some(s), 0, s.autoDeleteAfterDays, ok.recalculation))
  {
    SaveableIsFree(lib, b, db, 0, s);
    RecalculateRedates(db.messages, 0, s.autoDeleteAfterDays);
  }

  /** Deleting a user removes exactly the user, the settings, and the messages of that owner. */
  lemma DeleteUserLaw(lib: Library, b: Builder, db: Db, id: int, ok: Success)
    ensures var (r, done) := Step(lib, b, db, DeleteUser(id, ok));
            && (done <==> id in db.users && ok.write)
            && (!done ==> r == db)
            && (done ==>
                  && r.admin == db.admin && r.nextUser == db.nextUser && r.nextMessage == db.nextMessage
                  && (forall u :: u in r.users <==> u in db.users && u != id)
                  && (forall u :: u in r.users ==> r.users[u] == db.users[u])
                  && (forall u :: u in r.settings <==> u in db.settings && u != id)
                  && (forall u :: u in r.settings ==> r.settings[u] == db.settings[u])
                  && (forall m :: m in r.messages <==> m in db.messages && db.messages[m].owner != id)
                  && (forall m :: m in r.messages ==> r.messages[m] == db.messages[m]))
  {
  }

  /** The deadline that the stored settings give a message of the owner. */
  function DeadlineFor(db: Db, owner: int, receivedAt: int): Option<int> {
    if owner > 0 && owner in db.settings && db.settings[owner].autoDeleteAfterDays > 0
    then Some(receivedAt + Interval(db.settings[owner].autoDeleteAfterDays))
    else if owner == 0 && db.admin.Some? && db.admin.value.autoDeleteAfterDays > 0
    then Some(receivedAt + Interval(db.admin.value.autoDeleteAfterDays))
    else None
  }

  /** A delivery adds one message under the next id, with the deadline of its owner. */
  lemma DeliverLaw(lib: Library, b: Builder, db: Db, owner: int, receivedAt: int, mailFrom: string,
                   rcptTo: seq<string>, tags: set<string>, text: string, ok: Success)
    ensures var (r, done) := Step(lib, b, db, Deliver(owner, receivedAt, mailFrom, rcptTo, tags, text, ok));
            && (done <==> 0 <= owner < db.nextUser && ok.write)
            && r == if !done then db
                    else Db(db.users, db.settings, db.admin, db.nextUser,
                            db.messages[db.nextMessage := Message(owner, receivedAt, DeadlineFor(db, owner, receivedAt),
                                                                  mailFrom, rcptTo, tags, text)],
                            db.nextMessage + 1)
  {
  }

  /** Removing messages, expired or chosen, keeps every other one and everything else. */
  lemma RemovalLaw(lib: Library, b: Builder, db: Db, now: int, ids: set<int>, ok: Success)
    ensures var (r, done) := Step(lib, b, db, ExpireMessages(now, ok));
            && done == ok.write && r == db.(messages := r.messages)
            && (forall m :: m in r.messages <==>
                  m in db.messages && !(ok.write && db.messages[m].expiresAt.Some?
                      && db.messages[m].expiresAt.value <= now))
            && (forall m :: m in r.messages ==> r.messages[m] == db.messages[m])
    ensures var (r, done) := Step(lib, b, db, DeleteMessages(ids, ok));
            && done == ok.write && r == db.(messages := r.messages)
            && (forall m :: m in r.messages <==> m in db.messages && !(ok.write && m in ids))
            && (forall m :: m in r.messages ==> r.messages[m] == db.messages[m])
  {
  }

  // ---- In every reached state ----

  /** No two users share a name, whatever the case. */
  ghost predicate NamesDistinct(db: Db) {
    forall i, j :: i in db.users && j in db.users && i != j ==> Lower(db.users[i]) != Lower(db.users[j])
  }

  lemma StepKeepsNames(lib: Library, b: Builder, db: Db, op: Op)
    requires WellFormed(db) && NamesDistinct(db)
    ensures NamesDistinct(Step(lib, b, db, op).0)
  {
    match op {
      case CreateUser(name, password, s, reserved, ok) => CreateUserLaw(lib, b, db, name, password, s, reserved, ok);
      case UpdateUser(id, name, newPassword, s, reserved, ok) =>
        UpdateUserLaw(lib, b, db, id, name, newPassword, s, reserved, ok);
      case _ =>
    }
  }

  lemma {:induction false} RunsKeepNames(lib: Library, b: Builder, db: Db, ops: seq<Op>)
    requires WellFormed(db) && NamesDistinct(db)
    ensures NamesDistinct(Run(lib, b, db, ops))
    decreases |ops|
  {
    if ops != [] {
      StepKeepsNames(lib, b, db, ops[0]);
      StepWellFormed(lib, b, db, ops[0]);
      RunsKeepNames(lib, b, Step(lib, b, db, ops[0]).0, ops[1..]);
    }
  }

  lemma StoredIsSaveable(lib: Library, b: Builder, db: Db, id: int)
    requires WellFormed(db) && AllBuild(b, db) && Separate(lib, b, db) && IsMailbox(db, id)
    ensures Saveable(lib, b, db, id, StoredSettings(db, id))
  {
    var rcpt := b(id, StoredSettings(db, id)).value.rcpt;
    forall j | IsMailbox(db, j) && j != id ensures NoClash(lib, b, rcpt, j, StoredSettings(db, j)) {
      assert Unprobed(lib)(RcptOf(b, db, id), RcptOf(b, db, j));
    }
    assert forall j :: j in db.users ==> IsMailbox(db, j) && StoredSettings(db, j) == StoredFor(db, j);
    assert db.admin.Some? ==> IsMailbox(db, 0) && StoredSettings(db, 0) == db.admin.value;
  }

  lemma {:induction false} RunsWellFormed(lib: Library, b: Builder, db: Db, ops: seq<Op>)
    requires WellFormed(db)
    ensures WellFormed(Run(lib, b, db, ops))
    decreases |ops|
  {
    if ops != [] {
      StepWellFormed(lib, b, db, ops[0]);
      RunsWellFormed(lib, b, Step(lib, b, db, ops[0]).0, ops[1..]);
    }
  }

  /**
   * In every reached state, a user can save the stored settings again, and the administrator those of the admin
   * mailbox.
   */
  lemma SavedAgain(lib: Library, b: Builder, ops: seq<Op>, id: int)
    requires SoundBuilder(b)
    ensures var db := Run(lib, b, EMPTY_DB, ops);
            var ok := Success(true, true, true);
            && (id in db.users ==> Step(lib, b, db, UpdateSettings(id, StoredFor(db, id), ok)).1)
            && (db.admin.Some? ==> Step(lib, b, db, UpdateAdminMailbox(db.admin.value, ok)).1)
  {
    var db := Run(lib, b, EMPTY_DB, ops);
    RunsStaySeparate(lib, b, EMPTY_DB, ops);
    RunsStayBuilt(lib, b, EMPTY_DB, ops);
    RunsWellFormed(lib, b, EMPTY_DB, ops);
    if id in db.users {
      StoredIsSaveable(lib, b, db, id);
      UpdateSettingsLaw(lib, b, db, id, StoredFor(db, id), Success(true, true, true));
    }
    if db.admin.Some? {
      StoredIsSaveable(lib, b, db, 0);
      UpdateAdminLaw(lib, b, db, db.admin.value, Success(true, true, true));
    }
  }
}
