/** The stored mailboxes and messages, and the service calls that change them, as functions. */
module Mailboxes {
  import opened Text
  import opened Settings
  import opened Policy
  import opened Durations

  datatype Message = Message(
    owner: int, receivedAt: int, expiresAt: Option<int>,
    mailFrom: string, rcptTo: seq<string>, tags: set<string>, text: string)

  /** Owner 0 is the admin mailbox; users have positive ids, which are never reused. */
  datatype Db = Db(
    users: map<int, string>, settings: map<int, AppSettings>, admin: Option<AppSettings>, nextUser: int,
    messages: map<int, Message>, nextMessage: int)

  const EMPTY_DB: Db := Db(map[], map[], None, 1, map[], 1)

  // ---- Retention ----

  /** Two's complement wrap-around of a 64-bit integer. */
  function Wrap64(x: int): int {
    (x + 0x8000_0000_0000_0000) % 0x1_0000_0000_0000_0000 - 0x8000_0000_0000_0000
  }

  /** A retention time in nanoseconds; beyond 106751 days it overflows. */
  function Interval(days: int): int {
    Wrap64(days * DAY)
  }

  function Deadline(receivedAt: int, days: int): Option<int> {
    if days > 0 then Some(receivedAt + Interval(days)) else None
  }

  /** The retention setting that a delivery to `owner` consults. */
  function DaysOf(db: Db, owner: int): int {
    if owner > 0 then (if owner in db.settings then db.settings[owner].autoDeleteAfterDays else 0)
    else if owner == 0 && db.admin.Some? then db.admin.value.autoDeleteAfterDays
    else 0
  }

  function Recalculate(messages: map<int, Message>, owner: int, days: int): map<int, Message> {
    map id | id in messages ::
      if messages[id].owner == owner then messages[id].(expiresAt := Deadline(messages[id].receivedAt, days))
      else messages[id]
  }

  predicate Expired(m: Message, now: int) {
    m.expiresAt.Some? && m.expiresAt.value <= now
  }

  function Without(messages: map<int, Message>, ids: set<int>): map<int, Message> {
    messages - ids
  }

  // ---- Recipient ownership ----

  function SettingsOf(db: Db, id: int): AppSettings {
    if id in db.settings then db.settings[id] else NO_SETTINGS
  }

  predicate FreeOf(lib: Library, candidate: PolicyState, other: Option<PolicyState>) {
    other.Some? && !Overlaps(lib, candidate.rcpt, other.value.rcpt)
  }

  /** The settings can be built, and their recipients overlap those of no other mailbox. */
  predicate OwnershipFree(lib: Library, b: Builder, db: Db, owner: int, s: AppSettings) {
    var candidate := b(owner, s);
    && candidate.Some?
    && (|| Empty(candidate.value.rcpt)
        || (&& (db.admin.Some? && owner != 0 ==> FreeOf(lib, candidate.value, b(0, db.admin.value)))
            && forall id :: id in db.users && id != owner ==> FreeOf(lib, candidate.value, b(id, SettingsOf(db, id)))))
  }

  predicate SameName(a: string, b: string) {
    Lower(a) == Lower(b)
  }

  predicate NameTaken(db: Db, name: string, self: int) {
    exists id :: id in db.users && id != self && SameName(db.users[id], name)
  }

  // ---- Service calls ----

  /** Which parts of one service call succeed: the transaction, the password change, the recalculation. */
  datatype Success = Success(write: bool, password: bool, recalculation: bool)

  /**
   * The calls that change mailboxes or messages. Names are already trimmed and settings normalized;
   * `UpdateSettings` comes from a user's own session.
   */
  datatype Op =
    | CreateUser(name: string, password: string, s: AppSettings, reserved: string, ok: Success)
    | UpdateUser(id: int, name: string, newPassword: bool, s: AppSettings, reserved: string, ok: Success)
    | UpdateSettings(id: int, s: AppSettings, ok: Success)
    | UpdateAdminMailbox(s: AppSettings, ok: Success)
    | DeleteUser(id: int, ok: Success)
    | Deliver(owner: int, receivedAt: int, mailFrom: string, rcptTo: seq<string>, tags: set<string>, text: string,
              ok: Success)
    | ExpireMessages(now: int, ok: Success)
    | DeleteMessages(ids: set<int>, ok: Success)

  /** The store after a user's settings were saved and, if that succeeds, deadlines recalculated. */
  function SaveSettings(db: Db, id: int, s: AppSettings, recalculated: bool): Db {
    db.(settings := db.settings[id := s],
        messages := if recalculated then Recalculate(db.messages, id, s.autoDeleteAfterDays) else db.messages)
  }

  /** Whether the checks that precede a user's creation pass. */
  predicate CreationAllowed(lib: Library, b: Builder, db: Db, name: string, password: string, s: AppSettings,
                            reserved: string) {
    && name != "" && password != "" && OwnershipFree(lib, b, db, -1, s) && b(0, s).Some?
    && !SameName(name, reserved) && !NameTaken(db, name, -1)
  }

  function AddUser(db: Db, name: string, s: AppSettings): Db {
    db.(users := db.users[db.nextUser := name], settings := db.settings[db.nextUser := s], nextUser := db.nextUser + 1)
  }

  predicate UpdateAllowed(lib: Library, b: Builder, db: Db, id: int, name: string, s: AppSettings, reserved: string) {
    && name != "" && OwnershipFree(lib, b, db, id, s) && !SameName(name, reserved) && !NameTaken(db, name, id)
  }

  function RemoveUser(db: Db, id: int): Db {
    db.(users := db.users - {id}, settings := db.settings - {id},
        messages := Without(db.messages, set m | m in db.messages && db.messages[m].owner == id))
  }

  function SaveAdmin(db: Db, s: AppSettings, recalculated: bool): Db {
    db.(admin := Some(s),
        messages := if recalculated then Recalculate(db.messages, 0, s.autoDeleteAfterDays) else db.messages)
  }

  function AddMessage(db: Db, owner: int, receivedAt: int, mailFrom: string, rcptTo: seq<string>, tags: set<string>,
                      text: string): Db {
    var message := Message(owner, receivedAt, Deadline(receivedAt, DaysOf(db, owner)), mailFrom, rcptTo, tags, text);
    db.(messages := db.messages[db.nextMessage := message], nextMessage := db.nextMessage + 1)
  }

  function RemoveExpired(db: Db, now: int): Db {
    db.(messages := Without(db.messages, set m | m in db.messages && Expired(db.messages[m], now)))
  }

  /** The store after the call, and whether the call reports success. */
  function Step(lib: Library, b: Builder, db: Db, op: Op): (Db, bool) {
    match op
    case CreateUser(name, password, s, reserved, ok) =>
      if !CreationAllowed(lib, b, db, name, password, s, reserved) || !ok.password || !ok.write
          || db.nextUser in db.settings
      then (db, false) else (AddUser(db, name, s), true)
    case UpdateUser(id, name, newPassword, s, reserved, ok) =>
      if !UpdateAllowed(lib, b, db, id, name, s, reserved) || id !in db.users || !ok.write then (db, false)
      else
        var renamed := db.(users := db.users[id := name]);
        var finished := !(newPassword && !ok.password) && ok.recalculation;
        (SaveSettings(renamed, id, s, finished), finished)
    case UpdateSettings(id, s, ok) =>
      if id !in db.users || !OwnershipFree(lib, b, db, id, s) || !ok.write then (db, false)
      else (SaveSettings(db, id, s, ok.recalculation), ok.recalculation)
    case UpdateAdminMailbox(s, ok) =>
      if !OwnershipFree(lib, b, db, 0, s) || !ok.write then (db, false)
      else (SaveAdmin(db, s, ok.recalculation), ok.recalculation)
    case DeleteUser(id, ok) =>
      if id !in db.users || !ok.write then (db, false) else (RemoveUser(db, id), true)
    case Deliver(owner, receivedAt, mailFrom, rcptTo, tags, text, ok) =>
      if !(0 <= owner < db.nextUser) || !ok.write then (db, false)
      else (AddMessage(db, owner, receivedAt, mailFrom, rcptTo, tags, text), true)
    case ExpireMessages(now, ok) =>
      if !ok.write then (db, false) else (RemoveExpired(db, now), true)
    case DeleteMessages(ids, ok) =>
      if !ok.write then (db, false) else (db.(messages := Without(db.messages, ids)), true)
  }

  function Run(lib: Library, b: Builder, db: Db, ops: seq<Op>): Db
    decreases |ops|
  {
    if ops == [] then db else Run(lib, b, Step(lib, b, db, ops[0]).0, ops[1..])
  }

  /** Ids in use have been handed out before. */
  ghost predicate WellFormed(db: Db) {
    && db.nextUser >= 1
    && (forall id :: id in db.users || id in db.settings ==> 1 <= id < db.nextUser)
    && (forall id :: id in db.users ==> id in db.settings)
    && (forall m :: m in db.messages ==> m < db.nextMessage && 0 <= db.messages[m].owner < db.nextUser)
  }

  lemma StepWellFormed(lib: Library, b: Builder, db: Db, op: Op)
    requires WellFormed(db)
    ensures WellFormed(Step(lib, b, db, op).0)
  {
  }
}
