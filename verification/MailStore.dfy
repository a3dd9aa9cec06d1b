/** The database as mutable tables, and the service calls as sequences of checks and writes on them. */
module MailStore {
  import opened Text
  import opened KeyOrder
  import opened Sets
  import opened Settings
  import opened Policy
  import opened Mailboxes
  import opened Paging

  class Store {
    var users: map<int, string>
    var settings: map<int, AppSettings>
    var admin: Option<AppSettings>
    var nextUser: int
    var messages: map<int, Message>
    var nextMessage: int

    function View(): Db
      reads this
    {
      Db(users, settings, admin, nextUser, messages, nextMessage)
    }

    constructor ()
      ensures View() == EMPTY_DB
    {
      users, settings, admin, nextUser := map[], map[], None, 1;
      messages, nextMessage := map[], 1;
    }

    // ---- Validation ----

    /** Compares the candidate with the admin mailbox and with every other user, in any order. */
    method ValidateRecipientOwnership(lib: Library, b: Builder, owner: int, s: AppSettings) returns (valid: bool)
      ensures valid <==> OwnershipFree(lib, b, View(), owner, s)
    {
      var candidate := b(owner, s);
      if candidate.None? {
        return false;
      }
      if Empty(candidate.value.rcpt) {
        return true;
      }
      if admin.Some? && owner != 0 {
        if !FreeOf(lib, candidate.value, b(0, admin.value)) {
          return false;
        }
      }
      var rest := users.Keys;
      while rest != {}
        invariant rest <= users.Keys
        invariant forall id :: id in users && id !in rest && id != owner ==>
                    FreeOf(lib, candidate.value, b(id, SettingsOf(View(), id)))
      {
        NonEmptyIds(rest);
        var id :| id in rest;
        rest := rest - {id};
        if id == owner {
          continue;
        }
        if !FreeOf(lib, candidate.value, b(id, SettingsOf(View(), id))) {
          return false;
        }
      }
      return true;
    }

    // ---- Single writes ----

    /** Gives every message of the owner the deadline that `days` implies, one message after another. */
    method RecalculateMessageExpirations(owner: int, days: int, ok: bool)
      modifies this`messages
      ensures messages == if ok then Recalculate(old(messages), owner, days) else old(messages)
    {
      if !ok {
        return;
      }
      var rest := messages.Keys;
      while rest != {}
        invariant rest <= old(messages).Keys && messages.Keys == old(messages).Keys
        invariant forall id :: id in rest ==> messages[id] == old(messages)[id]
        invariant forall id :: id in messages && id !in rest ==>
            messages[id] == Recalculate(old(messages), owner, days)[id]
      {
        NonEmptyIds(rest);
        var id :| id in rest;
        rest := rest - {id};
        var m := messages[id];
        if m.owner == owner {
          messages := messages[id := m.(expiresAt := if days > 0 then Some(m.receivedAt + Interval(days)) else None)];
        }
      }
      assert messages.Keys == Recalculate(old(messages), owner, days).Keys;
      assert forall id :: id in messages ==> messages[id] == Recalculate(old(messages), owner, days)[id];
    }

    // ---- Service calls ----

    method CreateNormalized(lib: Library, b: Builder, name: string, password: string, s: AppSettings,
                            reserved: string, ok: Success)
      returns (done: bool)
      modifies this
      ensures (View(), done) == Step(lib, b, old(View()), Op.CreateUser(name, password, s, reserved, ok))
    {
      if name == "" || password == "" {
        return false;
      }
      var valid := ValidateRecipientOwnership(lib, b, -1, s);
      if !valid || b(0, s).None? {
        return false;
      }
      if SameName(name, reserved) || NameTaken(View(), name, -1) {
        return false;
      }
      if !ok.password || !ok.write || nextUser in settings {
        return false;
      }
      users := users[nextUser := name];
      settings := settings[nextUser := s];
      nextUser := nextUser + 1;
      return true;
    }

    /** Trims the name and normalizes the settings before anything is checked. */
    method CreateUser(lib: Library, b: Builder, username: string, password: string, given: AppSettings,
                      reserved: string, ok: Success)
      returns (done: bool)
      modifies this
      ensures (View(), done) == Step(lib, b, old(View()),
                Op.CreateUser(Trim(username), password, NormalizeUserSettings(given), Trim(reserved), ok))
    {
      var s := NormalizeUserSettings(given);
      done := CreateNormalized(lib, b, Trim(username), password, s, Trim(reserved), ok);
    }

    method UpdateNormalized(lib: Library, b: Builder, id: int, name: string, newPassword: bool, s: AppSettings,
                            reserved: string, ok: Success)
      returns (done: bool)
      modifies this
      ensures (View(), done) == Step(lib, b, old(View()), Op.UpdateUser(id, name, newPassword, s, reserved, ok))
    {
      if name == "" {
        return false;
      }
      var valid := ValidateRecipientOwnership(lib, b, id, s);
      if !valid || SameName(name, reserved) || NameTaken(View(), name, id) || id !in users || !ok.write {
        return false;
      }
      users := users[id := name];
      settings := settings[id := s];
      if newPassword && !ok.password {
        return false;
      }
      RecalculateMessageExpirations(id, s.autoDeleteAfterDays, ok.recalculation);
      return ok.recalculation;
    }

    method UpdateUser(lib: Library, b: Builder, id: int, username: string, password: string, given: AppSettings,
                      reserved: string, ok: Success)
      returns (done: bool)
      modifies this
      ensures (View(), done) == Step(lib, b, old(View()),
                Op.UpdateUser(id, Trim(username), Trim(password) != "", NormalizeUserSettings(given), Trim(reserved),
                              ok))
    {
      var s := NormalizeUserSettings(given);
      done := UpdateNormalized(lib, b, id, Trim(username), Trim(password) != "", s, Trim(reserved), ok);
    }

    method UpdateOwnNormalized(lib: Library, b: Builder, id: int, s: AppSettings, ok: Success) returns (done: bool)
      modifies this
      ensures (View(), done) == Step(lib, b, old(View()), Op.UpdateSettings(id, s, ok))
    {
      if id !in users {
        return false;
      }
      var valid := ValidateRecipientOwnership(lib, b, id, s);
      if !valid || !ok.write {
        return false;
      }
      settings := settings[id := s];
      RecalculateMessageExpirations(id, s.autoDeleteAfterDays, ok.recalculation);
      return ok.recalculation;
    }

    method UpdateSettings(lib: Library, b: Builder, id: int, given: AppSettings, ok: Success) returns (done: bool)
      modifies this
      ensures (View(), done) == Step(lib, b, old(View()), Op.UpdateSettings(id, NormalizeUserSettings(given), ok))
    {
      var s := NormalizeUserSettings(given);
      done := UpdateOwnNormalized(lib, b, id, s, ok);
    }

    method UpdateAdminNormalized(lib: Library, b: Builder, s: AppSettings, ok: Success) returns (done: bool)
      modifies this
      ensures (View(), done) == Step(lib, b, old(View()), Op.UpdateAdminMailbox(s, ok))
    {
      var valid := ValidateRecipientOwnership(lib, b, 0, s);
      if !valid || !ok.write {
        return false;
      }
      admin := Some(s);
      RecalculateMessageExpirations(0, s.autoDeleteAfterDays, ok.recalculation);
      return ok.recalculation;
    }

    method UpdateAdminMailboxSettings(lib: Library, b: Builder, given: AppSettings, ok: Success) returns (done: bool)
      modifies this
      ensures (View(), done) == Step(lib, b, old(View()), Op.UpdateAdminMailbox(NormalizeUserSettings(given), ok))
    {
      var s := NormalizeUserSettings(given);
      done := UpdateAdminNormalized(lib, b, s, ok);
    }

    method DeleteUser(lib: Library, b: Builder, id: int, ok: Success) returns (done: bool)
      modifies this
      ensures (View(), done) == Step(lib, b, old(View()), Op.DeleteUser(id, ok))
    {
      if id !in users || !ok.write {
        return false;
      }
      settings := settings - {id};
      messages := messages - (set m | m in messages && messages[m].owner == id);
      users := users - {id};
      return true;
    }

    /** Stores a delivered message with the deadline of its owner's settings. */
    method PersistMessage(lib: Library, b: Builder, owner: int, receivedAt: int, mailFrom: string, rcptTo: seq<string>,
                          tags: set<string>, text: string, ok: Success) returns (done: bool)
      modifies this
      ensures (View(), done) == Step(lib, b, old(View()), Deliver(owner, receivedAt, mailFrom, rcptTo, tags, text, ok))
    {
      if !(0 <= owner < nextUser) || !ok.write {
        return false;
      }
      var expiresAt: Option<int> := None;
      if owner > 0 {
        if owner in settings && settings[owner].autoDeleteAfterDays > 0 {
          expiresAt := Some(receivedAt + Interval(settings[owner].autoDeleteAfterDays));
        }
      } else {
        if admin.Some? && admin.value.autoDeleteAfterDays > 0 {
          expiresAt := Some(receivedAt + Interval(admin.value.autoDeleteAfterDays));
        }
      }
      messages := messages[nextMessage := Message(owner, receivedAt, expiresAt, mailFrom, rcptTo, tags, text)];
      nextMessage := nextMessage + 1;
      return true;
    }

    method DeleteExpiredMessages(lib: Library, b: Builder, now: int, ok: Success) returns (done: bool)
      modifies this
      ensures (View(), done) == Step(lib, b, old(View()), ExpireMessages(now, ok))
    {
      if !ok.write {
        return false;
      }
      var expired := set m | m in messages && messages[m].expiresAt.Some? && messages[m].expiresAt.value <= now;
      assert expired == set m | m in messages && Expired(messages[m], now);
      messages := messages - expired;
      return true;
    }

    method DeleteAllMessages(search: Search, p: Principal, query: string, tag: string)
      modifies this`messages
      ensures messages == DeleteAll(old(messages), search, p, FilterFor(p, query, tag))
      ensures forall id :: id in messages <==> id in old(messages) && !Wanted(search, p, query, tag, old(messages)[id])
      ensures forall id :: id in messages ==> messages[id] == old(messages)[id]
    {
      var f := FilterFor(p, query, tag);
      forall id | id in messages
        ensures Deletable(search, p, f, messages[id]) <==> Wanted(search, p, query, tag, messages[id])
      {
        BothSelectWanted(search, p, query, tag, messages[id]);
      }
      messages := messages - (set id | id in messages && Deletable(search, p, f, messages[id]));
    }

    /** One page: up to one row more than the limit is read, to know whether there are more. */
    method ListMessages(wants: Message -> bool, cursor: Option<Key>, limit: int)
        returns (found: seq<Message>, next: Option<Key>)
      ensures var page := ListPage(messages, wants, cursor, limit);
              && next == page.next && |found| == |page.keys|
              && forall i :: 0 <= i < |found| ==> page.keys[i].id in messages && found[i] == messages[page.keys[i].id]
    {
      var n := PageSize(limit);
      var rows := SortDescending(Keys(messages, wants, cursor));
      assert forall i :: 0 <= i < |rows| ==> rows[i] in rows;
      assert forall i :: 0 <= i < |rows| ==> rows[i] in Keys(messages, wants, cursor);
      found := [];
      while |found| < n + 1 && |found| < |rows|
        invariant |found| <= n + 1 && |found| <= |rows|
        invariant forall i :: 0 <= i < |found| ==> rows[i].id in messages && found[i] == messages[rows[i].id]
      {
        found := found + [messages[rows[|found|].id]];
      }
      next := None;
      if |found| > n {
        found := found[..n];
        next := Some(rows[n - 1]);
      }
    }

    /** The principal's page: the filter is built from the request, and limits the list to the principal's own mail. */
    method ListFor(search: Search, p: Principal, query: string, tag: string, cursor: Option<Key>, limit: int)
      returns (found: seq<Message>, next: Option<Key>)
      ensures forall m :: m in found ==> Wanted(search, p, query, tag, m)
      ensures |found| <= if limit <= 0 then 25 else limit
      ensures var wants := (m: Message) => Listed(search, FilterFor(p, query, tag), m);
              var page := ListPage(messages, wants, cursor, limit);
              && next == page.next && |found| == |page.keys|
              && forall i :: 0 <= i < |found| ==> page.keys[i].id in messages && found[i] == messages[page.keys[i].id]
    {
      PageLaw(messages, search, p, query, tag, cursor, limit);
      var wants := (m: Message) => Listed(search, FilterFor(p, query, tag), m);
      found, next := ListMessages(wants, cursor, limit);
      ghost var page := ListPage(messages, wants, cursor, limit);
      forall m | m in found ensures Wanted(search, p, query, tag, m) {
        var i :| 0 <= i < |found| && found[i] == m;
        assert page.keys[i] in page.keys;
      }
    }
  }
}
