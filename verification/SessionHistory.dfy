/** What is left of the session's promises when the store may change at any time. */
module SessionHistory {
  import opened Text
  import opened Policy
  import opened Mailboxes
  import opened Routing
  import opened MailFailRules
  import opened SessionModel
  import opened SessionProofs

  /** A recipient as it was accepted: the configuration then in force, and the owner it was routed to. */
  datatype Admission = Admission(recipient: string, cfg: Config, owner: int)

  ghost predicate Routed(lib: Library, remoteIP: string, mailFrom: string, a: Admission) {
    && MailboxState(a.cfg, a.owner).Some?
    && RoutedTo(lib, a.cfg, remoteIP, mailFrom, a.recipient, a.owner, MailboxState(a.cfg, a.owner).value)
  }

  /** The recipient had no candidate and went to the instance-wide mailbox, whoever owned the envelope. */
  predicate FellBack(lib: Library, remoteIP: string, mailFrom: string, a: Admission) {
    && a.owner == 0 && a.cfg.policies.Some?
    && Candidates(lib, a.cfg.policies.value, remoteIP, mailFrom, a.recipient) == {}
  }

  ghost predicate Overwritten(lib: Library, remoteIP: string, mailFrom: string, h: seq<Admission>, i: nat) {
    exists j :: i < j < |h| && FellBack(lib, remoteIP, mailFrom, h[j])
  }

  /**
   * `h` tells how the recipients came in: each was routed, when it was offered and by a configuration that was
   * in force, to the envelope's owner, or to one that a later recipient without candidates has overwritten by 0.
   */
  ghost predicate Accounts(lib: Library, cfgs: set<Config>, remoteIP: string, mailFrom: string, rcptTo: seq<string>,
                           owner: int, h: seq<Admission>) {
    && |h| == |rcptTo|
    && (forall i :: 0 <= i < |h| ==>
          h[i].recipient == rcptTo[i] && h[i].cfg in cfgs && Routed(lib, remoteIP, mailFrom, h[i]))
    && forall i :: 0 <= i < |h| ==> h[i].owner == owner || (owner == 0 && Overwritten(lib, remoteIP, mailFrom, h, i))
  }

  ghost predicate Accounted(lib: Library, cfgs: set<Config>, remoteIP: string, mailFrom: string, rcptTo: seq<string>,
                            owner: int) {
    exists h :: Accounts(lib, cfgs, remoteIP, mailFrom, rcptTo, owner, h)
  }

  ghost predicate SessionAccounted(lib: Library, cfgs: set<Config>, s: Session) {
    && (s.rcptTo != [] <==> s.ownerSet)
    && Accounted(lib, cfgs, s.remoteIP, s.mailFrom, s.rcptTo, s.owner)
  }

  ghost predicate EnvelopeAccounted(lib: Library, cfgs: set<Config>, e: Envelope) {
    e.mailFrom != "" && e.rcptTo != [] && Accounted(lib, cfgs, e.remoteIP, e.mailFrom, e.rcptTo, e.owner)
  }

  ghost predicate ConnectionAccounted(lib: Library, cfgs: set<Config>, k: Connection) {
    && k.cfg in cfgs && SessionAccounted(lib, cfgs, k.session)
    && forall i :: 0 <= i < |k.stored| ==> EnvelopeAccounted(lib, cfgs, k.stored[i])
  }

  lemma NothingAccounted(lib: Library, cfgs: set<Config>, remoteIP: string, mailFrom: string, owner: int)
    ensures Accounted(lib, cfgs, remoteIP, mailFrom, [], owner)
  {
    assert Accounts(lib, cfgs, remoteIP, mailFrom, [], owner, []);
  }

  lemma OneMore(lib: Library, cfgs: set<Config>, remoteIP: string, mailFrom: string, rcptTo: seq<string>, owner: int,
                h: seq<Admission>, a: Admission)
    requires Accounts(lib, cfgs, remoteIP, mailFrom, rcptTo, owner, h)
    requires a.cfg in cfgs && Routed(lib, remoteIP, mailFrom, a)
    requires rcptTo == [] || a.owner == owner || FellBack(lib, remoteIP, mailFrom, a)
    ensures Accounted(lib, cfgs, remoteIP, mailFrom, rcptTo + [a.recipient], a.owner)
  {
    var g := h + [a];
    forall i | 0 <= i < |g|
        ensures g[i].owner == a.owner || (a.owner == 0 && Overwritten(lib, remoteIP, mailFrom, g, i)) {
      if i < |h| && g[i].owner != a.owner {
        if a.owner == owner {
          var j :| i < j < |h| && FellBack(lib, remoteIP, mailFrom, h[j]);
          assert g[j] == h[j];
        } else {
          assert g[|h|] == a;
        }
      }
    }
    assert Accounts(lib, cfgs, remoteIP, mailFrom, rcptTo + [a.recipient], a.owner, g);
  }

  lemma RcptAccounted(lib: Library, tr: TriggerTest, cfgs: set<Config>, k: Connection, recipient: string,
                      greylist: Option<Reply>)
    requires k.cfg in cfgs && SessionAccounted(lib, cfgs, k.session)
    ensures SessionAccounted(lib, cfgs, OnCommand(lib, tr, k, RcptTo(Some(recipient), greylist)).session)
  {
    var s := k.session;
    var (s', reply) := OnRcptTo(lib, tr, k.cfg, s, recipient, greylist);
    AcceptedIsRouted(lib, tr, k.cfg, s, recipient, greylist);
    if reply.None? {
      var h: seq<Admission> :| Accounts(lib, cfgs, s.remoteIP, s.mailFrom, s.rcptTo, s.owner, h);
      if s.ownerSet {
        OwnerKept(lib, tr, k.cfg, s, recipient, greylist);
      }
      OneMore(lib, cfgs, s.remoteIP, s.mailFrom, s.rcptTo, s.owner, h, Admission(recipient, k.cfg, s'.owner));
    }
  }

  lemma DataAccounted(lib: Library, tr: TriggerTest, cfgs: set<Config>, k: Connection, command: Command)
    requires command.SendData? && ConnectionAccounted(lib, cfgs, k)
    ensures ConnectionAccounted(lib, cfgs, OnCommand(lib, tr, k, command))
  {
    NothingAccounted(lib, cfgs, k.session.remoteIP, "", 0);
  }

  lemma OtherAccounted(lib: Library, tr: TriggerTest, cfgs: set<Config>, k: Connection, command: Command)
    requires !command.SendData? && !command.RcptTo? && ConnectionAccounted(lib, cfgs, k)
    ensures ConnectionAccounted(lib, cfgs, OnCommand(lib, tr, k, command))
  {
    var k' := OnCommand(lib, tr, k, command);
    NothingAccounted(lib, cfgs, k'.session.remoteIP, k'.session.mailFrom, k'.session.owner);
  }

  lemma EventAccounted(lib: Library, tr: TriggerTest, cfgs: set<Config>, k: Connection, e: Event)
    requires ConnectionAccounted(lib, cfgs, k) && (e.Reconfigure? ==> e.cfg in cfgs)
    ensures ConnectionAccounted(lib, cfgs, OnEvent(lib, tr, k, e))
  {
    if e.Receive? && k.open {
      match e.command {
        case RcptTo(recipient, greylist) =>
          if recipient.Some? {
            RcptAccounted(lib, tr, cfgs, k, recipient.value, greylist);
          }
        case SendData(_, _, _) => DataAccounted(lib, tr, cfgs, k, e.command);
        case _ => OtherAccounted(lib, tr, cfgs, k, e.command);
      }
    }
  }

  /**
   * Over every sequence of commands with the store changing at any time: every recipient, of the open envelope
   * and of each stored message, was routed when it was offered to the owner it now has, unless that is 0 and a
   * later recipient of the envelope fell back to the instance-wide mailbox.
   */
  lemma {:induction false} AnyConversation(lib: Library, tr: TriggerTest, cfgs: set<Config>, k: Connection,
                                           events: seq<Event>)
    requires ConnectionAccounted(lib, cfgs, k)
    requires forall i :: 0 <= i < |events| && events[i].Reconfigure? ==> events[i].cfg in cfgs
    ensures ConnectionAccounted(lib, cfgs, Converse(lib, tr, k, events))
    decreases |events|
  {
    if events != [] {
      EventAccounted(lib, tr, cfgs, k, events[0]);
      AnyConversation(lib, tr, cfgs, OnEvent(lib, tr, k, events[0]), events[1..]);
    }
  }

  /** The configurations in force at some time of a connection. */
  function Configs(cfg: Config, events: seq<Event>): set<Config> {
    {cfg} + set i | 0 <= i < |events| && events[i].Reconfigure? :: events[i].cfg
  }

  /** Each recipient was routed to the owner under some configuration that was in force. */
  ghost predicate AllRoutedOnce(lib: Library, cfgs: set<Config>, e: Envelope) {
    forall r :: r in e.rcptTo ==>
        exists cfg :: cfg in cfgs && Routed(lib, e.remoteIP, e.mailFrom, Admission(r, cfg, e.owner))
  }

  lemma UserOwnsAll(lib: Library, cfgs: set<Config>, e: Envelope)
    requires EnvelopeAccounted(lib, cfgs, e) && e.owner != 0
    ensures AllRoutedOnce(lib, cfgs, e)
  {
    var h: seq<Admission> :| Accounts(lib, cfgs, e.remoteIP, e.mailFrom, e.rcptTo, e.owner, h);
    forall r | r in e.rcptTo
        ensures exists cfg :: cfg in cfgs && Routed(lib, e.remoteIP, e.mailFrom, Admission(r, cfg, e.owner)) {
      var i :| 0 <= i < |e.rcptTo| && e.rcptTo[i] == r;
      assert h[i] == Admission(r, h[i].cfg, e.owner);
    }
  }

  /**
   * So it is over every connection from its start; a message stored for a user had all its recipients routed to that
   * user.
   */
  lemma AnyConnection(lib: Library, tr: TriggerTest, cfg: Config, remoteIP: string, events: seq<Event>)
    ensures var k := Converse(lib, tr, Connection(Fresh(remoteIP), cfg, true, []), events);
            && ConnectionAccounted(lib, Configs(cfg, events), k)
            && forall i :: 0 <= i < |k.stored| && k.stored[i].owner != 0 ==>
                  AllRoutedOnce(lib, Configs(cfg, events), k.stored[i])
  {
    var cfgs := Configs(cfg, events);
    NothingAccounted(lib, cfgs, remoteIP, "", 0);
    AnyConversation(lib, tr, cfgs, Connection(Fresh(remoteIP), cfg, true, []), events);
    var k := Converse(lib, tr, Connection(Fresh(remoteIP), cfg, true, []), events);
    forall i | 0 <= i < |k.stored| && k.stored[i].owner != 0 ensures AllRoutedOnce(lib, cfgs, k.stored[i]) {
      UserOwnsAll(lib, cfgs, k.stored[i]);
    }
  }

  // ---- How an owner is overwritten ----

  /** The instance-wide policy restricts nothing. */
  predicate OpenFallback(p: PolicyState) {
    Empty(p.rcpt) && Empty(p.from) && p.networks == [] && p.rules.None?
  }

  /** The only user is created, and deleted while a message to it is being addressed. */
  function Interrupted(lib: Library, b: Builder, first: Op, fallback: PolicyState, from: string, r1: string,
                       r2: string): seq<Event> {
    var gone := Run(lib, b, EMPTY_DB, [first, DeleteUser(1, Success(true, true, true))]);
    [Receive(Mail(Some(from), NoSize)), Receive(RcptTo(Some(r1), None)),
     Reconfigure(ConfigOf(b, gone, fallback)), Receive(RcptTo(Some(r2), None))]
  }

  lemma UserIsGone(lib: Library, b: Builder, first: Op)
    requires SoundBuilder(b) && Creates(first) && b(1, first.s).Some?
    ensures Run(lib, b, EMPTY_DB, [first]) == AddUser(EMPTY_DB, first.name, first.s)
    ensures var gone := Run(lib, b, EMPTY_DB, [first, DeleteUser(1, Success(true, true, true))]);
            gone.users == map[] && gone.admin.None? && PolicyUsers(b, gone) == Some(map[])
  {
    var one := AddUser(EMPTY_DB, first.name, first.s);
    var delete := DeleteUser(1, Success(true, true, true));
    FirstUser(lib, b, first);
    assert [first][1..] == [] && [first, delete][1..] == [delete] && [delete][1..] == [];
    assert one.users == map[1 := first.name];
    var gone := Step(lib, b, one, delete).0;
    assert Run(lib, b, EMPTY_DB, [first, delete]) == Run(lib, b, one, [delete]) == gone;
    assert gone.users == map[] && MailboxIds(gone) == {};
    assert PolicyUsers(b, gone).Some? && PolicyUsers(b, gone).value == map[];
  }

  lemma Unrolled(lib: Library, tr: TriggerTest, k: Connection, events: seq<Event>)
    requires |events| == 4
    ensures var k2 := OnEvent(lib, tr, OnEvent(lib, tr, k, events[0]), events[1]);
            && Converse(lib, tr, k, events[..2]) == k2
            && Converse(lib, tr, k, events) == OnEvent(lib, tr, OnEvent(lib, tr, k2, events[2]), events[3])
  {
    var e := events[..2];
    var k1 := OnEvent(lib, tr, k, events[0]);
    var k2 := OnEvent(lib, tr, k1, events[1]);
    var k3 := OnEvent(lib, tr, k2, events[2]);
    assert e[1..] == [events[1]] && e[1..][1..] == [];
    assert Converse(lib, tr, k, e) == Converse(lib, tr, k1, e[1..]) == Converse(lib, tr, k2, []);
    var t := events[1..][1..];
    assert t == [events[2], events[3]] && t[1..] == [events[3]] && t[1..][1..] == [];
    assert Converse(lib, tr, k, events) == Converse(lib, tr, k1, events[1..]) == Converse(lib, tr, k2, t);
    assert Converse(lib, tr, k2, t) == Converse(lib, tr, k3, t[1..])
        == Converse(lib, tr, OnEvent(lib, tr, k3, events[3]), []);
  }

  lemma FirstGoesToUser(lib: Library, tr: TriggerTest, k: Connection, p: PolicyState, recipient: string)
    requires k.open && k.cfg.policies == Some(map[1 := p]) && Unrestricted(p) && Matches(lib, p.rcpt, recipient)
    requires !k.session.ownerSet
    ensures OnRcptTo(lib, tr, k.cfg, k.session, recipient, None) == (k.session.(owner := 1, ownerSet := true), None)
  {
    var c := Candidates(lib, k.cfg.policies.value, k.session.remoteIP, k.session.mailFrom, recipient);
    assert 1 in k.cfg.policies.value && k.cfg.policies.value[1] == p;
    assert c == {1};
    OnlyMember(c);
  }

  /** The first recipient goes to the user; after the deletion the second turns the whole envelope over to owner 0. */
  lemma DeletionOverwrites(lib: Library, tr: TriggerTest, b: Builder, first: Op, rcpt: Matcher, fallback: PolicyState,
                           remoteIP: string, from: string, r1: string, r2: string)
    requires SoundBuilder(b) && Creates(first) && OpenMailbox(b, 1, first.s, rcpt) && !Empty(rcpt)
        && OpenFallback(fallback)
    requires Matches(lib, rcpt, r1)
    ensures var k := Connection(Fresh(remoteIP), ConfigOf(b, Run(lib, b, EMPTY_DB, [first]), fallback), true, []);
            var events := Interrupted(lib, b, first, fallback, from, r1, r2);
            && Converse(lib, tr, k, events[..2]).session == Session(remoteIP, from, [r1], 1, true)
            && Converse(lib, tr, k, events).session == Session(remoteIP, from, [r1, r2], 0, true)
  {
    UserIsGone(lib, b, first);
    OnePolicy(b, first.name, first.s, rcpt);
    var events := Interrupted(lib, b, first, fallback, from, r1, r2);
    var k := Connection(Fresh(remoteIP), ConfigOf(b, Run(lib, b, EMPTY_DB, [first]), fallback), true, []);
    var k1 := OnEvent(lib, tr, k, events[0]);
    var k2 := OnEvent(lib, tr, k1, events[1]);
    var k3 := OnEvent(lib, tr, k2, events[2]);
    FirstGoesToUser(lib, tr, k1, b(1, first.s).value, r1);
    var k4 := OnEvent(lib, tr, k3, events[3]);
    assert [] + [r1] == [r1] && [r1] + [r2] == [r1, r2];
    Unrolled(lib, tr, k, events);
  }
}
