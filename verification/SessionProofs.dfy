/** Every envelope has one owner, to whom each of its recipients was routed. */
module SessionProofs {
  import opened Text
  import opened SettingsLists
  import opened Settings
  import opened Policy
  import opened Mailboxes
  import opened Routing
  import opened MailFailRules
  import opened SessionModel
  import opened Sets
  import DataSpec
  import DataProofs

  // ---- Routing, apart from MailFail rules ----

  /** The instance-wide policy lets the recipient in. */
  predicate FallbackAccepts(lib: Library, p: PolicyState, remoteIP: string, mailFrom: string, recipient: string) {
    ConnectAllowed(lib, p, remoteIP) && (Empty(p.from) || Matches(lib, p.from, mailFrom))
    && (Empty(p.rcpt) || Matches(lib, p.rcpt, recipient))
  }

  /** `p`, the policy of mailbox `owner`, is the one that this recipient belongs to. */
  predicate RoutedTo(lib: Library, cfg: Config, remoteIP: string, mailFrom: string, recipient: string, owner: int,
                     p: PolicyState) {
    && cfg.policies.Some?
    && var policies := cfg.policies.value;
       var c := Candidates(lib, policies, remoteIP, mailFrom, recipient);
       || (c == {owner} && owner in policies && p == policies[owner])
       || (c == {} && policies == map[] && !cfg.managed && owner == 0 && p == cfg.fallback
           && FallbackAccepts(lib, p, remoteIP, mailFrom, recipient))
  }

  /** No two mailboxes and no two policies can both be the recipient's. */
  lemma RoutedToOne(lib: Library, cfg: Config, remoteIP: string, mailFrom: string, recipient: string,
                    o1: int, p1: PolicyState, o2: int, p2: PolicyState)
    requires RoutedTo(lib, cfg, remoteIP, mailFrom, recipient, o1, p1)
        && RoutedTo(lib, cfg, remoteIP, mailFrom, recipient, o2, p2)
    ensures o1 == o2 && p1 == p2
  {
    var c := Candidates(lib, cfg.policies.value, remoteIP, mailFrom, recipient);
    if c != {} {
      assert o1 in c && o2 in c;
    }
  }

  lemma OnlyMember(c: set<int>)
    ensures Only(c).Some? ==> c == {Only(c).value}
    ensures forall id :: c == {id} ==> Only(c) == Some(id)
  {
    forall id | c == {id} ensures Only(c) == Some(id) {
      assert id in c;
    }
  }

  /**
   * An accepted recipient was routed to the session's owner, whose policy DATA will consult; a refused one changes
   * nothing.
   */
  lemma AcceptedIsRouted(lib: Library, tr: TriggerTest, cfg: Config, s: Session, recipient: string,
                         greylist: Option<Reply>)
    ensures var (s', reply) := OnRcptTo(lib, tr, cfg, s, recipient, greylist);
            && (reply.Some? ==> s' == s)
            && (reply.None? ==>
                  && s' == s.(owner := s'.owner, ownerSet := true)
                  && MailboxState(cfg, s'.owner).Some?
                  && RoutedTo(lib, cfg, s.remoteIP, s.mailFrom, recipient, s'.owner, MailboxState(cfg, s'.owner).value))
  {
    if cfg.policies.Some? {
      OnlyMember(Candidates(lib, cfg.policies.value, s.remoteIP, s.mailFrom, recipient));
    }
  }

  // ---- The session invariant ----

  /** Every recipient of the envelope was routed to its owner, by the policy that DATA consults. */
  ghost predicate AllRouted(lib: Library, cfg: Config, remoteIP: string, mailFrom: string, rcptTo: seq<string>,
                            owner: int) {
    rcptTo != [] ==>
      && MailboxState(cfg, owner).Some?
      && forall i :: 0 <= i < |rcptTo| ==>
            RoutedTo(lib, cfg, remoteIP, mailFrom, rcptTo[i], owner, MailboxState(cfg, owner).value)
  }

  ghost predicate SessionInv(lib: Library, cfg: Config, s: Session) {
    && (s.rcptTo != [] <==> s.ownerSet)
    && (!s.ownerSet ==> s.owner == 0)
    && AllRouted(lib, cfg, s.remoteIP, s.mailFrom, s.rcptTo, s.owner)
  }

  /** Texts without CR or LF, each ended by CRLF, within the maximum size. */
  ghost predicate CanonicalBody(data: DataSpec.bytes) {
    |data| <= MAX_MESSAGE_SIZE
    && exists texts: seq<DataSpec.bytes> :: data == DataSpec.Message(texts)
          && forall i :: 0 <= i < |texts| ==> DataSpec.PlainText(texts[i])
  }

  lemma ReadIsCanonical(input: DataSpec.bytes)
    requires DataSpec.Read(input, MAX_MESSAGE_SIZE).0.Body?
    ensures CanonicalBody(DataSpec.Read(input, MAX_MESSAGE_SIZE).0.data)
  {
    var texts := DataProofs.AcceptedBody(input, MAX_MESSAGE_SIZE);
  }

  /** A stored message has a sender, recipients with one owner for all of them, and a canonical body. */
  ghost predicate EnvelopeInv(lib: Library, e: Envelope) {
    && e.mailFrom != "" && e.rcptTo != [] && CanonicalBody(e.data)
    && AllRouted(lib, e.cfg, e.remoteIP, e.mailFrom, e.rcptTo, e.owner)
  }

  ghost predicate ConnectionInv(lib: Library, k: Connection) {
    SessionInv(lib, k.cfg, k.session) && forall i :: 0 <= i < |k.stored| ==> EnvelopeInv(lib, k.stored[i])
  }

  /** With the store unchanged since the envelope began, accepting a further recipient keeps the owner. */
  lemma SameOwner(lib: Library, tr: TriggerTest, cfg: Config, s: Session, recipient: string, greylist: Option<Reply>)
    requires SessionInv(lib, cfg, s) && s.ownerSet && OnRcptTo(lib, tr, cfg, s, recipient, greylist).1.None?
    ensures OnRcptTo(lib, tr, cfg, s, recipient, greylist).0.owner == s.owner
  {
    assert RoutedTo(lib, cfg, s.remoteIP, s.mailFrom, s.rcptTo[0], s.owner, MailboxState(cfg, s.owner).value);
  }

  lemma RcptKeepsInv(lib: Library, tr: TriggerTest, cfg: Config, s: Session, recipient: string, greylist: Option<Reply>)
    requires SessionInv(lib, cfg, s)
    ensures var (s', reply) := OnRcptTo(lib, tr, cfg, s, recipient, greylist);
            SessionInv(lib, cfg, if reply.Some? then s' else s'.(rcptTo := s'.rcptTo + [recipient]))
  {
    AcceptedIsRouted(lib, tr, cfg, s, recipient, greylist);
    var (s', reply) := OnRcptTo(lib, tr, cfg, s, recipient, greylist);
    if reply.None? && s.ownerSet {
      SameOwner(lib, tr, cfg, s, recipient, greylist);
    }
  }

  lemma DataKeepsInv(lib: Library, k: Connection, data: DataSpec.DataResult, storeOk: bool)
    requires ConnectionInv(lib, k) && k.session.mailFrom != "" && k.session.rcptTo != []
    requires data.Body? ==> CanonicalBody(data.data)
    ensures ConnectionInv(lib, AfterData(k, data, storeOk))
  {
  }

  lemma RcptCommandKeepsInv(lib: Library, tr: TriggerTest, k: Connection, command: Command)
    requires command.RcptTo? && ConnectionInv(lib, k)
    ensures ConnectionInv(lib, OnCommand(lib, tr, k, command))
  {
    if command.recipient.Some? {
      RcptKeepsInv(lib, tr, k.cfg, k.session, command.recipient.value, command.greylist);
    }
  }

  lemma DataCommandKeepsInv(lib: Library, tr: TriggerTest, k: Connection, command: Command)
    requires command.SendData? && ConnectionInv(lib, k)
    ensures ConnectionInv(lib, OnCommand(lib, tr, k, command))
  {
    var data := DataSpec.Read(command.input, MAX_MESSAGE_SIZE).0;
    var k' := OnCommand(lib, tr, k, command);
    if k' != k {
      if data.Body? {
        ReadIsCanonical(command.input);
      }
      DataKeepsInv(lib, k, data, command.storeOk);
      assert k' == AfterData(k, data, command.storeOk);
    }
  }

  lemma OtherCommandKeepsInv(lib: Library, tr: TriggerTest, k: Connection, command: Command)
    requires !command.SendData? && !command.RcptTo? && ConnectionInv(lib, k)
    ensures ConnectionInv(lib, OnCommand(lib, tr, k, command))
  {
  }

  lemma CommandKeepsInv(lib: Library, tr: TriggerTest, k: Connection, command: Command)
    requires ConnectionInv(lib, k)
    ensures ConnectionInv(lib, OnCommand(lib, tr, k, command))
  {
    match command {
      case RcptTo(_, _) => RcptCommandKeepsInv(lib, tr, k, command);
      case SendData(_, _, _) => DataCommandKeepsInv(lib, tr, k, command);
      case _ => OtherCommandKeepsInv(lib, tr, k, command);
    }
  }

  /** The store changes only while no envelope is open. */
  ghost predicate Steady(lib: Library, tr: TriggerTest, k: Connection, events: seq<Event>)
    decreases |events|
  {
    events != [] ==>
      && (events[0].Reconfigure? ==> k.session.rcptTo == [])
      && Steady(lib, tr, OnEvent(lib, tr, k, events[0]), events[1..])
  }

  /**
   * Over every sequence of commands, with the store fixed during an envelope: the session has
   * recipients exactly when it has an owner, all of them routed to that owner under the current
   * sender, and every stored message carries the owner and the recipients of its envelope.
   */
  lemma {:induction false} EveryConversation(lib: Library, tr: TriggerTest, k: Connection, events: seq<Event>)
    requires ConnectionInv(lib, k) && Steady(lib, tr, k, events)
    ensures ConnectionInv(lib, Converse(lib, tr, k, events))
    decreases |events|
  {
    if events != [] {
      match events[0] {
        case Receive(command) => CommandKeepsInv(lib, tr, k, command);
        case Reconfigure(cfg) =>
      }
      EveryConversation(lib, tr, OnEvent(lib, tr, k, events[0]), events[1..]);
    }
  }

  /** So it does over every connection, from its start. */
  lemma EveryConnection(lib: Library, tr: TriggerTest, cfg: Config, remoteIP: string, events: seq<Event>)
    requires Steady(lib, tr, Connection(Fresh(remoteIP), cfg, true, []), events)
    ensures ConnectionInv(lib, Converse(lib, tr, Connection(Fresh(remoteIP), cfg, true, []), events))
  {
    EveryConversation(lib, tr, Connection(Fresh(remoteIP), cfg, true, []), events);
  }

  /** What one DATA command stores is exactly the envelope collected so far. */
  lemma StoredEnvelope(lib: Library, tr: TriggerTest, k: Connection, command: Command)
    requires ConnectionInv(lib, k)
    ensures var k' := OnCommand(lib, tr, k, command);
            || k'.stored == k.stored
            || (&& command.SendData? && DataSpec.Read(command.input, MAX_MESSAGE_SIZE).0.Body?
                && k'.stored == k.stored + [Envelope(k.session.owner, k.session.mailFrom, k.session.rcptTo,
                                                     k.session.remoteIP,
                                                     DataSpec.Read(command.input, MAX_MESSAGE_SIZE).0.data, k.cfg)]
                && EnvelopeInv(lib, k'.stored[|k.stored|]) && k'.session == Fresh(k.session.remoteIP))
  {
    CommandKeepsInv(lib, tr, k, command);
  }

  /** The owner of a stored message is the admin mailbox or a user of the store that routed it. */
  lemma OwnerExists(lib: Library, b: Builder, db: Db, fallback: PolicyState, remoteIP: string, mailFrom: string,
                    recipient: string, owner: int, p: PolicyState)
    requires RoutedTo(lib, ConfigOf(b, db, fallback), remoteIP, mailFrom, recipient, owner, p)
    ensures owner == 0 || owner in db.users
  {
  }

  // ---- Routing from a store that service calls have filled ----

  /** What a MailFail rule of some policy answers to the recipient. */
  predicate IsRulesReply(tr: TriggerTest, p: PolicyState, recipient: string, greylist: Option<Reply>,
                         reply: Option<Reply>) {
    reply.Some? && reply == RulesReply(tr, p, recipient, greylist)
  }

  /** The server's own replies to RCPT are told apart by code and text. */
  lemma TextsDiffer()
    ensures AMBIGUOUS.text != "Recipient not allowed" && AMBIGUOUS.text != "Sender domain not allowed"
    ensures AMBIGUOUS.text != "Recipient domain not allowed"
        && AMBIGUOUS.text != "Recipient belongs to a different user"
  {
    assert |"Recipient is ambiguous for configured users"| == 43;
    assert |"Recipient belongs to a different user"| == 37;
    assert |"Recipient not allowed"| == 21 && |"Sender domain not allowed"| == 25
        && |"Recipient domain not allowed"| == 28;
  }

  lemma UnambiguousReply(lib: Library, tr: TriggerTest, cfg: Config, s: Session, recipient: string,
                         greylist: Option<Reply>)
    requires cfg.policies.Some?
    requires var c := Candidates(lib, cfg.policies.value, s.remoteIP, s.mailFrom, recipient);
             c == {} || exists id :: c == {id}
    ensures var reply := OnRcptTo(lib, tr, cfg, s, recipient, greylist).1;
            reply == Some(LOOKUP_FAILED) || reply == Some(AMBIGUOUS) ==>
                exists p :: IsRulesReply(tr, p, recipient, greylist, reply)
  {
    var c := Candidates(lib, cfg.policies.value, s.remoteIP, s.mailFrom, recipient);
    var reply := OnRcptTo(lib, tr, cfg, s, recipient, greylist).1;
    if reply == Some(LOOKUP_FAILED) || reply == Some(AMBIGUOUS) {
      TextsDiffer();
      if c == {} {
        assert IsRulesReply(tr, cfg.fallback, recipient, greylist, reply);
      } else {
        OnlyMember(c);
        var id :| c == {id};
        assert id in c;
        assert IsRulesReply(tr, cfg.policies.value[id], recipient, greylist, reply);
      }
    }
  }

  /**
   * In every state reached from the empty store by service calls, if no mailbox uses patterns: no
   * recipient is answered with the lookup failure or as ambiguous, unless a MailFail rule says just that.
   */
  lemma NeverAmbiguous(lib: Library, tr: TriggerTest, b: Builder, ops: seq<Op>, fallback: PolicyState, s: Session,
                       recipient: string, greylist: Option<Reply>)
    requires ReadsDomains(lib) && SoundBuilder(b)
    requires forall id :: id in ReachedPolicies(lib, b, ops) ==> ExactOnly(ReachedPolicies(lib, b, ops)[id].rcpt)
    ensures var reply := OnRcptTo(lib, tr, ConfigOf(b, Run(lib, b, EMPTY_DB, ops), fallback), s, recipient, greylist).1;
            reply == Some(LOOKUP_FAILED) || reply == Some(AMBIGUOUS) ==>
                exists p :: IsRulesReply(tr, p, recipient, greylist, reply)
  {
    LookupSucceeds(lib, b, ops);
    AtMostOneCandidate(lib, b, ops, s.remoteIP, s.mailFrom, recipient);
    UnambiguousReply(lib, tr, ConfigOf(b, Run(lib, b, EMPTY_DB, ops), fallback), s, recipient, greylist);
  }

  /** The recipient has more than one candidate. */
  ghost predicate Contested(c: set<int>) {
    exists i, j :: i in c && j in c && i != j
  }

  lemma Uncontested(c: set<int>)
    requires !Contested(c)
    ensures c == {} || exists id :: c == {id}
  {
    if c != {} {
      NonEmptyIds(c);
      var id :| id in c;
      assert forall x :: x in c ==> x == id;
      assert c == {id};
    }
  }

  lemma ContestedReply(lib: Library, tr: TriggerTest, cfg: Config, s: Session, recipient: string,
                       greylist: Option<Reply>)
    requires cfg.policies.Some?
    ensures var c := Candidates(lib, cfg.policies.value, s.remoteIP, s.mailFrom, recipient);
            var reply := OnRcptTo(lib, tr, cfg, s, recipient, greylist).1;
            && (Contested(c) ==> reply == Some(AMBIGUOUS))
            && (reply == Some(AMBIGUOUS) ==>
                  Contested(c) || exists p :: IsRulesReply(tr, p, recipient, greylist, reply))
  {
    var c := Candidates(lib, cfg.policies.value, s.remoteIP, s.mailFrom, recipient);
    if Contested(c) {
      OnlyMember(c);
    } else {
      Uncontested(c);
      UnambiguousReply(lib, tr, cfg, s, recipient, greylist);
    }
  }

  /**
   * In every state reached from the empty store by service calls, patterns or not: a recipient is answered as
   * ambiguous exactly if it has two candidates (but for a MailFail rule with that very text), and all of them
   * are pairs that the ownership check does not notice.
   */
  lemma AmbiguousIff(lib: Library, tr: TriggerTest, b: Builder, ops: seq<Op>, fallback: PolicyState, s: Session,
                     recipient: string, greylist: Option<Reply>)
    requires SoundBuilder(b)
    ensures var policies := ReachedPolicies(lib, b, ops);
            var c := Candidates(lib, policies, s.remoteIP, s.mailFrom, recipient);
            var reply := OnRcptTo(lib, tr, ConfigOf(b, Run(lib, b, EMPTY_DB, ops), fallback), s, recipient, greylist).1;
            && (Contested(c) ==> reply == Some(AMBIGUOUS))
            && (reply == Some(AMBIGUOUS) ==>
                  Contested(c) || exists p :: IsRulesReply(tr, p, recipient, greylist, reply))
            && forall i, j :: i in c && j in c && i != j ==>
                  Unnoticed(lib, policies[i].rcpt, policies[j].rcpt, recipient)
  {
    var policies := ReachedPolicies(lib, b, ops);
    var c := Candidates(lib, policies, s.remoteIP, s.mailFrom, recipient);
    var cfg := ConfigOf(b, Run(lib, b, EMPTY_DB, ops), fallback);
    LookupSucceeds(lib, b, ops);
    forall i, j | i in c && j in c && i != j ensures Unnoticed(lib, policies[i].rcpt, policies[j].rcpt, recipient) {
      CandidatesAreUnnoticed(lib, b, ops, s.remoteIP, s.mailFrom, recipient, i, j);
    }
    ContestedReply(lib, tr, cfg, s, recipient, greylist);
  }

  // ---- Two users whose recipients the probe does not compare ----

  /** The policy restricts nothing but the recipients. */
  predicate Unrestricted(p: PolicyState) {
    !Empty(p.rcpt) && Empty(p.from) && p.networks == [] && p.rules.None?
  }

  ghost predicate OpenMailbox(b: Builder, id: int, s: AppSettings, rcpt: Matcher) {
    b(id, s).Some? && b(id, s).value.rcpt == rcpt && Unrestricted(b(id, s).value)
  }

  /** Nothing but the ownership check can refuse the call. */
  predicate Creates(op: Op) {
    op.CreateUser? && op.name != "" && op.password != "" && !SameName(op.name, op.reserved) && op.ok.password
        && op.ok.write
  }

  lemma FirstUser(lib: Library, b: Builder, op: Op)
    requires SoundBuilder(b) && Creates(op) && b(1, op.s).Some?
    ensures Step(lib, b, EMPTY_DB, op).0 == AddUser(EMPTY_DB, op.name, op.s)
  {
  }

  lemma SecondUser(lib: Library, b: Builder, db: Db, first: Op, op: Op)
    requires SoundBuilder(b) && Creates(first) && Creates(op) && !SameName(first.name, op.name)
    requires b(1, first.s).Some? && b(2, op.s).Some? && !Empty(b(2, op.s).value.rcpt)
    requires db == AddUser(EMPTY_DB, first.name, first.s)
    ensures Step(lib, b, db, op).0 ==
              if Overlaps(lib, b(2, op.s).value.rcpt, b(1, first.s).value.rcpt) then db else AddUser(db, op.name, op.s)
  {
    assert db.users == map[1 := first.name] && db.settings == map[1 := first.s];
    assert b(-1, op.s).value.rcpt == b(2, op.s).value.rcpt;
    assert 1 in db.users && SettingsOf(db, 1) == first.s;
    assert FreeOf(lib, b(-1, op.s).value, b(1, first.s)) <==> OwnershipFree(lib, b, db, -1, op.s);
  }

  /**
   * Among mailboxes that restrict nothing but recipients, the reply is the ambiguous one exactly if two of them
   * match.
   */
  lemma OpenReply(lib: Library, tr: TriggerTest, cfg: Config, s: Session, recipient: string, greylist: Option<Reply>)
    requires cfg.policies.Some? && cfg.managed
    requires forall id :: id in cfg.policies.value ==> Unrestricted(cfg.policies.value[id])
    ensures OnRcptTo(lib, tr, cfg, s, recipient, greylist).1 == Some(AMBIGUOUS) <==>
              exists i, j :: i in cfg.policies.value && j in cfg.policies.value && i != j
                && Matches(lib, cfg.policies.value[i].rcpt, recipient)
                      && Matches(lib, cfg.policies.value[j].rcpt, recipient)
  {
    var policies := cfg.policies.value;
    var c := Candidates(lib, policies, s.remoteIP, s.mailFrom, recipient);
    assert forall id :: id in c <==> id in policies && Matches(lib, policies[id].rcpt, recipient);
    TextsDiffer();
    OnlyMember(c);
    if Only(c).None? && c != {} {
      NonEmptyIds(c);
      var i :| i in c;
      assert c != {i};
      assert (forall x :: x in c ==> x == i) ==> c == {i};
      var j :| j in c && j != i;
    }
  }

  lemma OnePolicy(b: Builder, name: string, s: AppSettings, rcpt: Matcher)
    requires OpenMailbox(b, 1, s, rcpt) && !Empty(rcpt)
    ensures PolicyUsers(b, AddUser(EMPTY_DB, name, s)) == Some(map[1 := b(1, s).value])
  {
    var db := AddUser(EMPTY_DB, name, s);
    assert db.users == map[1 := name] && db.settings == map[1 := s];
    assert MailboxIds(db) == {1} && MailboxSettings(db, 1) == Some(s);
    assert PolicyUsers(b, db).Some? && Routable(b, db, 1);
    assert PolicyUsers(b, db).value == map[1 := b(1, s).value];
  }

  lemma TwoPolicies(b: Builder, name1: string, name2: string, s1: AppSettings, s2: AppSettings, rcpt1: Matcher,
                    rcpt2: Matcher)
    requires OpenMailbox(b, 1, s1, rcpt1) && !Empty(rcpt1) && OpenMailbox(b, 2, s2, rcpt2) && !Empty(rcpt2)
    ensures PolicyUsers(b, AddUser(AddUser(EMPTY_DB, name1, s1), name2, s2))
        == Some(map[1 := b(1, s1).value, 2 := b(2, s2).value])
  {
    var db := AddUser(AddUser(EMPTY_DB, name1, s1), name2, s2);
    assert db.users == map[1 := name1, 2 := name2] && db.settings == map[1 := s1, 2 := s2];
    assert MailboxIds(db) == {1, 2} && MailboxSettings(db, 1) == Some(s1) && MailboxSettings(db, 2) == Some(s2);
    assert PolicyUsers(b, db).Some? && Routable(b, db, 1) && Routable(b, db, 2);
    assert PolicyUsers(b, db).value == map[1 := b(1, s1).value, 2 := b(2, s2).value];
  }

  lemma OneReply(lib: Library, tr: TriggerTest, cfg: Config, p1: PolicyState, s: Session, recipient: string,
                 greylist: Option<Reply>)
    requires cfg.managed && cfg.policies == Some(map[1 := p1]) && Unrestricted(p1)
    ensures OnRcptTo(lib, tr, cfg, s, recipient, greylist).1 != Some(AMBIGUOUS)
  {
    OpenReply(lib, tr, cfg, s, recipient, greylist);
  }

  lemma TwoReply(lib: Library, tr: TriggerTest, cfg: Config, p1: PolicyState, p2: PolicyState, s: Session,
                 recipient: string, greylist: Option<Reply>)
    requires cfg.managed && cfg.policies == Some(map[1 := p1, 2 := p2]) && Unrestricted(p1) && Unrestricted(p2)
    ensures OnRcptTo(lib, tr, cfg, s, recipient, greylist).1 == Some(AMBIGUOUS) <==>
              Matches(lib, p1.rcpt, recipient) && Matches(lib, p2.rcpt, recipient)
  {
    var policies := cfg.policies.value;
    assert 1 in policies && policies[1] == p1 && 2 in policies && policies[2] == p2;
    OpenReply(lib, tr, cfg, s, recipient, greylist);
  }

  lemma TwoCreations(lib: Library, b: Builder, first: Op, second: Op, l: Matcher, r: Matcher)
    requires SoundBuilder(b) && Creates(first) && Creates(second) && !SameName(first.name, second.name)
    requires OpenMailbox(b, 1, first.s, l) && OpenMailbox(b, 2, second.s, r) && !Empty(l) && !Empty(r)
    ensures var db := Run(lib, b, EMPTY_DB, [first, second]);
            && db.users != map[]
            && PolicyUsers(b, db) == Some(if Overlaps(lib, l, r) then map[1 := b(1, first.s).value]
                                          else map[1 := b(1, first.s).value, 2 := b(2, second.s).value])
  {
    var one := AddUser(EMPTY_DB, first.name, first.s);
    var db := Run(lib, b, EMPTY_DB, [first, second]);
    FirstUser(lib, b, first);
    SecondUser(lib, b, one, first, second);
    OverlapsSymmetric(lib, l, r);
    assert [first, second][1..] == [second] && [second][1..] == [];
    assert db == Run(lib, b, one, [second]) == Step(lib, b, one, second).0;
    OnePolicy(b, first.name, first.s, l);
    TwoPolicies(b, first.name, second.name, first.s, second.s, l, r);
    assert 1 in one.users && 1 in db.users;
  }

  /**
   * An administrator creates two users who restrict nothing but the recipients. A recipient is then answered
   * as ambiguous exactly if both accept it and the ownership check did not notice.
   */
  lemma UnnoticedIsAmbiguous(lib: Library, tr: TriggerTest, b: Builder, first: Op, second: Op, l: Matcher, r: Matcher,
                             fallback: PolicyState, s: Session, recipient: string, greylist: Option<Reply>)
    requires SoundBuilder(b) && Creates(first) && Creates(second) && !SameName(first.name, second.name)
    requires OpenMailbox(b, 1, first.s, l) && OpenMailbox(b, 2, second.s, r) && !Empty(l) && !Empty(r)
    ensures var db := Run(lib, b, EMPTY_DB, [first, second]);
            OnRcptTo(lib, tr, ConfigOf(b, db, fallback), s, recipient, greylist).1 == Some(AMBIGUOUS) <==>
              Unnoticed(lib, l, r, recipient)
  {
    var cfg := ConfigOf(b, Run(lib, b, EMPTY_DB, [first, second]), fallback);
    TwoCreations(lib, b, first, second, l, r);
    if Overlaps(lib, l, r) {
      OneReply(lib, tr, cfg, b(1, first.s).value, s, recipient, greylist);
    } else {
      TwoReply(lib, tr, cfg, b(1, first.s).value, b(2, second.s).value, s, recipient, greylist);
    }
  }

  // ---- An input the program receives ----

  /** Settings that only say which recipients the mailbox accepts. */
  function RcptSettings(domains: string): AppSettings {
    NO_SETTINGS.(acceptedRcptDomains := domains)
  }

  lemma RcptPolicy(lib: Library, id: int, item: string)
    requires IsItem(item, IsComma) && lib.networksParse([]) && NewMatcher(lib, [item]).Some?
    ensures BuildState(lib, id, RcptSettings(item)) ==
              Some(PolicyState(id, NewMatcher(lib, [item]).value, Matcher({}, []), [], None, ""))
  {
    TrimFixed("");
    TrimFixed(item);
    SplitWhole(item, IsComma);
    CleanKeeps([item]);
    assert PolicyList(item) == [item] && PolicyList("") == [];
  }

  lemma DomainField(d: string)
    requires d == "b.test"
    ensures IsItem(d, IsComma) && IsPlainDomain(d)
  {
    BobIsAtDomain("bob@b.test", d);
  }

  lemma PatternField(pattern: string)
    requires pattern == "^bob@"
    ensures IsItem(pattern, IsComma) && LowerTrim(pattern) == pattern && !IsPlainDomain(pattern)
  {
    TrimFixed(pattern);
    assert Lower(pattern) == pattern;
    assert !DomainChar(pattern[0]);
  }

  /**
   * Settings the program accepts: one user with the field b.test and one with the field ^bob@. Mail to
   * bob@b.test is then refused as ambiguous.
   */
  lemma BobIsAmbiguous(tr: TriggerTest, first: Op, second: Op, fallback: PolicyState, s: Session,
                       bob: string, greylist: Option<Reply>)
    requires Creates(first) && Creates(second) && !SameName(first.name, second.name)
    requires first.s == RcptSettings("b.test") && second.s == RcptSettings("^bob@") && bob == "bob@b.test"
    ensures var b := BuilderOf(PREFIX_PATTERNS);
            var db := Run(PREFIX_PATTERNS, b, EMPTY_DB, [first, second]);
            OnRcptTo(PREFIX_PATTERNS, tr, ConfigOf(b, db, fallback), s, bob, greylist).1 == Some(AMBIGUOUS)
  {
    var lib := PREFIX_PATTERNS;
    var b := BuilderOf(lib);
    BuilderIsSound(lib);
    DomainField("b.test");
    PatternField("^bob@");
    OnePlainDomain(lib, "b.test");
    OnePattern(lib, "^bob@");
    RcptPolicy(lib, 1, "b.test");
    RcptPolicy(lib, 2, "^bob@");
    assert b(1, first.s) == BuildState(lib, 1, first.s) && b(2, second.s) == BuildState(lib, 2, second.s);
    BobIsUnnoticed(bob, "b.test", "^bob@");
    UnnoticedIsAmbiguous(lib, tr, b, first, second, Matcher({"b.test"}, []), Matcher({}, ["^bob@"]), fallback, s, bob,
                         greylist);
  }

  // ---- When the store changes during an envelope ----

  /**
   * Accepting a further recipient keeps the envelope's owner exactly unless the recipient falls back
   * to the instance-wide policy while the envelope belongs to a user: the fallback does not check.
   */
  lemma OwnerKept(lib: Library, tr: TriggerTest, cfg: Config, s: Session, recipient: string, greylist: Option<Reply>)
    requires s.ownerSet && OnRcptTo(lib, tr, cfg, s, recipient, greylist).1.None?
    ensures OnRcptTo(lib, tr, cfg, s, recipient, greylist).0.owner == s.owner
       <==> Candidates(lib, cfg.policies.value, s.remoteIP, s.mailFrom, recipient) != {} || s.owner == 0
  {
  }

  /** The last mailbox disappears during an envelope: the next recipient turns it over to the admin mailbox. */
  lemma OwnerLost(lib: Library, tr: TriggerTest, s: Session, recipient: string)
    requires s.ownerSet && s.owner != 0 && s.rcptTo != []
    ensures var none := Matcher({}, []);
            var cfg := Config(Some(map[]), false, PolicyState(0, none, none, [], None, ""));
            var k := Connection(s, cfg, true, []);
            var k' := OnCommand(lib, tr, k, RcptTo(Some(recipient), None));
            k'.session.owner == 0 && k'.session.rcptTo == s.rcptTo + [recipient]
  {
  }
}
