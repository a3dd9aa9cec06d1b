/**
 * When recipients and messages are accepted, and what every command does, said without the functions of the session.
 */
module SessionLaws {
  import opened Text
  import opened Policy
  import opened Routing
  import opened MailFailRules
  import opened MailFailProofs
  import opened SessionModel
  import opened SessionProofs
  import opened Sets
  import DataSpec

  // ---- Rules that answer ----

  /** What a deciding rule tells the client; `greylist` is the engine's answer if the rule asks it. */
  function RuleSays(rule: Rule, greylist: Option<Reply>): Option<Reply> {
    if rule.action == Greylist then greylist
    else Some(Reply(rule.code, if rule.enhancedCode == "" then rule.message
        else rule.enhancedCode + " " + rule.message))
  }

  /** The policy's first deciding rule of the stage, if there is one, says this to the client. */
  ghost predicate Says(tr: TriggerTest, p: PolicyState, stage: Stage, address: string, greylist: Option<Reply>,
                       reply: Option<Reply>) {
    if p.rules.None? || forall k :: !FirstDecides(tr, p.rules.value, stage, address, k) then reply == None
    else exists k :: FirstDecides(tr, p.rules.value, stage, address, k) && reply == RuleSays(p.rules.value[k], greylist)
  }

  ghost predicate Silent(tr: TriggerTest, p: PolicyState, stage: Stage, address: string, greylist: Option<Reply>) {
    Says(tr, p, stage, address, greylist, None)
  }

  lemma RulesSay(tr: TriggerTest, p: PolicyState, stage: Stage, address: string, greylist: Option<Reply>)
    ensures p.rules.Some? ==>
              Says(tr, p, stage, address, greylist, Answer(MatchRules(tr, p.rules.value, stage, address), greylist))
    ensures p.rules.None? ==> Silent(tr, p, stage, address, greylist)
  {
    if p.rules.Some? {
      FirstVerdict(tr, p.rules.value, stage, address);
    }
  }

  lemma SaysOne(tr: TriggerTest, p: PolicyState, stage: Stage, address: string, greylist: Option<Reply>,
                a: Option<Reply>, b: Option<Reply>)
    requires Says(tr, p, stage, address, greylist, a) && Says(tr, p, stage, address, greylist, b)
    ensures a == b
  {
  }

  // ---- When a recipient is accepted ----

  /** The policy admits the connection and the sender. */
  predicate Admits(lib: Library, p: PolicyState, remoteIP: string, mailFrom: string) {
    && (p.networks == [] || lib.inNetworks(p.networks, remoteIP))
    && (p.from == Matcher({}, []) || Matches(lib, p.from, mailFrom))
  }

  /** The mailbox takes the recipient; one without recipients of its own does so only if no other has any. */
  predicate Takes(lib: Library, policies: map<int, PolicyState>, s: Session, recipient: string, id: int) {
    && id in policies && Admits(lib, policies[id], s.remoteIP, s.mailFrom)
    && (if policies[id].rcpt != Matcher({}, []) then Matches(lib, policies[id].rcpt, recipient)
        else forall j :: j in policies ==> policies[j].rcpt == Matcher({}, []))
  }

  ghost predicate OnlyTaker(lib: Library, policies: map<int, PolicyState>, s: Session, recipient: string, id: int) {
    Takes(lib, policies, s, recipient, id) && forall j :: Takes(lib, policies, s, recipient, j) ==> j == id
  }

  lemma TakersAreCandidates(lib: Library, policies: map<int, PolicyState>, s: Session, recipient: string)
    ensures forall id :: id in Candidates(lib, policies, s.remoteIP, s.mailFrom, recipient) <==>
              Takes(lib, policies, s, recipient, id)
  {
  }

  lemma OnlyTakerIsOnly(lib: Library, policies: map<int, PolicyState>, s: Session, recipient: string, id: int)
    ensures OnlyTaker(lib, policies, s, recipient, id) <==>
              Candidates(lib, policies, s.remoteIP, s.mailFrom, recipient) == {id}
  {
    TakersAreCandidates(lib, policies, s, recipient);
    var c := Candidates(lib, policies, s.remoteIP, s.mailFrom, recipient);
    if OnlyTaker(lib, policies, s, recipient, id) {
      assert forall j :: j in c <==> j == id;
    }
  }

  /** A mailbox owns the recipient, and its rules do not answer. */
  ghost predicate MailboxAccepts(lib: Library, tr: TriggerTest, policies: map<int, PolicyState>, s: Session,
                                 recipient: string, greylist: Option<Reply>, id: int) {
    && OnlyTaker(lib, policies, s, recipient, id) && (s.ownerSet ==> s.owner == id)
    && Silent(tr, policies[id], Rcpt, recipient, greylist)
  }

  /** Nothing is managed, and the instance-wide policy has no objection. */
  ghost predicate InstanceAccepts(lib: Library, tr: TriggerTest, cfg: Config, s: Session, recipient: string,
                                  greylist: Option<Reply>) {
    && cfg.policies == Some(map[]) && !cfg.managed && Admits(lib, cfg.fallback, s.remoteIP, s.mailFrom)
    && (cfg.fallback.rcpt == Matcher({}, []) || Matches(lib, cfg.fallback.rcpt, recipient))
    && Silent(tr, cfg.fallback, Rcpt, recipient, greylist)
  }

  lemma MailboxCase(lib: Library, tr: TriggerTest, cfg: Config, s: Session, recipient: string, greylist: Option<Reply>,
                    id: int)
    requires cfg.policies.Some? && OnlyTaker(lib, cfg.policies.value, s, recipient, id)
    ensures OnRcptTo(lib, tr, cfg, s, recipient, greylist).1.None? <==>
              MailboxAccepts(lib, tr, cfg.policies.value, s, recipient, greylist, id)
    ensures OnRcptTo(lib, tr, cfg, s, recipient, greylist).1.None? ==>
              OnRcptTo(lib, tr, cfg, s, recipient, greylist).0 == s.(owner := id, ownerSet := true)
  {
    var policies := cfg.policies.value;
    OnlyTakerIsOnly(lib, policies, s, recipient, id);
    OnlyMember(Candidates(lib, policies, s.remoteIP, s.mailFrom, recipient));
    RulesSay(tr, policies[id], Rcpt, recipient, greylist);
    var reply := RulesReply(tr, policies[id], recipient, greylist);
    if Silent(tr, policies[id], Rcpt, recipient, greylist) {
      SaysOne(tr, policies[id], Rcpt, recipient, greylist, reply, None);
    }
  }

  lemma InstanceCase(lib: Library, tr: TriggerTest, cfg: Config, s: Session, recipient: string, greylist: Option<Reply>)
    requires cfg.policies == Some(map[]) && !cfg.managed
    ensures OnRcptTo(lib, tr, cfg, s, recipient, greylist).1.None? <==>
              InstanceAccepts(lib, tr, cfg, s, recipient, greylist)
    ensures OnRcptTo(lib, tr, cfg, s, recipient, greylist).1.None? ==>
              OnRcptTo(lib, tr, cfg, s, recipient, greylist).0 == s.(owner := 0, ownerSet := true)
  {
    assert Candidates(lib, map[], s.remoteIP, s.mailFrom, recipient) == {};
    RulesSay(tr, cfg.fallback, Rcpt, recipient, greylist);
    var reply := RulesReply(tr, cfg.fallback, recipient, greylist);
    if Silent(tr, cfg.fallback, Rcpt, recipient, greylist) {
      SaysOne(tr, cfg.fallback, Rcpt, recipient, greylist, reply, None);
    }
  }

  lemma NobodyCase(lib: Library, tr: TriggerTest, cfg: Config, s: Session, recipient: string, greylist: Option<Reply>)
    requires cfg.policies.Some? ==> forall id :: !OnlyTaker(lib, cfg.policies.value, s, recipient, id)
    requires cfg.policies != Some(map[]) || cfg.managed
    ensures OnRcptTo(lib, tr, cfg, s, recipient, greylist).1.Some?
  {
    if cfg.policies.Some? {
      var c := Candidates(lib, cfg.policies.value, s.remoteIP, s.mailFrom, recipient);
      OnlyMember(c);
      if Only(c).Some? {
        OnlyTakerIsOnly(lib, cfg.policies.value, s, recipient, Only(c).value);
      }
    }
  }

  /**
   * A recipient is accepted exactly if one mailbox takes it, which owns the envelope if it has an owner, or nothing
   * is managed and the instance-wide policy takes it; and that policy's first deciding RCPT rule does not answer.
   */
  lemma AcceptedIff(lib: Library, tr: TriggerTest, cfg: Config, s: Session, recipient: string, greylist: Option<Reply>)
    ensures OnRcptTo(lib, tr, cfg, s, recipient, greylist).1.None? <==>
              || (cfg.policies.Some?
                    && exists id :: MailboxAccepts(lib, tr, cfg.policies.value, s, recipient, greylist, id))
              || InstanceAccepts(lib, tr, cfg, s, recipient, greylist)
  {
    if cfg.policies.Some? && exists id :: OnlyTaker(lib, cfg.policies.value, s, recipient, id) {
      var id :| OnlyTaker(lib, cfg.policies.value, s, recipient, id);
      MailboxCase(lib, tr, cfg, s, recipient, greylist, id);
    } else if cfg.policies == Some(map[]) && !cfg.managed {
      InstanceCase(lib, tr, cfg, s, recipient, greylist);
    } else {
      NobodyCase(lib, tr, cfg, s, recipient, greylist);
    }
  }

  /** What a mailbox's recipient is told, and what one that no mailbox or more than one takes is told. */
  lemma ReplyLaw(lib: Library, tr: TriggerTest, cfg: Config, s: Session, recipient: string, greylist: Option<Reply>,
                 id: int)
    requires cfg.policies.Some?
    ensures var policies := cfg.policies.value;
            var reply := OnRcptTo(lib, tr, cfg, s, recipient, greylist).1;
            && (OnlyTaker(lib, policies, s, recipient, id) && s.ownerSet && s.owner != id ==>
                  reply == Some(Reply(550, "Recipient belongs to a different user")))
            && (OnlyTaker(lib, policies, s, recipient, id) && !(s.ownerSet && s.owner != id) ==>
                  Says(tr, policies[id], Rcpt, recipient, greylist, reply))
            && ((forall j :: !Takes(lib, policies, s, recipient, j)) && (policies != map[] || cfg.managed) ==>
                  reply == Some(Reply(550, "Recipient not allowed")))
            && ((exists i, j :: Takes(lib, policies, s, recipient, i) && Takes(lib, policies, s, recipient, j)
                  && i != j) ==>
                  reply == Some(Reply(550, "Recipient is ambiguous for configured users")))
  {
    var policies := cfg.policies.value;
    var c := Candidates(lib, policies, s.remoteIP, s.mailFrom, recipient);
    TakersAreCandidates(lib, policies, s, recipient);
    OnlyTakerIsOnly(lib, policies, s, recipient, id);
    OnlyMember(c);
    if id in policies {
      RulesSay(tr, policies[id], Rcpt, recipient, greylist);
    }
    if c != {} {
      NonEmptyIds(c);
    }
  }

  /** What the instance-wide policy tells a recipient when nothing is managed, and the reply to a failed lookup. */
  lemma InstanceReplyLaw(lib: Library, tr: TriggerTest, cfg: Config, s: Session, recipient: string,
                         greylist: Option<Reply>)
    ensures var p := cfg.fallback;
            var reply := OnRcptTo(lib, tr, cfg, s, recipient, greylist).1;
            && (cfg.policies == None ==> reply == Some(Reply(451, "Temporary policy lookup failure")))
            && (cfg.policies == Some(map[]) && !cfg.managed ==>
                  if p.networks != [] && !lib.inNetworks(p.networks, s.remoteIP)
                  then reply == Some(Reply(554, "Connection not allowed"))
                  else if !Silent(tr, p, Rcpt, recipient, greylist) then Says(tr, p, Rcpt, recipient, greylist, reply)
                  else if p.from != Matcher({}, []) && !Matches(lib, p.from, s.mailFrom)
                  then reply == Some(Reply(550, "Sender domain not allowed"))
                  else if p.rcpt != Matcher({}, []) && !Matches(lib, p.rcpt, recipient)
                  then reply == Some(Reply(550, "Recipient domain not allowed"))
                  else reply == None)
  {
    assert Candidates(lib, map[], s.remoteIP, s.mailFrom, recipient) == {};
    RulesSay(tr, cfg.fallback, Rcpt, recipient, greylist);
    var reply := RulesReply(tr, cfg.fallback, recipient, greylist);
    if Silent(tr, cfg.fallback, Rcpt, recipient, greylist) {
      SaysOne(tr, cfg.fallback, Rcpt, recipient, greylist, reply, None);
    }
  }

  // ---- When a message is stored ----

  /** DATA looks at the rules of the mailbox that owns the envelope. */
  predicate Consults(cfg: Config, owner: int, p: PolicyState) {
    && cfg.policies.Some?
    && (if owner in cfg.policies.value then p == cfg.policies.value[owner] else owner == 0 && p == cfg.fallback)
  }

  ghost predicate AllSilent(tr: TriggerTest, p: PolicyState, rcptTo: seq<string>, greylist: nat -> Option<Reply>,
                            from: nat) {
    forall i: nat :: from <= i < |rcptTo| ==> Silent(tr, p, Data, rcptTo[i], greylist(i))
  }

  /** No recipient's first deciding DATA rule answers; `greylist(i)` is the engine's answer for recipient i. */
  ghost predicate DataSilent(tr: TriggerTest, cfg: Config, s: Session, greylist: nat -> Option<Reply>) {
    exists p :: Consults(cfg, s.owner, p) && AllSilent(tr, p, s.rcptTo, greylist, 0)
  }

  lemma {:induction false} MatchDataSilent(tr: TriggerTest, p: PolicyState, rcptTo: seq<string>,
                                           greylist: nat -> Option<Reply>, i: nat)
    requires p.rules.Some? && i <= |rcptTo|
    ensures MatchData(tr, p.rules.value, rcptTo, greylist, i).None? <==> AllSilent(tr, p, rcptTo, greylist, i)
    decreases |rcptTo| - i
  {
    if i < |rcptTo| {
      var reply := Answer(MatchRules(tr, p.rules.value, Data, rcptTo[i]), greylist(i));
      RulesSay(tr, p, Data, rcptTo[i], greylist(i));
      if Silent(tr, p, Data, rcptTo[i], greylist(i)) {
        SaysOne(tr, p, Data, rcptTo[i], greylist(i), reply, None);
      }
      MatchDataSilent(tr, p, rcptTo, greylist, i + 1);
      assert AllSilent(tr, p, rcptTo, greylist, i) <==>
               Silent(tr, p, Data, rcptTo[i], greylist(i)) && AllSilent(tr, p, rcptTo, greylist, i + 1);
    }
  }

  lemma OnDataSilent(tr: TriggerTest, cfg: Config, s: Session, greylist: nat -> Option<Reply>)
    ensures OnData(tr, cfg, s, greylist).None? <==> DataSilent(tr, cfg, s, greylist)
  {
    var p := MailboxState(cfg, s.owner);
    assert forall x :: Consults(cfg, s.owner, x) <==> p == Some(x);
    if p.Some? {
      if p.value.rules.Some? {
        MatchDataSilent(tr, p.value, s.rcptTo, greylist, 0);
      } else {
        assert AllSilent(tr, p.value, s.rcptTo, greylist, 0);
      }
    }
  }

  /** DATA is let through. */
  ghost predicate DataAllowed(tr: TriggerTest, k: Connection, greylist: nat -> Option<Reply>) {
    k.session.mailFrom != "" && k.session.rcptTo != [] && DataSilent(tr, k.cfg, k.session, greylist)
  }

  /**
   * DATA stores the message exactly if there are a sender and recipients, no rule answers, the block is read, and
   * the store takes it; it then starts a new envelope. A block that breaks off or has a bare CR ends the
   * connection, and in every other case nothing changes.
   */
  lemma DataLaw(lib: Library, tr: TriggerTest, k: Connection, greylist: nat -> Option<Reply>, input: DataSpec.bytes,
                storeOk: bool)
    ensures var k' := OnCommand(lib, tr, k, SendData(greylist, input, storeOk));
            var s := k.session;
            var data := DataSpec.Read(input, 10_485_760).0;
            if DataAllowed(tr, k, greylist) && data.Body? && storeOk then
              k' == Connection(Session(s.remoteIP, "", [], 0, false), k.cfg, k.open,
                               k.stored + [Envelope(s.owner, s.mailFrom, s.rcptTo, s.remoteIP, data.data, k.cfg)])
            else if DataAllowed(tr, k, greylist) && (data.BareReturn? || data.ReadFailed?) then k' == k.(open := false)
            else k' == k
  {
    OnDataSilent(tr, k.cfg, k.session, greylist);
    assert MAX_MESSAGE_SIZE == 10_485_760;
  }

  // ---- The other commands ----

  /** RCPT adds an accepted recipient and its owner, and changes nothing otherwise. */
  lemma RcptLaw(lib: Library, tr: TriggerTest, k: Connection, recipient: string, greylist: Option<Reply>, owner: int)
    requires k.cfg.policies.Some?
    ensures var k' := OnCommand(lib, tr, k, RcptTo(Some(recipient), greylist));
            var s := k.session;
            && (MailboxAccepts(lib, tr, k.cfg.policies.value, s, recipient, greylist, owner) ==>
                  k' == k.(session := Session(s.remoteIP, s.mailFrom, s.rcptTo + [recipient], owner, true)))
            && (InstanceAccepts(lib, tr, k.cfg, s, recipient, greylist) ==>
                  k' == k.(session := Session(s.remoteIP, s.mailFrom, s.rcptTo + [recipient], 0, true)))
            && (!InstanceAccepts(lib, tr, k.cfg, s, recipient, greylist) ==>
                  (forall id :: !MailboxAccepts(lib, tr, k.cfg.policies.value, s, recipient, greylist, id)) ==> k' == k)
  {
    AcceptedIff(lib, tr, k.cfg, k.session, recipient, greylist);
    AcceptedIsRouted(lib, tr, k.cfg, k.session, recipient, greylist);
    if MailboxAccepts(lib, tr, k.cfg.policies.value, k.session, recipient, greylist, owner) {
      MailboxCase(lib, tr, k.cfg, k.session, recipient, greylist, owner);
    }
    if InstanceAccepts(lib, tr, k.cfg, k.session, recipient, greylist) {
      InstanceCase(lib, tr, k.cfg, k.session, recipient, greylist);
    }
  }

  /** MAIL with a valid address and no size above 10 MiB starts an envelope, RSET drops it, QUIT ends the connection. */
  lemma CommandLaw(lib: Library, tr: TriggerTest, k: Connection, from: Option<string>, size: SizeParameter)
    ensures var s := k.session;
            && OnCommand(lib, tr, k, Mail(from, size)) ==
                 (if from.Some? && (size.NoSize? || (size.DeclaredSize? && size.size <= 10_485_760))
                  then k.(session := Session(s.remoteIP, from.value, [], 0, false)) else k)
            && OnCommand(lib, tr, k, Rset) == k.(session := Session(s.remoteIP, "", [], 0, false))
            && OnCommand(lib, tr, k, Quit) == k.(open := false)
            && forall c :: c in {Helo, Noop, Unknown, RcptTo(None, None)} ==> OnCommand(lib, tr, k, c) == k
  {
    assert MAX_MESSAGE_SIZE == 10_485_760;
  }

  /** A closed connection does nothing any more, and a new configuration changes no envelope. */
  lemma EventLaw(lib: Library, tr: TriggerTest, k: Connection, e: Event)
    ensures !k.open && e.Receive? ==> OnEvent(lib, tr, k, e) == k
    ensures k.open && e.Receive? ==> OnEvent(lib, tr, k, e) == OnCommand(lib, tr, k, e.command)
    ensures e.Reconfigure? ==> OnEvent(lib, tr, k, e) == Connection(k.session, e.cfg, k.open, k.stored)
  {
  }

  // ---- A whole message ----

  /** RCPT for every recipient, each with its greylist answer. */
  function RcptEvents(rcptTo: seq<string>, greylist: nat -> Option<Reply>): seq<Event> {
    seq(|rcptTo|, i requires 0 <= i < |rcptTo| => Receive(RcptTo(Some(rcptTo[i]), greylist(i))))
  }

  /** The mailbox takes all recipients from this sender, and its rules answer to none. */
  ghost predicate TakesAll(lib: Library, tr: TriggerTest, cfg: Config, remoteIP: string, mailFrom: string,
                           rcptTo: seq<string>, greylist: nat -> Option<Reply>, id: int) {
    && cfg.policies.Some? && id in cfg.policies.value
    && forall i: nat :: i < |rcptTo| ==>
         && OnlyTaker(lib, cfg.policies.value, Session(remoteIP, mailFrom, [], 0, false), rcptTo[i], id)
         && Silent(tr, cfg.policies.value[id], Rcpt, rcptTo[i], greylist(i))
  }

  /** The session after the first `n` recipients. */
  function Addressed(remoteIP: string, mailFrom: string, rcptTo: seq<string>, id: int, n: nat): Session {
    if n == 0 || n > |rcptTo| then Session(remoteIP, mailFrom, [], 0, false)
    else Session(remoteIP, mailFrom, rcptTo[..n], id, true)
  }

  lemma NextRecipient(lib: Library, tr: TriggerTest, k: Connection, remoteIP: string, mailFrom: string,
                      rcptTo: seq<string>, greylist: nat -> Option<Reply>, id: int, n: nat)
    requires n < |rcptTo| && TakesAll(lib, tr, k.cfg, remoteIP, mailFrom, rcptTo, greylist, id)
    requires k.session == Addressed(remoteIP, mailFrom, rcptTo, id, n)
    ensures OnCommand(lib, tr, k, RcptTo(Some(rcptTo[n]), greylist(n)))
         == k.(session := Addressed(remoteIP, mailFrom, rcptTo, id, n + 1))
  {
    var start := Session(remoteIP, mailFrom, [], 0, false);
    var policies := k.cfg.policies.value;
    assert OnlyTaker(lib, policies, start, rcptTo[n], id);
    assert forall j :: Takes(lib, policies, k.session, rcptTo[n], j) <==> Takes(lib, policies, start, rcptTo[n], j);
    RcptLaw(lib, tr, k, rcptTo[n], greylist(n), id);
    assert rcptTo[..n] + [rcptTo[n]] == rcptTo[..n + 1];
  }

  /** If every event leads from one connection to the next, the conversation leads from the first to the last. */
  lemma {:induction false} Chain(lib: Library, tr: TriggerTest, ks: nat -> Connection, events: seq<Event>, n: nat,
                                 rest: seq<Event>)
    requires n <= |events|
    requires forall i: nat :: n <= i < |events| ==> OnEvent(lib, tr, ks(i), events[i]) == ks(i + 1)
    ensures Converse(lib, tr, ks(n), events[n..] + rest) == Converse(lib, tr, ks(|events|), rest)
    decreases |events| - n
  {
    var todo := events[n..] + rest;
    if n < |events| {
      Chain(lib, tr, ks, events, n + 1, rest);
      assert todo[0] == events[n] && todo[1..] == events[n + 1..] + rest;
    } else {
      assert todo == rest;
    }
  }

  lemma AllRecipients(lib: Library, tr: TriggerTest, k: Connection, mailFrom: string, rcptTo: seq<string>,
                      greylist: nat -> Option<Reply>, id: int, rest: seq<Event>)
    requires k.open && TakesAll(lib, tr, k.cfg, k.session.remoteIP, mailFrom, rcptTo, greylist, id)
    requires k.session == Addressed(k.session.remoteIP, mailFrom, rcptTo, id, 0)
    ensures Converse(lib, tr, k, RcptEvents(rcptTo, greylist) + rest)
         == Converse(lib, tr, k.(session := Addressed(k.session.remoteIP, mailFrom, rcptTo, id, |rcptTo|)), rest)
  {
    var events := RcptEvents(rcptTo, greylist);
    var ks := (i: nat) => k.(session := Addressed(k.session.remoteIP, mailFrom, rcptTo, id, i));
    forall i: nat | i < |events| ensures OnEvent(lib, tr, ks(i), events[i]) == ks(i + 1) {
      NextRecipient(lib, tr, ks(i), k.session.remoteIP, mailFrom, rcptTo, greylist, id, i);
    }
    Chain(lib, tr, ks, events, 0, rest);
    assert events[0..] == events && ks(0) == k;
  }

  /**
   * Mail that a mailbox takes is stored for it: after MAIL, an RCPT for each of any number of recipients that this
   * mailbox alone takes, and DATA, with no rule answering, there is one more message, with these recipients.
   */
  lemma MailIsStored(lib: Library, tr: TriggerTest, k: Connection, mailFrom: string, rcptTo: seq<string>, id: int,
                     greylist: nat -> Option<Reply>, dataGreylist: nat -> Option<Reply>, input: DataSpec.bytes)
    requires k.open && mailFrom != "" && rcptTo != []
    requires TakesAll(lib, tr, k.cfg, k.session.remoteIP, mailFrom, rcptTo, greylist, id)
    requires AllSilent(tr, k.cfg.policies.value[id], rcptTo, dataGreylist, 0)
    requires DataSpec.Read(input, 10_485_760).0.Body?
    ensures var events := [Receive(Mail(Some(mailFrom), NoSize))]
                          + (RcptEvents(rcptTo, greylist) + [Receive(SendData(dataGreylist, input, true))]);
            var body := DataSpec.Read(input, 10_485_760).0.data;
            Converse(lib, tr, k, events).stored ==
              k.stored + [Envelope(id, mailFrom, rcptTo, k.session.remoteIP, body, k.cfg)]
  {
    var data := Receive(SendData(dataGreylist, input, true));
    var events := [Receive(Mail(Some(mailFrom), NoSize))] + (RcptEvents(rcptTo, greylist) + [data]);
    var remoteIP := k.session.remoteIP;
    var k1 := OnEvent(lib, tr, k, events[0]);
    CommandLaw(lib, tr, k, Some(mailFrom), NoSize);
    assert events[1..] == RcptEvents(rcptTo, greylist) + [data];
    AllRecipients(lib, tr, k1, mailFrom, rcptTo, greylist, id, [data]);
    var k2 := k1.(session := Addressed(remoteIP, mailFrom, rcptTo, id, |rcptTo|));
    assert rcptTo[..|rcptTo|] == rcptTo;
    assert Consults(k2.cfg, id, k.cfg.policies.value[id]);
    DataLaw(lib, tr, k2, dataGreylist, input, true);
    assert [data][1..] == [] && Converse(lib, tr, k2, [data]) == Converse(lib, tr, OnEvent(lib, tr, k2, data), []);
  }
}
