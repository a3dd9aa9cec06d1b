/** One SMTP connection: its commands, the envelope being built, and the messages it stores. */
module SessionModel {
  import opened Text
  import opened Policy
  import opened Routing
  import opened MailFailRules
  import DataSpec

  const MAX_MESSAGE_SIZE: nat := 10 * 1024 * 1024

  datatype Session = Session(remoteIP: string, mailFrom: string, rcptTo: seq<string>, owner: int, ownerSet: bool)

  function Fresh(remoteIP: string): Session {
    Session(remoteIP, "", [], 0, false)
  }

  function Reset(s: Session): Session {
    s.(mailFrom := "", rcptTo := [], owner := 0, ownerSet := false)
  }

  // ---- RCPT ----

  /** The only member of the set, if it has exactly one. */
  function Only(c: set<int>): Option<int> {
    if exists id :: id in c && c == {id} then
      var id :| id in c && c == {id};
      Some(id)
    else None
  }

  function RulesReply(tr: TriggerTest, p: PolicyState, recipient: string, greylist: Option<Reply>): Option<Reply> {
    if p.rules.None? then None else Answer(MatchRules(tr, p.rules.value, Rcpt, recipient), greylist)
  }

  /** The reply of the instance-wide policy, which applies when no mailbox is managed. */
  function DefaultReply(lib: Library, tr: TriggerTest, p: PolicyState, s: Session, recipient: string,
                        greylist: Option<Reply>): Option<Reply> {
    if !ConnectAllowed(lib, p, s.remoteIP) then Some(Reply(554, "Connection not allowed"))
    else if RulesReply(tr, p, recipient, greylist).Some? then RulesReply(tr, p, recipient, greylist)
    else if !Empty(p.from) && !Matches(lib, p.from, s.mailFrom) then Some(Reply(550, "Sender domain not allowed"))
    else if !Empty(p.rcpt) && !Matches(lib, p.rcpt, recipient) then Some(Reply(550, "Recipient domain not allowed"))
    else None
  }

  const LOOKUP_FAILED := Reply(451, "Temporary policy lookup failure")
  const AMBIGUOUS := Reply(550, "Recipient is ambiguous for configured users")

  /** The session after a recipient was offered, and the reply if it is refused. */
  function OnRcptTo(lib: Library, tr: TriggerTest, cfg: Config, s: Session, recipient: string, greylist: Option<Reply>)
    : (Session, Option<Reply>)
  {
    if cfg.policies.None? then (s, Some(LOOKUP_FAILED))
    else
      var policies := cfg.policies.value;
      var c := Candidates(lib, policies, s.remoteIP, s.mailFrom, recipient);
      if c == {} then
        if policies != map[] || cfg.managed then (s, Some(Reply(550, "Recipient not allowed")))
        else
          var reply := DefaultReply(lib, tr, cfg.fallback, s, recipient, greylist);
          if reply.Some? then (s, reply) else (s.(owner := 0, ownerSet := true), None)
      else if Only(c).Some? && Only(c).value in policies then
        var id := Only(c).value;
        if s.ownerSet && s.owner != id then (s, Some(Reply(550, "Recipient belongs to a different user")))
        else
          var reply := RulesReply(tr, policies[id], recipient, greylist);
          if reply.Some? then (s, reply) else (s.(owner := id, ownerSet := true), None)
      else (s, Some(AMBIGUOUS))
  }

  // ---- DATA ----

  /** The policy of the mailbox that owns the envelope. */
  function MailboxState(cfg: Config, owner: int): Option<PolicyState> {
    if cfg.policies.None? then None
    else if owner in cfg.policies.value then Some(cfg.policies.value[owner])
    else if owner == 0 then Some(cfg.fallback)
    else None
  }

  function OnData(tr: TriggerTest, cfg: Config, s: Session, greylist: nat -> Option<Reply>): Option<Reply> {
    var p := MailboxState(cfg, s.owner);
    if p.None? then Some(LOOKUP_FAILED)
    else if p.value.rules.None? then None
    else MatchData(tr, p.value.rules.value, s.rcptTo, greylist, 0)
  }

  // ---- Commands ----

  datatype SizeParameter = NoSize | InvalidSize | DeclaredSize(size: int)

  /**
   * Commands with their arguments parsed (None if the syntax is wrong) and what the outside answers;
   * DATA comes with the bytes the client sends next.
   */
  datatype Command =
    | Helo
    | Mail(from: Option<string>, size: SizeParameter)
    | RcptTo(recipient: Option<string>, greylist: Option<Reply>)
    | SendData(replies: nat -> Option<Reply>, input: DataSpec.bytes, storeOk: bool)
    | Rset
    | Noop
    | Quit
    | Unknown

  /** A stored message, with the configuration in force when it was stored. */
  datatype Envelope = Envelope(owner: int, mailFrom: string, rcptTo: seq<string>, remoteIP: string,
                               data: DataSpec.bytes, cfg: Config)

  datatype Connection = Connection(session: Session, cfg: Config, open: bool, stored: seq<Envelope>)

  /** The client sends a command, or the store behind the policy changes. */
  datatype Event = Receive(command: Command) | Reconfigure(cfg: Config)

  /** A refused or unstored message leaves the envelope open; a broken one ends the connection. */
  function AfterData(k: Connection, data: DataSpec.DataResult, storeOk: bool): Connection {
    var s := k.session;
    if data.TooLarge? || data.LineTooLong? then k
    else if !data.Body? then k.(open := false)
    else if !storeOk then k
    else
      var e := Envelope(s.owner, s.mailFrom, s.rcptTo, s.remoteIP, data.data, k.cfg);
      k.(session := Reset(s), stored := k.stored + [e])
  }

  function OnCommand(lib: Library, tr: TriggerTest, k: Connection, command: Command): Connection {
    var s := k.session;
    match command
    case Helo => k
    case Mail(from, size) =>
      if from.None? || size.InvalidSize? || (size.DeclaredSize? && size.size > MAX_MESSAGE_SIZE) then k
      else k.(session := s.(mailFrom := from.value, rcptTo := [], owner := 0, ownerSet := false))
    case RcptTo(recipient, greylist) =>
      if recipient.None? then k
      else
        var (s', reply) := OnRcptTo(lib, tr, k.cfg, s, recipient.value, greylist);
        k.(session := if reply.Some? then s' else s'.(rcptTo := s'.rcptTo + [recipient.value]))
    case SendData(replies, input, storeOk) =>
      if s.mailFrom == "" || s.rcptTo == [] || OnData(tr, k.cfg, s, replies).Some? then k
      else AfterData(k, DataSpec.Read(input, MAX_MESSAGE_SIZE).0, storeOk)
    case Rset => k.(session := Reset(s))
    case Noop => k
    case Quit => k.(open := false)
    case Unknown => k
  }

  function OnEvent(lib: Library, tr: TriggerTest, k: Connection, e: Event): Connection {
    match e
    case Receive(command) => if k.open then OnCommand(lib, tr, k, command) else k
    case Reconfigure(cfg) => k.(cfg := cfg)
  }

  function Converse(lib: Library, tr: TriggerTest, k: Connection, events: seq<Event>): Connection
    decreases |events|
  {
    if events == [] then k else Converse(lib, tr, OnEvent(lib, tr, k, events[0]), events[1..])
  }
}
