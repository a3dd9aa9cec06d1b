/** The session as the connection handler keeps it: fields that each command updates. */
module SmtpSession {
  import opened Text
  import opened Sets
  import opened Policy
  import opened Routing
  import opened MailFailRules
  import opened SessionModel
  import opened SessionProofs
  import DataSpec
  import DataReader

  /** Collects the matching policies, looking at them in any order. */
  method CollectCandidates(lib: Library, policies: map<int, PolicyState>, remoteIP: string, mailFrom: string,
                           recipient: string)
    returns (candidates: set<int>)
    ensures candidates == Candidates(lib, policies, remoteIP, mailFrom, recipient)
  {
    var domainScoped := DomainScoped(policies);
    candidates := {};
    var rest := policies.Keys;
    while rest != {}
      invariant rest <= policies.Keys
      invariant candidates == Candidates(lib, policies, remoteIP, mailFrom, recipient) - rest
    {
      NonEmptyIds(rest);
      var id :| id in rest;
      rest := rest - {id};
      if domainScoped && Empty(policies[id].rcpt) {
        continue;
      }
      if MatchesPolicy(lib, policies[id], remoteIP, mailFrom, recipient) {
        candidates := candidates + {id};
      }
    }
  }

  class Handler {
    const remoteIP: string
    var mailFrom: string
    var rcptTo: seq<string>
    var ownerUserId: int
    var ownerSet: bool
    var stored: seq<Envelope>
    var open: bool

    function View(): Session
      reads this
    {
      Session(remoteIP, mailFrom, rcptTo, ownerUserId, ownerSet)
    }

    function Connected(cfg: Config): Connection
      reads this
    {
      Connection(View(), cfg, open, stored)
    }

    constructor (remoteIP: string)
      ensures View() == Fresh(remoteIP) && stored == [] && open
    {
      this.remoteIP := remoteIP;
      mailFrom, rcptTo, ownerUserId, ownerSet := "", [], 0, false;
      stored, open := [], true;
    }

    method ResetEnvelope()
      modifies this
      ensures View() == Reset(old(View())) && stored == old(stored) && open == old(open)
    {
      mailFrom := "";
      rcptTo := [];
      ownerUserId := 0;
      ownerSet := false;
    }

    method OfferRecipient(lib: Library, tr: TriggerTest, cfg: Config, recipient: string, greylist: Option<Reply>)
      returns (reply: Option<Reply>)
      modifies this`ownerUserId, this`ownerSet
      ensures (View(), reply) == OnRcptTo(lib, tr, cfg, old(View()), recipient, greylist)
    {
      if cfg.policies.None? {
        return Some(LOOKUP_FAILED);
      }
      var policies := cfg.policies.value;
      var candidates := CollectCandidates(lib, policies, remoteIP, mailFrom, recipient);
      if candidates == {} {
        if policies != map[] || cfg.managed {
          return Some(Reply(550, "Recipient not allowed"));
        }
        reply := DefaultReply(lib, tr, cfg.fallback, View(), recipient, greylist);
        if reply.Some? {
          return;
        }
        ownerUserId := 0;
        ownerSet := true;
        return None;
      }
      NonEmptyIds(candidates);
      OnlyMember(candidates);
      var id :| id in candidates;
      if candidates != {id} {
        return Some(AMBIGUOUS);
      }
      if ownerSet && ownerUserId != id {
        return Some(Reply(550, "Recipient belongs to a different user"));
      }
      reply := RulesReply(tr, policies[id], recipient, greylist);
      if reply.Some? {
        return;
      }
      ownerUserId := id;
      ownerSet := true;
      return None;
    }

    method Deliver(cfg: Config, data: DataSpec.DataResult, storeOk: bool)
      modifies this
      ensures Connected(cfg) == AfterData(old(Connected(cfg)), data, storeOk)
    {
      match data {
        case TooLarge =>
        case LineTooLong =>
        case BareReturn => open := false;
        case ReadFailed => open := false;
        case Body(text) =>
          if !storeOk {
            return;
          }
          stored := stored + [Envelope(ownerUserId, mailFrom, rcptTo, remoteIP, text, cfg)];
          ResetEnvelope();
      }
    }

    /** The bytes after DATA are read only if the command is accepted; the reader then stands behind them. */
    method ReceiveData(lib: Library, tr: TriggerTest, cfg: Config, replies: nat -> Option<Reply>,
                       reader: DataReader.ByteReader, storeOk: bool)
      modifies this, reader
      ensures Connected(cfg) == OnCommand(lib, tr, old(Connected(cfg)), SendData(replies, old(reader.rest), storeOk))
      ensures reader.rest == if old(mailFrom == "" || rcptTo == [] || OnData(tr, cfg, View(), replies).Some?)
                             then old(reader.rest) else DataSpec.Read(old(reader.rest), MAX_MESSAGE_SIZE).1
    {
      if mailFrom == "" || rcptTo == [] {
        return;
      }
      if OnData(tr, cfg, View(), replies).Some? {
        return;
      }
      var data := DataReader.ReadDataBlockLimit(reader, MAX_MESSAGE_SIZE);
      Deliver(cfg, data, storeOk);
    }

    /** One turn of the command loop; DATA reads the message from the connection. */
    method Handle(lib: Library, tr: TriggerTest, cfg: Config, command: Command, reader: DataReader.ByteReader)
      requires command.SendData? ==> command.input == reader.rest
      modifies this, reader
      ensures Connected(cfg) == OnEvent(lib, tr, old(Connected(cfg)), Receive(command))
    {
      if !open {
        return;
      }
      match command {
        case Helo =>
        case Mail(from, size) =>
          if from.None? || size.InvalidSize? || (size.DeclaredSize? && size.size > MAX_MESSAGE_SIZE) {
            return;
          }
          mailFrom := from.value;
          rcptTo := [];
          ownerUserId := 0;
          ownerSet := false;
        case RcptTo(recipient, greylist) =>
          if recipient.None? {
            return;
          }
          var reply := OfferRecipient(lib, tr, cfg, recipient.value, greylist);
          if reply.None? {
            rcptTo := rcptTo + [recipient.value];
          }
        case SendData(replies, _, storeOk) =>
          ReceiveData(lib, tr, cfg, replies, reader, storeOk);
        case Rset =>
          ResetEnvelope();
        case Noop =>
        case Quit =>
          open := false;
        case Unknown =>
      }
    }
  }
}
