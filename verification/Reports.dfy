/** To whom reports are sent, and what that means for the outbound queue. */
module Reports {
  import opened Text
  import opened Address
  import opened Policy
  import opened MailFailRules
  import opened OutboundModel
  import opened OutboundProofs
  import opened OutboundRuns

  predicate Ascii(s: string) {
    forall i :: 0 <= i < |s| ==> s[i] as int <= 127
  }

  /** A bare mail address in the sense of section 3.4.1 of RFC 5322: one '@' between two texts without white space. */
  predicate AddrSpec(s: string) {
    exists at :: 0 < at < |s| - 1 && s[at] == '@'
        && forall k :: 0 <= k < |s| && k != at ==> s[k] != '@' && !IsSpace(s[k])
  }

  /** What the address parser promises: only a bare address is parsed as the very text it was given. */
  ghost predicate ParsesAddresses(lib: Library) {
    forall s :: Ascii(s) && lib.parseAddress(s) == Some(s) ==> AddrSpec(s)
  }

  /** The text if it is a bare US-ASCII address. */
  function BareAddress(lib: Library, s: string): Option<string> {
    if Ascii(s) && lib.parseAddress(s) == Some(s) then Some(s) else None
  }

  /** The original sender, or the rule's local part at the sender's domain; None if the report is refused. */
  function ReportRecipient(lib: Library, r: ReportRequest, mailFrom: string): Option<string> {
    var sender := BareAddress(lib, Trim(mailFrom));
    var localPart := Trim(r.localPart);
    if sender.None? || localPart == "" then sender
    else if !SupportsLocalPart(r.action) || !ValidLocalPart(localPart) || lib.domain(sender.value).None? then None
    else BareAddress(lib, localPart + "@" + lib.domain(sender.value).value)
  }

  lemma AddrSpecIsPlain(s: string)
    requires AddrSpec(s)
    ensures PlainAddress(s)
  {
    var at :| 0 < at < |s| - 1 && s[at] == '@' && forall k :: 0 <= k < |s| && k != at ==> s[k] != '@' && !IsSpace(s[k]);
    assert IndexIn(s, '@', 0, |s|) == Some(at);
    assert !IsSpace(s[0]);
    assert s[at + 1..][0] == s[at + 1] && s[at + 1..][|s| - at - 2] == s[|s| - 1];
  }

  lemma AppendedDomain(localPart: string, domain: string, s: string)
    requires s == localPart + "@" + domain && AddrSpec(s) && Lower(domain) == domain
    ensures ExtractDomain(s) == Some(domain)
  {
    AddrSpecIsPlain(s);
    DomainsAgree(s);
    assert s[|localPart|] == '@';
    assert IndexIn(s, '@', 0, |s|) == Some(|localPart|);
    assert s[|localPart| + 1..] == domain;
  }

  lemma RecipientText(lib: Library, r: ReportRequest, mailFrom: string)
    requires ParsesAddresses(lib) && ReadsDomains(lib) && ReportRecipient(lib, r, mailFrom).Some?
    ensures AddrSpec(ReportRecipient(lib, r, mailFrom).value)
    ensures if Trim(r.localPart) == "" then ReportRecipient(lib, r, mailFrom).value == Trim(mailFrom)
            else ExtractDomain(Trim(mailFrom)).Some?
                 && ReportRecipient(lib, r, mailFrom).value
                    == Trim(r.localPart) + "@" + ExtractDomain(Trim(mailFrom)).value
  {
    assert lib.domain(Trim(mailFrom)) == ExtractDomain(Trim(mailFrom));
  }

  /**
   * Every report goes to a plain address at the domain of the original sender: the one whose domain
   * the worker and the SQL throttle read alike.
   */
  lemma ReportGoesToPlain(lib: Library, r: ReportRequest, mailFrom: string)
    requires ParsesAddresses(lib) && ReadsDomains(lib) && ReportRecipient(lib, r, mailFrom).Some?
    ensures var recipient := ReportRecipient(lib, r, mailFrom).value;
            && PlainAddress(recipient)
            && ExtractDomain(recipient).Some? && ExtractDomain(recipient) == ExtractDomain(Trim(mailFrom))
  {
    var sender := Trim(mailFrom);
    var recipient := ReportRecipient(lib, r, mailFrom).value;
    RecipientText(lib, r, mailFrom);
    AddrSpecIsPlain(recipient);
    DomainsAgree(recipient);
    if Trim(r.localPart) != "" {
      DomainIsLower(sender);
      AppendedDomain(Trim(r.localPart), ExtractDomain(sender).value, recipient);
    }
  }

  /**
   * A report goes to the original sender, or to the rule's local part at the sender's domain, and is built for no
   * other reason than a bare sender address, a valid local part and a bare resulting address.
   */
  lemma ReportRecipientLaw(lib: Library, r: ReportRequest, mailFrom: string)
    requires ReadsDomains(lib)
    ensures var sender := Trim(mailFrom);
            var bare := Ascii(sender) && lib.parseAddress(sender) == Some(sender);
            var domain := ExtractDomain(sender);
            var to := Trim(r.localPart) + "@" + (if domain.Some? then domain.value else "");
            && (!bare ==> ReportRecipient(lib, r, mailFrom) == None)
            && (bare && Trim(r.localPart) == "" ==> ReportRecipient(lib, r, mailFrom) == Some(sender))
            && (bare && Trim(r.localPart) != "" ==>
                  ReportRecipient(lib, r, mailFrom) ==
                    if r.action in {Arf, XarfV3, XarfV4, OriginalReport} && ValidLocalPart(Trim(r.localPart))
                       && domain.Some? && Ascii(to) && lib.parseAddress(to) == Some(to)
                    then Some(to) else None)
  {
    assert lib.domain(Trim(mailFrom)) == ExtractDomain(Trim(mailFrom));
  }

  // ---- The queue of reports ----

  ghost predicate IsReportTo(lib: Library, recipient: string) {
    exists r: ReportRequest, mailFrom: string :: ReportRecipient(lib, r, mailFrom) == Some(recipient)
  }

  ghost predicate OnlyReports(lib: Library, ops: seq<Op>) {
    forall i :: 0 <= i < |ops| && ops[i].Enqueue? ==> IsReportTo(lib, ops[i].recipient)
  }

  ghost predicate AllPlain(q: Queue) {
    forall id :: id in q ==> PlainAddress(q[id].recipient)
  }

  lemma StepStaysPlain(lib: Library, s: System, op: Op)
    requires ParsesAddresses(lib) && ReadsDomains(lib) && AllPlain(s.q)
    requires op.Enqueue? ==> IsReportTo(lib, op.recipient)
    ensures AllPlain(Step(CONVENTIONS, s, op).q)
  {
    match op {
      case Enqueue(_, _, recipient, _, _) =>
        var r: ReportRequest, mailFrom: string :| ReportRecipient(lib, r, mailFrom) == Some(recipient);
        ReportGoesToPlain(lib, r, mailFrom);
      case Tick(now, listOk, answers) =>
        var items := ListDue(s.q, now, BATCH_LIMIT);
        forall id | id in Step(CONVENTIONS, s, op).q ensures PlainAddress(Step(CONVENTIONS, s, op).q[id].recipient) {
          PassKeeps(CONVENTIONS, s.q, items, answers, now, |items|, id);
        }
    }
  }

  lemma {:induction false} RunStaysPlain(lib: Library, s: System, ops: seq<Op>)
    requires ParsesAddresses(lib) && ReadsDomains(lib) && AllPlain(s.q) && OnlyReports(lib, ops)
    ensures AllPlain(Run(CONVENTIONS, s, ops).q)
    decreases |ops|
  {
    if ops != [] {
      StepStaysPlain(lib, s, ops[0]);
      RunStaysPlain(lib, Step(CONVENTIONS, s, ops[0]), ops[1..]);
    }
  }

  /**
   * The domain throttle of the program: whatever reports were queued and whatever failed before, after a
   * send to a domain fails temporarily, and its reschedule and its deferral are stored, every message to
   * that domain still queued waits for the failed message's retry time, whatever is enqueued or fails later.
   */
  lemma ReportsAreThrottled(lib: Library, before: seq<Op>, tick: Op, after: seq<Op>, s: System, e: Event, id: int)
    requires ParsesAddresses(lib) && ReadsDomains(lib) && OnlyReports(lib, before)
    requires s == Run(CONVENTIONS, EMPTY_QUEUE, before)
    requires tick.Tick? && tick.listOk
    requires e in RunPass(CONVENTIONS, s.q, tick.now, true, tick.answers).log && e.result.Temporary? && e.saved
        && e.deferred
    requires id in s.q && CONVENTIONS.worker(s.q[id].recipient) == CONVENTIONS.worker(e.recipient)
    requires id in Step(CONVENTIONS, s, tick).q
    ensures e.id in s.q
    ensures var s1 := Step(CONVENTIONS, s, tick);
            var retryAt := tick.now + CONVENTIONS.delay(s.q[e.id].attempts + 1);
            && s1.q[id].next >= retryAt
            && NotBefore(Trace(Run(CONVENTIONS, s1, after).log, id), |Trace(s1.log, id)|, retryAt)
  {
    RunStaysPlain(lib, EMPTY_QUEUE, before);
    OwnConventions(s.q[id].recipient);
    NextIdsUnused(CONVENTIONS, before, id);
    ThrottleOverRuns(CONVENTIONS, s, tick, after, e, id);
  }
}
