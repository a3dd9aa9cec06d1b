/** What lists of domains and patterns mean, when settings can be built, and what the ownership probe sees. */
module PolicyLaws {
  import opened Text
  import opened Address
  import opened SettingsLists
  import opened Settings
  import opened MailFailRules
  import opened RuleLaws
  import opened Policy
  import opened Mailboxes
  import opened Routing

  // ---- Matchers ----

  /** The values, trimmed and in lower case. */
  function Entries(values: seq<string>): set<string> {
    set i | 0 <= i < |values| :: Lower(Trim(values[i]))
  }

  predicate IsPattern(entry: string) {
    entry != "" && !IsPlainDomain(entry)
  }

  /**
   * The matcher holds exactly the plain domains and the patterns among the entries; a pattern that does not compile
   * spoils it.
   */
  ghost predicate MatcherOf(lib: Library, entries: set<string>, m: Option<Matcher>) {
    && (m.None? <==> exists e :: e in entries && IsPattern(e) && !lib.compiles(e))
    && (m.Some? ==>
          && (forall d :: d in m.value.exact <==> d in entries && IsPlainDomain(d))
          && (forall p :: p in m.value.patterns <==> p in entries && IsPattern(p)))
  }

  lemma EntriesLast(values: seq<string>)
    requires values != []
    ensures Entries(values) == Entries(values[..|values| - 1]) + {Lower(Trim(values[|values| - 1]))}
  {
    var n := |values| - 1;
    assert forall i :: 0 <= i < n ==> values[..n][i] == values[i];
    forall e | e in Entries(values) ensures e in Entries(values[..n]) || e == Lower(Trim(values[n])) {
      var i :| 0 <= i < |values| && Lower(Trim(values[i])) == e;
      assert i < n ==> values[..n][i] == values[i];
    }
  }

  lemma NoPattern()
    ensures !IsPlainDomain("")
  {
  }

  /** The matcher with one more entry. */
  function Grown(lib: Library, before: Option<Matcher>, entry: string): Option<Matcher> {
    if before.None? || entry == "" then before
    else if IsPlainDomain(entry) then Some(before.value.(exact := before.value.exact + {entry}))
    else if !lib.compiles(entry) then None
    else Some(before.value.(patterns := before.value.patterns + [entry]))
  }

  lemma GrownHolds(lib: Library, entries: set<string>, before: Option<Matcher>, entry: string)
    requires MatcherOf(lib, entries, before)
    ensures MatcherOf(lib, entries + {entry}, Grown(lib, before, entry))
  {
    NoPattern();
    var all := entries + {entry};
    assert forall e :: e in all <==> e in entries || e == entry;
  }

  lemma NewMatcherGrows(lib: Library, values: seq<string>)
    ensures values == [] ==> NewMatcher(lib, values) == Some(Matcher({}, []))
    ensures values != [] ==>
              var n := |values| - 1;
              NewMatcher(lib, values) == Grown(lib, NewMatcher(lib, values[..n]), Lower(Trim(values[n])))
  {
  }

  lemma NoEntries(lib: Library)
    ensures MatcherOf(lib, {}, Some(Matcher({}, [])))
  {
  }

  /** A list becomes exactly its plain domains and its patterns, unless a pattern does not compile. */
  lemma {:induction false} MatcherLaw(lib: Library, values: seq<string>)
    ensures MatcherOf(lib, Entries(values), NewMatcher(lib, values))
  {
    NewMatcherGrows(lib, values);
    if values == [] {
      NoEntries(lib);
      assert Entries(values) == {};
    } else {
      var n := |values| - 1;
      var before := NewMatcher(lib, values[..n]);
      MatcherLaw(lib, values[..n]);
      GrownHolds(lib, Entries(values[..n]), before, Lower(Trim(values[n])));
      EntriesLast(values);
    }
  }

  lemma PlainDomainExamples(d1: string, d2: string, d3: string, d4: string, d5: string)
    requires d1 == "mail-1.b.test" && d2 == "localhost" && d3 == ".b.test" && d4 == "b.test." && d5 == "b_c.test"
    ensures IsPlainDomain(d1) && !IsPlainDomain(d2) && !IsPlainDomain(d3) && !IsPlainDomain(d4) && !IsPlainDomain(d5)
  {
    assert d1[6] == '.';
    assert d3[0] == '.' && d4[6] == '.' && !DomainChar(d5[1]);
  }

  lemma LowerParts(a: string, b: string)
    requires Lower(a + b) == a + b
    ensures Lower(b) == b
  {
    assert forall i :: 0 <= i < |b| ==> (a + b)[|a| + i] == b[i] && Lower(a + b)[|a| + i] == LowerChar(b[i]);
  }

  lemma DomainOfTrimmed(text: string, localPart: string, domain: string)
    requires Lower(Trim(text)) == localPart + "@" + domain && localPart != "" && domain != "" && !IsSpace(domain[0])
    requires '@' !in localPart && '@' !in domain
    ensures ExtractDomain(localPart + "@" + domain) == Some(domain)
  {
    var address := localPart + "@" + domain;
    var from, to := TrimSlice(text);
    LowerTrimmed(Trim(text));
    assert address[0] == localPart[0] && address[|address| - 1] == domain[|domain| - 1];
    AddressLaw(localPart, domain);
    LowerIdempotent(Trim(text));
    LowerParts(localPart + "@", domain);
  }

  /** The matcher accepts a plain address exactly if it lists the domain, or a pattern matches address or domain. */
  lemma MatchesLaw(lib: Library, m: Matcher, text: string, localPart: string, domain: string)
    requires ReadsDomains(lib) && Lower(Trim(text)) == localPart + "@" + domain
    requires localPart != "" && '@' !in localPart && '@' !in domain && domain != "" && !IsSpace(domain[0])
    ensures Matches(lib, m, text) <==>
              || domain in m.exact
              || exists i :: 0 <= i < |m.patterns|
                   && (lib.matches(m.patterns[i], localPart + "@" + domain) || lib.matches(m.patterns[i], domain))
  {
    DomainOfTrimmed(text, localPart, domain);
    assert lib.domain(localPart + "@" + domain) == ExtractDomain(localPart + "@" + domain);
  }

  // ---- The probe ----

  /** Some pattern of the matcher matches the text. */
  predicate Hits(lib: Library, m: Matcher, text: string) {
    exists i :: 0 <= i < |m.patterns| && lib.matches(m.patterns[i], text)
  }

  lemma HitsFixed(lib: Library, m: Matcher, a: string)
    requires LowerTrim(a) == a && a != ""
    ensures Matches(lib, m, a) <==>
              || (lib.domain(a).Some? && lib.domain(a).value in m.exact)
              || Hits(lib, m, a) || (lib.domain(a).Some? && Hits(lib, m, lib.domain(a).value))
  {
  }

  lemma ProbeHits(lib: Library, m: Matcher, d: string)
    requires ReadsDomains(lib) && IsPlainDomain(d)
    ensures Matches(lib, m, d) <==> Hits(lib, m, d)
    ensures Matches(lib, m, "probe@" + d) <==> d in m.exact || Hits(lib, m, d) || Hits(lib, m, "probe@" + d)
  {
    var probe := "probe@" + d;
    PlainDomainText(d);
    ProbeText(d, probe);
    ProbeDomain(d, probe);
    HitsFixed(lib, m, d);
    HitsFixed(lib, m, probe);
    assert lib.domain(d) == ExtractDomain(d) && lib.domain(probe) == ExtractDomain(probe);
  }

  /** A pattern of one matches a domain of the other, or its probe address. */
  predicate Reaches(lib: Library, l: Matcher, r: Matcher) {
    exists d :: d in l.exact && (Hits(lib, r, d) || Hits(lib, r, "probe@" + d))
  }

  lemma OneSide(lib: Library, l: Matcher, r: Matcher)
    requires ReadsDomains(lib) && PlainDomains(l)
    ensures (exists d :: d in l.exact && (Matches(lib, r, d) || Matches(lib, r, "probe@" + d))) <==>
              (exists d :: d in l.exact && d in r.exact) || Reaches(lib, l, r)
  {
    if d :| d in l.exact && (Matches(lib, r, d) || Matches(lib, r, "probe@" + d)) {
      ProbeHits(lib, r, d);
    }
    if d :| d in l.exact && (d in r.exact || Hits(lib, r, d) || Hits(lib, r, "probe@" + d)) {
      ProbeHits(lib, r, d);
    }
  }

  lemma SharedPattern(l: Matcher, r: Matcher)
    ensures (exists p :: p in l.patterns && p in r.patterns) <==>
              exists i, j :: 0 <= i < |l.patterns| && 0 <= j < |r.patterns| && l.patterns[i] == r.patterns[j]
  {
    if i, j :| 0 <= i < |l.patterns| && 0 <= j < |r.patterns| && l.patterns[i] == r.patterns[j] {
      assert l.patterns[i] in l.patterns && l.patterns[i] in r.patterns;
    }
    if p :| p in l.patterns && p in r.patterns {
      var i :| 0 <= i < |l.patterns| && l.patterns[i] == p;
      var j :| 0 <= j < |r.patterns| && r.patterns[j] == p;
    }
  }

  /**
   * The ownership check finds an overlap exactly if the two share a domain or the text of a pattern, or a pattern of
   * one matches a domain of the other or its probe address.
   */
  lemma OverlapLaw(lib: Library, l: Matcher, r: Matcher)
    requires ReadsDomains(lib) && PlainDomains(l) && PlainDomains(r)
    ensures Overlaps(lib, l, r) <==>
              || (exists d :: d in l.exact && d in r.exact)
              || (exists p :: p in l.patterns && p in r.patterns)
              || Reaches(lib, l, r) || Reaches(lib, r, l)
  {
    OneSide(lib, l, r);
    OneSide(lib, r, l);
    SharedPattern(l, r);
  }

  // ---- Policies ----

  /** The report sender is blank, or one bare address with a domain. */
  predicate SenderValid(lib: Library, text: string) {
    var from := Trim(text);
    from == "" ||
      (lib.parseAddress(from).Some? && Lower(lib.parseAddress(from).value) == Lower(from) && lib.domain(from).Some?)
  }

  predicate HasReports(s: AppSettings) {
    exists i :: 0 <= i < |s.mailFailRules| && ReportAction(s.mailFailRules[i].action)
  }

  ghost predicate AllCompile(lib: Library, rules: seq<RuleInput>) {
    forall i :: 0 <= i < |rules| ==> Compile(rules[i], lib.parseDuration).Ok?
  }

  /** MailFail is off, or it has rules that all compile, and reports have a sender or a domain to be sent from. */
  ghost predicate RulesValid(lib: Library, s: AppSettings, domains: Matcher) {
    s.mailFailEnabled ==>
      && s.mailFailRules != [] && (HasReports(s) && Trim(s.reportFrom) == "" ==> domains.exact != {})
      && AllCompile(lib, s.mailFailRules)
  }

  lemma SenderLaw(lib: Library, text: string)
    ensures ReportSender(lib, text).Some? <==> SenderValid(lib, text)
    ensures ReportSender(lib, text).Some? ==> (ReportSender(lib, text).value == "" <==> Trim(text) == "")
    ensures ReportSender(lib, text).Some? && Trim(text) != "" ==>
        ReportSender(lib, text) == lib.parseAddress(Trim(text))
  {
    var from := Trim(text);
    var address := lib.parseAddress(from);
    if address.Some? {
      assert |Lower(address.value)| == |address.value| && |Lower(from)| == |from|;
    }
  }

  /** Every rule that is stored is compiled, in order. */
  lemma RulesLaw(lib: Library, rules: seq<RuleInput>, all: Option<seq<Rule>>)
    requires all == CompileAll(rules, (r: RuleInput) => Compile(r, lib.parseDuration))
    ensures all.Some? <==> AllCompile(lib, rules)
    ensures all.Some? ==> |all.value| == |rules|
    ensures all.Some? ==> forall i :: 0 <= i < |rules| ==> Compile(rules[i], lib.parseDuration) == Ok(all.value[i])
  {
    var compile := (r: RuleInput) => Compile(r, lib.parseDuration);
    assert forall i :: 0 <= i < |rules| ==> compile(rules[i]) == Compile(rules[i], lib.parseDuration);
  }

  /** What the settings give before their rules are looked at. */
  ghost predicate Parts(lib: Library, s: AppSettings, rcpt: Option<Matcher>, from: Option<Matcher>,
                        sender: Option<string>, rules: Option<seq<Rule>>) {
    && rcpt == NewMatcher(lib, PolicyList(s.acceptedRcptDomains))
    && from == NewMatcher(lib, PolicyList(s.acceptedFromDomains))
    && sender == ReportSender(lib, s.reportFrom)
    && rules == CompileAll(s.mailFailRules, (r: RuleInput) => Compile(r, lib.parseDuration))
  }

  lemma BuildOf(lib: Library, id: int, s: AppSettings, rcpt: Option<Matcher>, from: Option<Matcher>,
                sender: Option<string>, rules: Option<seq<Rule>>)
    requires Parts(lib, s, rcpt, from, sender, rules)
    ensures var networks := PolicyList(s.allowedRemoteIPs);
            BuildState(lib, id, s) ==
              if !lib.networksParse(networks) || rcpt.None? || from.None? || sender.None? then None
              else if !s.mailFailEnabled
                  then Some(PolicyState(id, rcpt.value, from.value, networks, None, sender.value))
              else if s.mailFailRules == [] || rules.None?
                      || (HasReports(s) && sender.value == "" && rcpt.value.exact == {}) then None
              else Some(PolicyState(id, rcpt.value, from.value, networks, rules, sender.value))
  {
    assert HasReports(s) <==> HasReportRules(s.mailFailRules);
  }

  /**
   * A mailbox can be built exactly if networks, domains, sender and rules are valid; the policy holds what they
   * mean.
   */
  lemma BuildLaw(lib: Library, id: int, s: AppSettings, rcpt: Option<Matcher>, from: Option<Matcher>,
                 sender: Option<string>, rules: Option<seq<Rule>>)
    requires Parts(lib, s, rcpt, from, sender, rules)
    ensures BuildState(lib, id, s).Some? <==>
              && lib.networksParse(PolicyList(s.allowedRemoteIPs)) && rcpt.Some? && from.Some?
              && SenderValid(lib, s.reportFrom) && RulesValid(lib, s, rcpt.value)
    ensures BuildState(lib, id, s).Some? ==>
              var p := BuildState(lib, id, s).value;
              && p.userId == id && p.networks == PolicyList(s.allowedRemoteIPs)
              && Some(p.rcpt) == rcpt && Some(p.from) == from && Some(p.reportFrom) == sender
              && p.rules == (if s.mailFailEnabled then rules else None)
  {
    BuildOf(lib, id, s, rcpt, from, sender, rules);
    SenderLaw(lib, s.reportFrom);
    RulesLaw(lib, s.mailFailRules, rules);
  }

  // ---- What routing sees ----

  /** The admin mailbox takes part in routing: something is configured for it. */
  predicate AdminTakesPart(db: Db) {
    db.admin.Some? &&
      var s := db.admin.value;
      || (s.mailFailEnabled && |s.mailFailRules| > 0) || s.autoDeleteAfterDays > 0
      || Trim(s.allowedRemoteIPs) != "" || Trim(s.acceptedRcptDomains) != "" || Trim(s.acceptedFromDomains) != ""
  }

  /** The mailbox's policy, if it can be built and has recipients. */
  predicate HasRecipients(b: Builder, id: int, s: AppSettings) {
    b(id, s).Some? && (b(id, s).value.rcpt.exact != {} || b(id, s).value.rcpt.patterns != [])
  }

  /**
   * The policies that recipients are matched with are those of the users and of the admin mailbox, if it takes part,
   * that have recipients; the instance-wide policy applies only if there is neither.
   */
  lemma ConfigLaw(b: Builder, db: Db, fallback: PolicyState, id: int)
    requires WellFormed(db)
    ensures var cfg := ConfigOf(b, db, fallback);
            && cfg.fallback == fallback && (cfg.managed <==> AdminTakesPart(db) || exists u :: u in db.users)
            && (cfg.policies.Some? <==>
                  && (AdminTakesPart(db) ==> b(0, db.admin.value).Some?)
                  && forall u :: u in db.users ==> b(u, db.settings[u]).Some?)
            && (cfg.policies.Some? ==>
                  && (id != 0 ==> (id in cfg.policies.value <==>
                        id in db.users && HasRecipients(b, id, db.settings[id])))
                  && (0 in cfg.policies.value <==> AdminTakesPart(db) && HasRecipients(b, 0, db.admin.value))
                  && (id in db.users && id in cfg.policies.value ==>
                        Some(cfg.policies.value[id]) == b(id, db.settings[id]))
                  && (0 in cfg.policies.value ==> Some(cfg.policies.value[0]) == b(0, db.admin.value)))
  {
    assert AdminEnabled(db) <==> AdminTakesPart(db);
    assert forall u :: u in MailboxIds(db) <==> u in db.users || (u == 0 && AdminEnabled(db));
  }
}
