/** Mailbox policies: how settings become matchers, and what a matcher accepts. */
module Policy {
  import opened Text
  import opened Address
  import opened SettingsLists
  import opened Settings
  import opened MailFailRules

  /** The library calls a policy depends on, and the readings of addresses it is modelled for. */
  datatype Library = Library(
    /** whether a regular expression compiles */
    compiles: string -> bool,
    /** whether a regular expression matches a text */
    matches: (string, string) -> bool,
    /** whether every entry of a list is an IP address or a network */
    networksParse: seq<string> -> bool,
    /** whether a remote address lies in one of the networks */
    inNetworks: (seq<string>, string) -> bool,
    /** the bare address of a mail header address */
    parseAddress: string -> Option<string>,
    parseDuration: string -> Option<int>,
    /** the domain of an address, as ExtractDomain reads it */
    domain: string -> Option<string>)

  /** The library's reading of domains is the program's. */
  ghost predicate ReadsDomains(lib: Library) {
    forall a :: lib.domain(a) == ExtractDomain(a)
  }

  // ---- Matchers ----

  datatype Matcher = Matcher(exact: set<string>, patterns: seq<string>)

  predicate Empty(m: Matcher) {
    m.exact == {} && m.patterns == []
  }

  predicate ExactOnly(m: Matcher) {
    m.patterns == []
  }

  predicate DomainChar(c: char) {
    'a' <= c <= 'z' || '0' <= c <= '9' || c == '.' || c == '-'
  }

  predicate IsPlainDomain(s: string) {
    && s != "" && s[0] != '.' && s[|s| - 1] != '.'
    && (forall i :: 0 <= i < |s| ==> DomainChar(s[i]))
    && exists i :: 0 <= i < |s| && s[i] == '.'
  }

  /** Plain domains are kept exactly; everything else must compile as a pattern. */
  function NewMatcher(lib: Library, values: seq<string>): (r: Option<Matcher>)
    ensures r.Some? ==> forall d :: d in r.value.exact ==> IsPlainDomain(d)
  {
    if values == [] then Some(Matcher({}, []))
    else
      var before := NewMatcher(lib, values[..|values| - 1]);
      var lower := LowerTrim(values[|values| - 1]);
      if before.None? || lower == "" then before
      else if IsPlainDomain(lower) then Some(before.value.(exact := before.value.exact + {lower}))
      else if !lib.compiles(lower) then None
      else Some(before.value.(patterns := before.value.patterns + [lower]))
  }

  /** The matcher on a trimmed, lower-cased address. */
  predicate MatchesNormalized(lib: Library, m: Matcher, address: string) {
    var domain := lib.domain(address);
    && address != ""
    && (|| (domain.Some? && domain.value in m.exact)
        || exists i :: 0 <= i < |m.patterns| &&
             (lib.matches(m.patterns[i], address) || (domain.Some? && lib.matches(m.patterns[i], domain.value))))
  }

  predicate Matches(lib: Library, m: Matcher, address: string) {
    MatchesNormalized(lib, m, LowerTrim(address))
  }

  /** The configuration-time probe for two mailboxes that accept the same recipients. */
  predicate Overlaps(lib: Library, l: Matcher, r: Matcher) {
    && !Empty(l) && !Empty(r)
    && (|| (exists d :: d in l.exact && (Matches(lib, r, d) || Matches(lib, r, "probe@" + d)))
        || (exists d :: d in r.exact && (Matches(lib, l, d) || Matches(lib, l, "probe@" + d)))
        || (exists i, j :: 0 <= i < |l.patterns| && 0 <= j < |r.patterns| && l.patterns[i] == r.patterns[j]))
  }

  lemma OverlapsSymmetric(lib: Library, l: Matcher, r: Matcher)
    ensures Overlaps(lib, l, r) <==> Overlaps(lib, r, l)
  {
  }

  // ---- Policies ----

  datatype PolicyState = PolicyState(
    userId: int, rcpt: Matcher, from: Matcher, networks: seq<string>, rules: Option<seq<Rule>>, reportFrom: string)

  /** Every rule compiled, or None if one is invalid. */
  function CompileAll(rules: seq<RuleInput>, compile: RuleInput -> Result<Rule, RuleError>): (r: Option<seq<Rule>>)
    ensures r.Some? ==> |r.value| == |rules| && forall i :: 0 <= i < |rules| ==> compile(rules[i]) == Ok(r.value[i])
    ensures r.None? ==> exists i :: 0 <= i < |rules| && compile(rules[i]).Err?
  {
    if rules == [] then Some([])
    else
      var before := CompileAll(rules[..|rules| - 1], compile);
      var last := compile(rules[|rules| - 1]);
      if before.None? || last.Err? then None else Some(before.value + [last.value])
  }

  predicate HasReportRules(rules: seq<RuleInput>) {
    exists i :: 0 <= i < |rules| && ReportAction(rules[i].action)
  }

  /** The report sender, or None if it is set and is not one bare address. */
  function ReportSender(lib: Library, text: string): Option<string> {
    var from := Trim(text);
    if from == "" then Some("")
    else
      var address := lib.parseAddress(from);
      if address.None? || Lower(address.value) != Lower(from) || lib.domain(from).None? then None
      else Some(address.value)
  }

  predicate PlainDomains(m: Matcher) {
    forall d :: d in m.exact ==> IsPlainDomain(d)
  }

  /** The policy of a mailbox, or None if its settings are invalid. */
  function BuildState(lib: Library, userId: int, s: AppSettings): (r: Option<PolicyState>)
    ensures r.Some? ==> r.value.userId == userId && PlainDomains(r.value.rcpt)
  {
    var networks := PolicyList(s.allowedRemoteIPs);
    var rcpt := NewMatcher(lib, PolicyList(s.acceptedRcptDomains));
    var from := NewMatcher(lib, PolicyList(s.acceptedFromDomains));
    var sender := ReportSender(lib, s.reportFrom);
    if !lib.networksParse(networks) || rcpt.None? || from.None? || sender.None? then None
    else if !s.mailFailEnabled then Some(PolicyState(userId, rcpt.value, from.value, networks, None, sender.value))
    else
      var rules := CompileAll(s.mailFailRules, (r: RuleInput) => Compile(r, lib.parseDuration));
      if s.mailFailRules == [] || rules.None? then None
      else if HasReportRules(s.mailFailRules) && sender.value == "" && rcpt.value.exact == {} then None
      else Some(PolicyState(userId, rcpt.value, from.value, networks, rules, sender.value))
  }

  /**
   * How settings are turned into policies. Configuration and routing are modelled for any builder
   * that, like `BuildState`, gives a policy the id it is asked for and reads domains the same for every id.
   */
  type Builder = (int, AppSettings) -> Option<PolicyState>

  ghost predicate SoundBuilder(b: Builder) {
    && (forall id, s :: b(id, s).Some? ==> b(id, s).value.userId == id)
    && (forall id, s :: b(id, s).Some? ==> PlainDomains(b(id, s).value.rcpt))
    && (forall id, id', s :: b(id, s).Some? ==> b(id', s).Some? && b(id', s).value.rcpt == b(id, s).value.rcpt)
  }

  function BuilderOf(lib: Library): Builder {
    (id: int, s: AppSettings) => BuildState(lib, id, s)
  }

  lemma BuilderIsSound(lib: Library)
    ensures SoundBuilder(BuilderOf(lib))
  {
    var b := BuilderOf(lib);
    forall id, id', s | b(id, s).Some?
      ensures b(id', s).Some? && b(id', s).value.rcpt == b(id, s).value.rcpt
    {
      assert b(id, s) == BuildState(lib, id, s) && b(id', s) == BuildState(lib, id', s);
    }
    forall id, s | b(id, s).Some?
      ensures b(id, s).value.userId == id && PlainDomains(b(id, s).value.rcpt)
    {
      assert b(id, s) == BuildState(lib, id, s);
    }
  }

  // ---- Exact domains ----

  lemma PlainDomainText(d: string)
    requires IsPlainDomain(d)
    ensures LowerTrim(d) == d
    ensures ExtractDomain(d).None?
  {
    TrimFixed(d);
    assert Lower(d) == d;
    assert forall i :: 0 <= i < |d| ==> d[i] != '@';
  }

  lemma OnePlainDomain(lib: Library, d: string)
    requires IsPlainDomain(d)
    ensures NewMatcher(lib, [d]) == Some(Matcher({d}, []))
  {
    PlainDomainText(d);
    assert [d][..0] == [];
    assert NewMatcher(lib, []) == Some(Matcher({}, []));
    assert {} + {d} == {d};
  }

  lemma OnePattern(lib: Library, pattern: string)
    requires LowerTrim(pattern) == pattern && pattern != "" && !IsPlainDomain(pattern) && lib.compiles(pattern)
    ensures NewMatcher(lib, [pattern]) == Some(Matcher({}, [pattern]))
  {
    assert [pattern][..0] == [];
    assert [] + [pattern] == [pattern];
  }

  lemma ProbeText(d: string, probe: string)
    requires IsPlainDomain(d) && probe == "probe@" + d
    ensures LowerTrim(probe) == probe
    ensures |probe| == 6 + |d| && probe[0] == 'p' && probe[5] == '@' && probe[6..] == d
  {
    assert forall i :: 6 <= i < |probe| ==> probe[i] == d[i - 6];
    TrimFixed(probe);
    assert forall i :: 0 <= i < |probe| ==> LowerChar(probe[i]) == probe[i];
    assert Lower(probe) == probe;
  }

  lemma ProbeDomain(d: string, probe: string)
    requires IsPlainDomain(d) && |probe| == 6 + |d| && probe[0] == 'p' && probe[5] == '@' && probe[6..] == d
    ensures ExtractDomain(probe) == Some(d)
  {
    assert forall i :: 6 <= i < |probe| ==> probe[i] == d[i - 6];
    assert TrimWindow(probe, 0, |probe|) == (0, |probe|);
    assert LastIndexIn(probe, '@', 0, |probe|) == Some(5);
    assert TrimWindow(probe, 6, |probe|) == (6, |probe|);
    assert probe[6..|probe|] == d;
    assert Lower(d) == d;
  }

  lemma MatchesFixed(lib: Library, m: Matcher, a: string)
    requires ExactOnly(m) && LowerTrim(a) == a
    ensures Matches(lib, m, a) <==> a != "" && lib.domain(a).Some? && lib.domain(a).value in m.exact
  {
  }

  /** The probe address of a plain domain finds exactly the matchers that list it. */
  lemma ProbeMatches(lib: Library, m: Matcher, d: string)
    requires ReadsDomains(lib) && ExactOnly(m) && IsPlainDomain(d)
    ensures !Matches(lib, m, d)
    ensures Matches(lib, m, "probe@" + d) <==> d in m.exact
  {
    var probe := "probe@" + d;
    PlainDomainText(d);
    ProbeText(d, probe);
    ProbeDomain(d, probe);
    MatchesFixed(lib, m, d);
    MatchesFixed(lib, m, probe);
    assert lib.domain(d) == ExtractDomain(d) && lib.domain(probe) == ExtractDomain(probe);
  }

  /** For two mailboxes without patterns the probe is exact: it finds an overlap if and only if they share a domain. */
  lemma ExactOverlap(lib: Library, l: Matcher, r: Matcher)
    requires ReadsDomains(lib) && ExactOnly(l) && ExactOnly(r) && PlainDomains(l) && PlainDomains(r)
    ensures Overlaps(lib, l, r) <==> exists d :: d in l.exact && d in r.exact
  {
    if Overlaps(lib, l, r) {
      if d :| d in l.exact && (Matches(lib, r, d) || Matches(lib, r, "probe@" + d)) {
        ProbeMatches(lib, r, d);
      } else {
        var d :| d in r.exact && (Matches(lib, l, d) || Matches(lib, l, "probe@" + d));
        ProbeMatches(lib, l, d);
      }
    }
    if d :| d in l.exact && d in r.exact {
      ProbeMatches(lib, r, d);
    }
  }

  /** A mailbox without patterns accepts exactly the addresses in its domains. */
  lemma ExactMatch(lib: Library, m: Matcher, address: string)
    requires ReadsDomains(lib) && ExactOnly(m)
    ensures Matches(lib, m, address) <==>
        lib.domain(LowerTrim(address)).Some? && lib.domain(LowerTrim(address)).value in m.exact
  {
    assert lib.domain("") == ExtractDomain("");
  }

  lemma PatternMatches(lib: Library, pattern: string, a: string, normalized: string)
    requires LowerTrim(a) == normalized && normalized != ""
    ensures Matches(lib, Matcher({}, [pattern]), a) <==>
              lib.matches(pattern, normalized)
                  || (lib.domain(normalized).Some? && lib.matches(pattern, lib.domain(normalized).value))
  {
    var m := Matcher({}, [pattern]);
    assert m.patterns[0] == pattern;
  }

  lemma PatternOverlap(lib: Library, pattern: string, d: string)
    ensures var r := Matcher({}, [pattern]);
            Overlaps(lib, Matcher({d}, []), r) <==> Matches(lib, r, d) || Matches(lib, r, "probe@" + d)
  {
    var l, r := Matcher({d}, []), Matcher({}, [pattern]);
    assert d in l.exact;
  }

  /**
   * Between a plain domain and a pattern, the probe finds an overlap exactly if the pattern matches the bare domain
   * or its probe address.
   */
  lemma ProbeSees(lib: Library, pattern: string, d: string)
    requires ReadsDomains(lib) && IsPlainDomain(d)
    ensures Overlaps(lib, Matcher({d}, []), Matcher({}, [pattern])) <==>
        lib.matches(pattern, d) || lib.matches(pattern, "probe@" + d)
  {
    var probe := "probe@" + d;
    PlainDomainText(d);
    ProbeText(d, probe);
    ProbeDomain(d, probe);
    assert lib.domain(d) == ExtractDomain(d) && lib.domain(probe) == ExtractDomain(probe);
    PatternMatches(lib, pattern, d, d);
    PatternMatches(lib, pattern, probe, probe);
    PatternOverlap(lib, pattern, d);
  }

  /** Both mailboxes accept the recipient, and the configuration-time probe does not see it. */
  predicate Unnoticed(lib: Library, l: Matcher, r: Matcher, recipient: string) {
    Matches(lib, l, recipient) && Matches(lib, r, recipient) && !Overlaps(lib, l, r)
  }

  /** Two mailboxes without patterns share no recipient unnoticed. */
  lemma ExactNeverUnnoticed(lib: Library, l: Matcher, r: Matcher, recipient: string)
    requires ReadsDomains(lib) && ExactOnly(l) && ExactOnly(r) && PlainDomains(l) && PlainDomains(r)
    ensures !Unnoticed(lib, l, r, recipient)
  {
    ExactMatch(lib, l, recipient);
    ExactMatch(lib, r, recipient);
    ExactOverlap(lib, l, r);
  }

  /**
   * A plain domain and a pattern both accept a recipient unnoticed exactly if the recipient is in the
   * domain and the pattern matches it, but matches neither the bare domain nor the probe address.
   */
  lemma ProbeMisses(lib: Library, pattern: string, d: string, recipient: string)
    requires ReadsDomains(lib) && IsPlainDomain(d)
    ensures Unnoticed(lib, Matcher({d}, []), Matcher({}, [pattern]), recipient) <==>
              && lib.domain(LowerTrim(recipient)) == Some(d) && lib.matches(pattern, LowerTrim(recipient))
              && !lib.matches(pattern, d) && !lib.matches(pattern, "probe@" + d)
  {
    ProbeSees(lib, pattern, d);
    ExactMatch(lib, Matcher({d}, []), recipient);
    if LowerTrim(recipient) != "" {
      PatternMatches(lib, pattern, recipient, LowerTrim(recipient));
    } else {
      assert lib.domain("") == ExtractDomain("");
    }
  }

  /** Patterns that start with '^' and hold no other special character match the texts that start with the rest. */
  const PREFIX_PATTERNS: Library := Library(
    (_: string) => true,
    (p: string, text: string) => p != "" && p[0] == '^' && p[1..] <= text,
    (_: seq<string>) => true, (_: seq<string>, _: string) => true,
    (_: string) => None, (_: string) => None,
    (a: string) => ExtractDomain(a))

  lemma PrefixOnly(pattern: string, bob: string, d: string, probe: string)
    requires bob == "bob@b.test" && d == "b.test" && pattern == "^bob@" && |probe| > 6 && probe[0] == 'p'
    ensures PREFIX_PATTERNS.matches(pattern, bob) && !PREFIX_PATTERNS.matches(pattern, d)
        && !PREFIX_PATTERNS.matches(pattern, probe)
  {
    assert pattern[1..] == "bob@" == bob[..4];
    assert d[1] != pattern[1..][1] && probe[0] != pattern[1..][0];
  }

  lemma BobIsLower(bob: string)
    requires bob == "bob@b.test"
    ensures LowerTrim(bob) == bob && IndexIn(bob, '@', 0, |bob|) == Some(3)
  {
    TrimFixed(bob);
    assert Lower(bob) == bob;
    assert bob[3] == '@';
  }

  lemma BobIsAtDomain(bob: string, d: string)
    requires bob == "bob@b.test" && d == "b.test"
    ensures IsPlainDomain(d) && LowerTrim(bob) == bob && ExtractDomain(bob) == Some(d)
  {
    assert d[1] == '.';
    BobIsLower(bob);
    assert bob[3] == '@' && bob[4..] == d;
    DomainsAgree(bob);
    assert Lower(d) == d;
  }

  /**
   * One user owns the domain b.test and another the pattern ^bob@: both accept bob@b.test, and the probe does not
   * see it.
   */
  lemma BobIsUnnoticed(bob: string, d: string, pattern: string)
    requires bob == "bob@b.test" && d == "b.test" && pattern == "^bob@"
    ensures Unnoticed(PREFIX_PATTERNS, Matcher({d}, []), Matcher({}, [pattern]), bob)
  {
    BobIsAtDomain(bob, d);
    PrefixOnly(pattern, bob, d, "probe@" + d);
    ProbeMisses(PREFIX_PATTERNS, pattern, d, bob);
  }
}
