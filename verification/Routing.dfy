/** Which mailbox a recipient belongs to, as the SMTP server decides it from the stored mailboxes. */
module Routing {
  import opened Text
  import opened Settings
  import opened Policy
  import opened Mailboxes

  /** What the SMTP side sees of the store: the routable policies, or None if one cannot be built. */
  datatype Config = Config(policies: Option<map<int, PolicyState>>, managed: bool, fallback: PolicyState)

  predicate MailboxEnabled(s: AppSettings) {
    || (s.mailFailEnabled && s.mailFailRules != [])
    || Trim(s.allowedRemoteIPs) != "" || Trim(s.acceptedRcptDomains) != "" || Trim(s.acceptedFromDomains) != ""
    || s.autoDeleteAfterDays > 0
  }

  predicate AdminEnabled(db: Db) {
    db.admin.Some? && MailboxEnabled(db.admin.value)
  }

  /** The settings of a mailbox that takes part in routing. */
  function MailboxSettings(db: Db, id: int): Option<AppSettings> {
    if id in db.users then Some(SettingsOf(db, id))
    else if id == 0 && AdminEnabled(db) then Some(db.admin.value)
    else None
  }

  function MailboxIds(db: Db): set<int> {
    db.users.Keys + if AdminEnabled(db) then {0} else {}
  }

  predicate Routable(b: Builder, db: Db, id: int) {
    && MailboxSettings(db, id).Some?
    && b(id, MailboxSettings(db, id).value).Some?
    && !Empty(b(id, MailboxSettings(db, id).value).value.rcpt)
  }

  /** The policies with recipient domains; one mailbox that cannot be built makes the lookup fail. */
  function PolicyUsers(b: Builder, db: Db): (r: Option<map<int, PolicyState>>)
    ensures r.Some? ==> forall id :: id in r.value <==> id in MailboxIds(db) && Routable(b, db, id)
    ensures r.Some? ==> forall id :: id in r.value ==> Some(r.value[id]) == b(id, MailboxSettings(db, id).value)
  {
    if exists id :: id in MailboxIds(db) && b(id, MailboxSettings(db, id).value).None? then None
    else Some(map id | id in MailboxIds(db) && Routable(b, db, id) :: b(id, MailboxSettings(db, id).value).value)
  }

  function ConfigOf(b: Builder, db: Db, fallback: PolicyState): Config {
    Config(PolicyUsers(b, db), db.users != map[] || AdminEnabled(db), fallback)
  }

  // ---- One recipient ----

  predicate ConnectAllowed(lib: Library, p: PolicyState, remoteIP: string) {
    p.networks == [] || lib.inNetworks(p.networks, remoteIP)
  }

  predicate MatchesPolicy(lib: Library, p: PolicyState, remoteIP: string, mailFrom: string, recipient: string) {
    && ConnectAllowed(lib, p, remoteIP)
    && (Empty(p.from) || Matches(lib, p.from, mailFrom))
    && (Empty(p.rcpt) || Matches(lib, p.rcpt, recipient))
  }

  predicate DomainScoped(policies: map<int, PolicyState>) {
    exists id :: id in policies && !Empty(policies[id].rcpt)
  }

  function Candidates(lib: Library, policies: map<int, PolicyState>, remoteIP: string, mailFrom: string,
                      recipient: string): set<int> {
    set id | id in policies && !(DomainScoped(policies) && Empty(policies[id].rcpt))
             && MatchesPolicy(lib, policies[id], remoteIP, mailFrom, recipient)
  }

  // ---- What the ownership check keeps apart ----

  ghost predicate IsMailbox(db: Db, id: int) {
    id in db.users || (id == 0 && db.admin.Some?)
  }

  function StoredSettings(db: Db, id: int): AppSettings
    requires IsMailbox(db, id)
  {
    if id in db.users then SettingsOf(db, id) else db.admin.value
  }

  ghost predicate Built(b: Builder, db: Db, id: int) {
    IsMailbox(db, id) && b(id, StoredSettings(db, id)).Some?
  }

  function RcptOf(b: Builder, db: Db, id: int): Matcher
    requires Built(b, db, id)
  {
    b(id, StoredSettings(db, id)).value.rcpt
  }

  /** A relation between the recipients of two mailboxes. */
  type Relation = (Matcher, Matcher) -> bool

  ghost predicate Pairwise(rel: Relation, b: Builder, db: Db) {
    forall i, j :: Built(b, db, i) && Built(b, db, j) && i != j ==> rel(RcptOf(b, db, i), RcptOf(b, db, j))
  }

  /** The relation holds both ways wherever the ownership check finds no overlap. */
  ghost predicate Checked(lib: Library, rel: Relation) {
    forall l, r :: PlainDomains(l) && PlainDomains(r) && !Overlaps(lib, l, r) ==> rel(l, r) && rel(r, l)
  }

  lemma FreeIsRelated(lib: Library, b: Builder, rel: Relation, db: Db, owner: int, s: AppSettings, id: int, j: int)
    requires Checked(lib, rel) && SoundBuilder(b) && OwnershipFree(lib, b, db, owner, s)
    requires b(id, s).Some? && Built(b, db, j) && j != owner && (j == 0 ==> owner != 0 && 0 !in db.users)
    ensures rel(b(id, s).value.rcpt, RcptOf(b, db, j)) && rel(RcptOf(b, db, j), b(id, s).value.rcpt)
  {
    var mine, other := b(owner, s).value.rcpt, b(j, StoredSettings(db, j));
    assert b(id, s).value.rcpt == mine;
    assert PlainDomains(mine) && PlainDomains(other.value.rcpt);
    if !Empty(mine) {
      assert FreeOf(lib, b(owner, s).value, other);
    }
    assert !Overlaps(lib, mine, other.value.rcpt);
  }

  /**
   * A call that leaves all mailboxes but `id` as they were, and gives `id` the checked settings `s`, keeps the
   * relation.
   */
  lemma SavedKeepsPairs(lib: Library, b: Builder, rel: Relation, db: Db, r: Db, owner: int, id: int, s: AppSettings)
    requires Checked(lib, rel) && SoundBuilder(b) && WellFormed(db) && WellFormed(r) && Pairwise(rel, b, db)
    requires OwnershipFree(lib, b, db, owner, s) && (owner == id || (owner == -1 && !IsMailbox(db, id)))
    requires IsMailbox(r, id) && StoredSettings(r, id) == s
    requires forall j :: j != id ==> (IsMailbox(r, j) <==> IsMailbox(db, j))
    requires forall j :: j != id && IsMailbox(r, j) ==> StoredSettings(r, j) == StoredSettings(db, j)
    ensures Pairwise(rel, b, r)
  {
    forall i, j | Built(b, r, i) && Built(b, r, j) && i != j ensures rel(RcptOf(b, r, i), RcptOf(b, r, j)) {
      if i == id {
        assert Built(b, db, j) && RcptOf(b, db, j) == RcptOf(b, r, j);
        FreeIsRelated(lib, b, rel, db, owner, s, i, j);
      } else if j == id {
        assert Built(b, db, i) && RcptOf(b, db, i) == RcptOf(b, r, i);
        FreeIsRelated(lib, b, rel, db, owner, s, j, i);
      } else {
        assert Built(b, db, i) && RcptOf(b, db, i) == RcptOf(b, r, i);
        assert Built(b, db, j) && RcptOf(b, db, j) == RcptOf(b, r, j);
      }
    }
  }

  /** A call that at most removes mailboxes keeps it, too. */
  lemma FewerKeepPairs(b: Builder, rel: Relation, db: Db, r: Db)
    requires Pairwise(rel, b, db)
    requires forall j :: IsMailbox(r, j) ==> IsMailbox(db, j) && StoredSettings(r, j) == StoredSettings(db, j)
    ensures Pairwise(rel, b, r)
  {
    forall i, j | Built(b, r, i) && Built(b, r, j) && i != j ensures rel(RcptOf(b, r, i), RcptOf(b, r, j)) {
      assert Built(b, db, i) && RcptOf(b, db, i) == RcptOf(b, r, i);
      assert Built(b, db, j) && RcptOf(b, db, j) == RcptOf(b, r, j);
    }
  }

  lemma CreateUserKeepsPairs(lib: Library, b: Builder, rel: Relation, db: Db, op: Op)
    requires Checked(lib, rel) && SoundBuilder(b) && WellFormed(db) && Pairwise(rel, b, db) && op.CreateUser?
    ensures Pairwise(rel, b, Step(lib, b, db, op).0)
  {
    var r := Step(lib, b, db, op).0;
    if r != db {
      StepWellFormed(lib, b, db, op);
      SavedKeepsPairs(lib, b, rel, db, r, -1, db.nextUser, op.s);
    }
  }

  lemma UpdateUserKeepsPairs(lib: Library, b: Builder, rel: Relation, db: Db, op: Op)
    requires Checked(lib, rel) && SoundBuilder(b) && WellFormed(db) && Pairwise(rel, b, db) && op.UpdateUser?
    ensures Pairwise(rel, b, Step(lib, b, db, op).0)
  {
    var r := Step(lib, b, db, op).0;
    if UpdateAllowed(lib, b, db, op.id, op.name, op.s, op.reserved) && op.id in db.users && op.ok.write {
      StepWellFormed(lib, b, db, op);
      SavedKeepsPairs(lib, b, rel, db, r, op.id, op.id, op.s);
    }
  }

  lemma UpdateSettingsKeepsPairs(lib: Library, b: Builder, rel: Relation, db: Db, op: Op)
    requires Checked(lib, rel) && SoundBuilder(b) && WellFormed(db) && Pairwise(rel, b, db) && op.UpdateSettings?
    ensures Pairwise(rel, b, Step(lib, b, db, op).0)
  {
    var r := Step(lib, b, db, op).0;
    if op.id in db.users && OwnershipFree(lib, b, db, op.id, op.s) && op.ok.write {
      StepWellFormed(lib, b, db, op);
      SavedKeepsPairs(lib, b, rel, db, r, op.id, op.id, op.s);
    }
  }

  lemma UpdateAdminKeepsPairs(lib: Library, b: Builder, rel: Relation, db: Db, op: Op)
    requires Checked(lib, rel) && SoundBuilder(b) && WellFormed(db) && Pairwise(rel, b, db) && op.UpdateAdminMailbox?
    ensures Pairwise(rel, b, Step(lib, b, db, op).0)
  {
    var r := Step(lib, b, db, op).0;
    if OwnershipFree(lib, b, db, 0, op.s) && op.ok.write {
      StepWellFormed(lib, b, db, op);
      SavedKeepsPairs(lib, b, rel, db, r, 0, 0, op.s);
    }
  }

  /** Every service call, whatever of it fails, keeps every relation that the ownership check ensures. */
  lemma StepKeepsPairs(lib: Library, b: Builder, rel: Relation, db: Db, op: Op)
    requires Checked(lib, rel) && SoundBuilder(b) && WellFormed(db) && Pairwise(rel, b, db)
    ensures Pairwise(rel, b, Step(lib, b, db, op).0)
  {
    match op {
      case CreateUser(_, _, _, _, _) => CreateUserKeepsPairs(lib, b, rel, db, op);
      case UpdateUser(_, _, _, _, _, _) => UpdateUserKeepsPairs(lib, b, rel, db, op);
      case UpdateSettings(_, _, _) => UpdateSettingsKeepsPairs(lib, b, rel, db, op);
      case UpdateAdminMailbox(_, _) => UpdateAdminKeepsPairs(lib, b, rel, db, op);
      case _ => FewerKeepPairs(b, rel, db, Step(lib, b, db, op).0);
    }
  }

  lemma {:induction false} RunsKeepPairs(lib: Library, b: Builder, rel: Relation, db: Db, ops: seq<Op>)
    requires Checked(lib, rel) && SoundBuilder(b) && WellFormed(db) && Pairwise(rel, b, db)
    ensures WellFormed(Run(lib, b, db, ops)) && Pairwise(rel, b, Run(lib, b, db, ops))
    decreases |ops|
  {
    if ops != [] {
      StepKeepsPairs(lib, b, rel, db, ops[0]);
      StepWellFormed(lib, b, db, ops[0]);
      RunsKeepPairs(lib, b, rel, Step(lib, b, db, ops[0]).0, ops[1..]);
    }
  }

  // ---- Separate and disjoint mailboxes ----

  function Unprobed(lib: Library): Relation {
    (l: Matcher, r: Matcher) => !Overlaps(lib, l, r)
  }

  /** The probe finds no overlap between any two mailboxes, patterns or not. */
  ghost predicate Separate(lib: Library, b: Builder, db: Db) {
    Pairwise(Unprobed(lib), b, db)
  }

  const APART: Relation := (l: Matcher, r: Matcher) => ExactOnly(l) && ExactOnly(r) ==> l.exact !! r.exact

  /** No domain is accepted by two mailboxes without patterns. */
  ghost predicate Disjoint(b: Builder, db: Db) {
    Pairwise(APART, b, db)
  }

  lemma UnprobedIsChecked(lib: Library)
    ensures Checked(lib, Unprobed(lib))
  {
    forall l, r | !Overlaps(lib, l, r) ensures !Overlaps(lib, r, l) {
      OverlapsSymmetric(lib, l, r);
    }
  }

  lemma ApartIsChecked(lib: Library)
    requires ReadsDomains(lib)
    ensures Checked(lib, APART)
  {
    forall l, r | PlainDomains(l) && PlainDomains(r) && !Overlaps(lib, l, r) ensures APART(l, r) && APART(r, l) {
      if ExactOnly(l) && ExactOnly(r) {
        ExactOverlap(lib, l, r);
      }
    }
  }

  lemma {:induction false} RunsStaySeparate(lib: Library, b: Builder, db: Db, ops: seq<Op>)
    requires SoundBuilder(b) && WellFormed(db) && Separate(lib, b, db)
    ensures Separate(lib, b, Run(lib, b, db, ops))
  {
    UnprobedIsChecked(lib);
    RunsKeepPairs(lib, b, Unprobed(lib), db, ops);
  }

  /** Every service call, whatever of it fails, keeps exact-domain mailboxes disjoint. */
  lemma StepStaysDisjoint(lib: Library, b: Builder, db: Db, op: Op)
    requires ReadsDomains(lib) && SoundBuilder(b) && WellFormed(db) && Disjoint(b, db)
    ensures Disjoint(b, Step(lib, b, db, op).0)
  {
    ApartIsChecked(lib);
    StepKeepsPairs(lib, b, APART, db, op);
  }

  lemma {:induction false} RunsStayDisjoint(lib: Library, b: Builder, db: Db, ops: seq<Op>)
    requires ReadsDomains(lib) && SoundBuilder(b) && WellFormed(db) && Disjoint(b, db)
    ensures WellFormed(Run(lib, b, db, ops)) && Disjoint(b, Run(lib, b, db, ops))
  {
    ApartIsChecked(lib);
    RunsKeepPairs(lib, b, APART, db, ops);
  }

  // ---- Every stored mailbox can be built ----

  ghost predicate AllBuild(b: Builder, db: Db) {
    forall id :: IsMailbox(db, id) ==> b(id, StoredSettings(db, id)).Some?
  }

  lemma SavedWasBuilt(lib: Library, b: Builder, db: Db, op: Op, id: int)
    requires SoundBuilder(b) && WellFormed(db)
    requires var r := Step(lib, b, db, op).0;
             IsMailbox(r, id) && !(IsMailbox(db, id) && StoredSettings(r, id) == StoredSettings(db, id))
    ensures var r := Step(lib, b, db, op).0; b(id, StoredSettings(r, id)).Some?
  {
  }

  /** Settings are saved only after they were built. */
  lemma StepStaysBuilt(lib: Library, b: Builder, db: Db, op: Op)
    requires SoundBuilder(b) && WellFormed(db) && AllBuild(b, db)
    ensures AllBuild(b, Step(lib, b, db, op).0)
  {
    var r := Step(lib, b, db, op).0;
    StepWellFormed(lib, b, db, op);
    forall id | IsMailbox(r, id) ensures b(id, StoredSettings(r, id)).Some? {
      if IsMailbox(db, id) && StoredSettings(r, id) == StoredSettings(db, id) {
        assert b(id, StoredSettings(db, id)).Some?;
      } else {
        SavedWasBuilt(lib, b, db, op, id);
      }
    }
  }

  lemma {:induction false} RunsStayBuilt(lib: Library, b: Builder, db: Db, ops: seq<Op>)
    requires SoundBuilder(b) && WellFormed(db) && AllBuild(b, db)
    ensures AllBuild(b, Run(lib, b, db, ops))
    decreases |ops|
  {
    if ops != [] {
      StepStaysBuilt(lib, b, db, ops[0]);
      StepWellFormed(lib, b, db, ops[0]);
      RunsStayBuilt(lib, b, Step(lib, b, db, ops[0]).0, ops[1..]);
    }
  }

  /**
   * In every state reached from the empty store by service calls, whatever of them fails, the lookup of policies
   * succeeds.
   */
  lemma LookupSucceeds(lib: Library, b: Builder, ops: seq<Op>)
    requires SoundBuilder(b)
    ensures PolicyUsers(b, Run(lib, b, EMPTY_DB, ops)).Some?
  {
    var db := Run(lib, b, EMPTY_DB, ops);
    RunsStayBuilt(lib, b, EMPTY_DB, ops);
    forall id | id in MailboxIds(db) ensures b(id, MailboxSettings(db, id).value).Some? {
      assert IsMailbox(db, id) && StoredSettings(db, id) == MailboxSettings(db, id).value;
    }
  }

  // ---- Unambiguous routing ----

  /** The routable policies after a sequence of service calls on the empty store. */
  function ReachedPolicies(lib: Library, b: Builder, ops: seq<Op>): map<int, PolicyState> {
    var policies := PolicyUsers(b, Run(lib, b, EMPTY_DB, ops));
    if policies.Some? then policies.value else map[]
  }

  /** A routable policy is that of a mailbox that can be built and has recipients. */
  lemma ReachedIsBuilt(lib: Library, b: Builder, ops: seq<Op>, id: int)
    requires SoundBuilder(b) && id in ReachedPolicies(lib, b, ops)
    ensures var db := Run(lib, b, EMPTY_DB, ops);
            var p := ReachedPolicies(lib, b, ops)[id];
            Built(b, db, id) && RcptOf(b, db, id) == p.rcpt && !Empty(p.rcpt) && PlainDomains(p.rcpt)
  {
    var db := Run(lib, b, EMPTY_DB, ops);
    assert StoredSettings(db, id) == MailboxSettings(db, id).value;
  }

  /**
   * In every state reached from the empty store by service calls: any two candidates of a recipient are a
   * pair that the ownership check does not notice, patterns or not.
   */
  lemma CandidatesAreUnnoticed(lib: Library, b: Builder, ops: seq<Op>, remoteIP: string, mailFrom: string,
                               recipient: string, i: int, j: int)
    requires SoundBuilder(b) && i != j
    requires i in Candidates(lib, ReachedPolicies(lib, b, ops), remoteIP, mailFrom, recipient)
    requires j in Candidates(lib, ReachedPolicies(lib, b, ops), remoteIP, mailFrom, recipient)
    ensures Unnoticed(lib, ReachedPolicies(lib, b, ops)[i].rcpt, ReachedPolicies(lib, b, ops)[j].rcpt, recipient)
  {
    var db := Run(lib, b, EMPTY_DB, ops);
    ReachedIsBuilt(lib, b, ops, i);
    ReachedIsBuilt(lib, b, ops, j);
    RunsStaySeparate(lib, b, EMPTY_DB, ops);
    assert Unprobed(lib)(RcptOf(b, db, i), RcptOf(b, db, j));
  }

  /** So at most one of the mailboxes without patterns is a candidate. */
  lemma OneExactCandidate(lib: Library, b: Builder, ops: seq<Op>, remoteIP: string, mailFrom: string,
                          recipient: string, i: int, j: int)
    requires ReadsDomains(lib) && SoundBuilder(b)
    requires var policies := ReachedPolicies(lib, b, ops);
             && i in Candidates(lib, policies, remoteIP, mailFrom, recipient) && ExactOnly(policies[i].rcpt)
             && j in Candidates(lib, policies, remoteIP, mailFrom, recipient) && ExactOnly(policies[j].rcpt)
    ensures i == j
  {
    var policies := ReachedPolicies(lib, b, ops);
    if i != j {
      CandidatesAreUnnoticed(lib, b, ops, remoteIP, mailFrom, recipient, i, j);
      ExactNeverUnnoticed(lib, policies[i].rcpt, policies[j].rcpt, recipient);
    }
  }

  /** When no stored mailbox uses patterns, every recipient has at most one candidate. */
  lemma AtMostOneCandidate(lib: Library, b: Builder, ops: seq<Op>, remoteIP: string, mailFrom: string,
                           recipient: string)
    requires ReadsDomains(lib) && SoundBuilder(b)
    requires forall id :: id in ReachedPolicies(lib, b, ops) ==> ExactOnly(ReachedPolicies(lib, b, ops)[id].rcpt)
    ensures var c := Candidates(lib, ReachedPolicies(lib, b, ops), remoteIP, mailFrom, recipient);
            c == {} || exists id :: c == {id}
  {
    var c := Candidates(lib, ReachedPolicies(lib, b, ops), remoteIP, mailFrom, recipient);
    if c != {} {
      var i :| i in c;
      forall j | j in c ensures j == i {
        OneExactCandidate(lib, b, ops, remoteIP, mailFrom, recipient, i, j);
      }
      assert c == {i};
    }
  }
}
