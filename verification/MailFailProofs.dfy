/** What compiled MailFail rules guarantee to the greylist engine and the report builder. */
module MailFailProofs {
  import opened Text
  import opened MailFailRules
  import opened RuleLaws
  import GreylistModel

  // ---- Compilation ----

  predicate LowerWord(s: string) {
    s != "" && forall i :: 0 <= i < |s| ==> 'a' <= s[i] <= 'z' || s[i] == '-'
  }

  lemma LowerWordIsTidy(s: string)
    requires LowerWord(s)
    ensures Lower(Trim(s)) == s
  {
    TrimFixed(s);
    assert Lower(s) == s;
  }

  lemma KnownFeedbackIsWord(s: string)
    requires KnownFeedback(s)
    ensures LowerWord(s)
  {
  }

  lemma KnownFeedbackIsTidy(s: string)
    requires KnownFeedback(s)
    ensures Lower(Trim(s)) == s
  {
    KnownFeedbackIsWord(s);
    LowerWordIsTidy(s);
  }

  lemma BounceDefaultIsTidy()
    ensures Trim("5.0.0") == "5.0.0"
  {
    TrimFixed("5.0.0");
  }

  lemma FeedbackReportable(rule: Rule, recipient: string)
    requires KnownFeedback(rule.feedbackType)
    ensures FeedbackAccepted(Request(rule, recipient))
  {
    KnownFeedbackIsTidy(rule.feedbackType);
  }

  lemma BounceReportable(rule: Rule, recipient: string)
    requires CompileBounce(rule).Ok? && Trim(rule.enhancedCode) == rule.enhancedCode
    ensures BounceAccepted(Request(CompileBounce(rule).value, recipient))
  {
    BounceDefaultIsTidy();
  }

  lemma ArfReportable(t: RuleInput, minRetry: Option<int>, reset: Option<int>, recipient: string)
    requires Trim(t.localPart) == t.localPart && IsAction(t, Arf) && CompileTidy(t, minRetry, reset).Ok?
        && t.trigger != ""
    ensures BuilderAccepts(Request(CompileTidy(t, minRetry, reset).value, recipient))
  {
    TidyArf(t, minRetry, reset);
    FeedbackReportable(CompileTidy(t, minRetry, reset).value, recipient);
  }

  lemma PlainReportable(t: RuleInput, minRetry: Option<int>, reset: Option<int>, a: Action, recipient: string)
    requires Trim(t.localPart) == t.localPart && IsAction(t, a) && a in {XarfV3, XarfV4, OriginalReport}
    requires CompileTidy(t, minRetry, reset).Ok? && t.trigger != ""
    ensures BuilderAccepts(Request(CompileTidy(t, minRetry, reset).value, recipient))
  {
    TidyPlainReport(t, minRetry, reset, a);
  }

  lemma TidyBounceReportable(t: RuleInput, minRetry: Option<int>, reset: Option<int>, recipient: string)
    requires Trim(t.enhancedCode) == t.enhancedCode && Trim(t.localPart) == t.localPart
    requires IsAction(t, AsyncBounce) && CompileTidy(t, minRetry, reset).Ok? && t.trigger != ""
    ensures BuilderAccepts(Request(CompileTidy(t, minRetry, reset).value, recipient))
  {
    TidyBounce(t, minRetry, reset);
    BounceReportable(ReportRule(t, AsyncBounce, ""), recipient);
  }

  /** Which action a compiled rule has. */
  lemma CompiledAction(t: RuleInput, minRetry: Option<int>, reset: Option<int>)
    requires CompileTidy(t, minRetry, reset).Ok?
    ensures IsAction(t, CompileTidy(t, minRetry, reset).value.action) && t.trigger != ""
  {
  }

  lemma ReportableTidy(t: RuleInput, minRetry: Option<int>, reset: Option<int>, recipient: string)
    requires Trim(t.localPart) == t.localPart && Trim(t.enhancedCode) == t.enhancedCode
    requires CompileTidy(t, minRetry, reset).Ok? && IsReport(CompileTidy(t, minRetry, reset).value.action)
    ensures BuilderAccepts(Request(CompileTidy(t, minRetry, reset).value, recipient))
  {
    CompiledAction(t, minRetry, reset);
    var a := CompileTidy(t, minRetry, reset).value.action;
    if a.Arf? {
      ArfReportable(t, minRetry, reset, recipient);
    } else if a.AsyncBounce? {
      TidyBounceReportable(t, minRetry, reset, recipient);
    } else {
      PlainReportable(t, minRetry, reset, a, recipient);
    }
  }

  /** Every report request made from a compiled rule passes the report builder's checks. */
  lemma CompiledIsReportable(r: RuleInput, parse: string -> Option<int>, recipient: string)
    requires Compile(r, parse).Ok? && IsReport(Compile(r, parse).value.action)
    ensures BuilderAccepts(Request(Compile(r, parse).value, recipient))
  {
    var t := Tidy(r);
    TrimIdempotent(r.localPart);
    TrimIdempotent(r.enhancedCode);
    ReportableTidy(t, OptionalDuration(r.minRetryAfter, parse), OptionalDuration(r.resetAfter, parse), recipient);
  }

  predicate SoundGreylist(rule: Rule) {
    && GreylistModel.Compiled(GreylistModel.Rule(rule.allowAfter, rule.minRetryAfter, rule.resetAfter))
    && 400 <= rule.code < 500 && !rule.stage.MailFrom?
  }

  lemma GreylistTidy(t: RuleInput, minRetry: Option<int>, reset: Option<int>)
    requires CompileTidy(t, minRetry, reset).Ok? && CompileTidy(t, minRetry, reset).value.action.Greylist?
    ensures SoundGreylist(CompileTidy(t, minRetry, reset).value)
  {
  }

  /** A compiled greylist rule has positive limits, a temporary code, and a stage with recipients. */
  lemma CompiledGreylist(r: RuleInput, parse: string -> Option<int>)
    requires Compile(r, parse).Ok? && Compile(r, parse).value.action.Greylist?
    ensures SoundGreylist(Compile(r, parse).value)
  {
    GreylistTidy(Tidy(r), OptionalDuration(r.minRetryAfter, parse), OptionalDuration(r.resetAfter, parse));
  }

  // ---- Reports ----

  ghost predicate IsCompiled(rule: Rule, parse: string -> Option<int>) {
    exists r :: Compile(r, parse) == Ok(rule)
  }

  ghost predicate AllCompiled(rules: seq<Rule>, parse: string -> Option<int>) {
    forall i :: 0 <= i < |rules| ==> IsCompiled(rules[i], parse)
  }

  /** The request is made for this recipient, with what the rule says. */
  predicate RequestOf(request: ReportRequest, rule: Rule, recipient: string) {
    && request.recipient == recipient && request.action == rule.action && request.message == rule.message
    && request.code == rule.code && request.enhancedCode == rule.enhancedCode
    && request.feedbackType == rule.feedbackType && request.localPart == rule.localPart
  }

  /** The rule asks for a report on the recipient: one of the DATA stage, with a report action, that is triggered. */
  predicate AsksFor(tr: TriggerTest, rule: Rule, recipient: string) {
    rule.stage == Data && rule.action != Reject && rule.action != Greylist && tr(rule, recipient)
  }

  /** The request is made for this recipient from the first report rule it triggers. */
  ghost predicate FirstRequest(tr: TriggerTest, rules: seq<Rule>, recipient: string, request: ReportRequest) {
    exists k :: FirstReport(tr, rules, recipient, k) && RequestOf(request, rules[k], recipient)
      && AsksFor(tr, rules[k], recipient) && forall i :: 0 <= i < k ==> !AsksFor(tr, rules[i], recipient)
  }

  ghost predicate NoReport(tr: TriggerTest, rules: seq<Rule>, recipient: string) {
    forall k :: 0 <= k < |rules| ==> !Reports(tr, rules[k], recipient) && !AsksFor(tr, rules[k], recipient)
  }

  /** `requests` are made for the recipients `origins`, in order, each once, and for no other recipient. */
  ghost predicate RequestsFrom(tr: TriggerTest, rules: seq<Rule>, recipients: seq<string>,
                               requests: seq<ReportRequest>, origins: seq<int>) {
    && |origins| == |requests|
    && (forall i, j :: 0 <= i < j < |origins| ==> origins[i] < origins[j])
    && (forall i :: 0 <= i < |origins| ==>
          0 <= origins[i] < |recipients| && FirstRequest(tr, rules, recipients[origins[i]], requests[i]))
    && (forall n :: 0 <= n < |recipients| ==> n in origins || NoReport(tr, rules, recipients[n]))
  }

  lemma RequestsStay(tr: TriggerTest, rules: seq<Rule>, before: seq<string>, recipient: string,
                     requests: seq<ReportRequest>, origins: seq<int>)
    requires RequestsFrom(tr, rules, before, requests, origins) && NoReport(tr, rules, recipient)
    ensures RequestsFrom(tr, rules, before + [recipient], requests, origins)
  {
    var after := before + [recipient];
    assert forall n :: 0 <= n < |before| ==> after[n] == before[n];
  }

  lemma RequestsGrow(tr: TriggerTest, rules: seq<Rule>, before: seq<string>, recipient: string,
                     requests: seq<ReportRequest>, origins: seq<int>, k: int)
    requires RequestsFrom(tr, rules, before, requests, origins) && FirstReport(tr, rules, recipient, k)
    ensures RequestsFrom(tr, rules, before + [recipient], requests + [Request(rules[k], recipient)],
                         origins + [|before|])
  {
    var after, grown := before + [recipient], origins + [|before|];
    assert forall n :: 0 <= n < |before| ==> after[n] == before[n];
    assert FirstRequest(tr, rules, recipient, Request(rules[k], recipient));
    forall n | 0 <= n < |after| ensures n in grown || NoReport(tr, rules, after[n]) {
      assert n == |before| ==> grown[|origins|] == n;
    }
  }

  method FindReport(tr: TriggerTest, rules: seq<Rule>, recipient: string) returns (k: nat, found: bool)
    ensures if found then FirstReport(tr, rules, recipient, k) else NoReport(tr, rules, recipient)
  {
    for i := 0 to |rules|
      invariant forall j :: 0 <= j < i ==> !Reports(tr, rules[j], recipient)
    {
      if Reports(tr, rules[i], recipient) {
        return i, true;
      }
    }
    return 0, false;
  }

  /** At most one request for each recipient: the one of the first report rule it triggers. */
  method MatchReports(tr: TriggerTest, rules: seq<Rule>, recipients: seq<string>)
    returns (requests: seq<ReportRequest>, ghost origins: seq<int>)
    ensures RequestsFrom(tr, rules, recipients, requests, origins)
    ensures |requests| <= |recipients|
  {
    requests, origins := [], [];
    for n := 0 to |recipients|
      invariant |requests| <= n
      invariant RequestsFrom(tr, rules, recipients[..n], requests, origins)
    {
      var recipient := recipients[n];
      assert recipients[..n + 1] == recipients[..n] + [recipient];
      var k, found := FindReport(tr, rules, recipient);
      if !found {
        RequestsStay(tr, rules, recipients[..n], recipient, requests, origins);
      } else {
        RequestsGrow(tr, rules, recipients[..n], recipient, requests, origins, k);
        requests, origins := requests + [Request(rules[k], recipient)], origins + [n];
      }
    }
    assert recipients[..|recipients|] == recipients;
  }

  lemma FirstIsBuildable(tr: TriggerTest, rules: seq<Rule>, parse: string -> Option<int>, recipient: string,
                         request: ReportRequest)
    requires AllCompiled(rules, parse) && FirstRequest(tr, rules, recipient, request)
    ensures BuilderAccepts(request)
  {
    var k :| FirstReport(tr, rules, recipient, k) && RequestOf(request, rules[k], recipient);
    assert request == Request(rules[k], recipient);
    assert IsCompiled(rules[k], parse);
    var r :| Compile(r, parse) == Ok(rules[k]);
    CompiledIsReportable(r, parse, recipient);
  }

  /** With compiled rules, none of the requests is refused by the report builder for data of its rule. */
  lemma ReportsAreBuildable(tr: TriggerTest, rules: seq<Rule>, parse: string -> Option<int>, recipients: seq<string>,
                            requests: seq<ReportRequest>, origins: seq<int>)
    requires AllCompiled(rules, parse) && RequestsFrom(tr, rules, recipients, requests, origins)
    ensures forall i :: 0 <= i < |requests| ==> BuilderAccepts(requests[i])
  {
    forall i | 0 <= i < |requests| ensures BuilderAccepts(requests[i]) {
      assert FirstRequest(tr, rules, recipients[origins[i]], requests[i]);
      FirstIsBuildable(tr, rules, parse, recipients[origins[i]], requests[i]);
    }
  }

  // ---- Replies ----

  predicate Decides(tr: TriggerTest, rule: Rule, stage: Stage, address: string) {
    rule.stage == stage && tr(rule, address) && !IsReport(rule.action)
  }

  function VerdictOf(rule: Rule): Verdict {
    if rule.action.Greylist? then AskGreylist(rule) else Refuse(Reply(rule.code, ReplyText(rule)))
  }

  ghost predicate FirstDecides(tr: TriggerTest, rules: seq<Rule>, stage: Stage, address: string, k: int) {
    0 <= k < |rules| && Decides(tr, rules[k], stage, address)
        && forall i :: 0 <= i < k ==> !Decides(tr, rules[i], stage, address)
  }

  /** A report rule never answers the client; the verdict comes from the first other rule of the stage, if any. */
  lemma {:induction false} FirstVerdict(tr: TriggerTest, rules: seq<Rule>, stage: Stage, address: string)
    ensures var v := MatchRules(tr, rules, stage, address);
            if v.Pass? then forall i :: 0 <= i < |rules| ==> !Decides(tr, rules[i], stage, address)
            else exists k :: FirstDecides(tr, rules, stage, address, k) && v == VerdictOf(rules[k])
  {
    if rules != [] {
      FirstVerdict(tr, rules[1..], stage, address);
      var v := MatchRules(tr, rules[1..], stage, address);
      if Decides(tr, rules[0], stage, address) {
        assert FirstDecides(tr, rules, stage, address, 0);
      } else if !v.Pass? {
        var k :| FirstDecides(tr, rules[1..], stage, address, k) && v == VerdictOf(rules[1..][k]);
        assert rules[k + 1] == rules[1..][k];
        assert FirstDecides(tr, rules, stage, address, k + 1) by {
          forall i | 0 <= i < k + 1 ensures !Decides(tr, rules[i], stage, address) {
            if i > 0 {
              assert rules[i] == rules[1..][i - 1];
            }
          }
        }
      } else {
        forall i | 0 <= i < |rules| ensures !Decides(tr, rules[i], stage, address) {
          if i > 0 {
            assert rules[i] == rules[1..][i - 1];
          }
        }
      }
    }
  }
}
