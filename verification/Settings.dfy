/** Mailbox settings and their normalization before they are stored. */
module Settings {
  import opened Text
  import opened SettingsLists
  import opened MailFailRules

  datatype AppSettings = AppSettings(
    allowedOrigins: string, smtpLogVerbose: bool,
    mailFailEnabled: bool, mailFailRules: seq<RuleInput>, reportFrom: string,
    allowedRemoteIPs: string, acceptedRcptDomains: string, acceptedFromDomains: string,
    autoDeleteAfterDays: int)

  /** The settings of a user without a settings row. */
  const NO_SETTINGS := AppSettings("", false, false, [], "", "", "", "", 0)

  function LowerTrim(s: string): string {
    Lower(Trim(s))
  }

  predicate ReportAction(action: string) {
    var a := ParseAction(LowerTrim(action));
    a.Some? && IsReport(a.value)
  }

  predicate LocalPartAction(action: string) {
    var a := ParseAction(LowerTrim(action));
    a.Some? && SupportsLocalPart(a.value)
  }

  function NormalizeRule(r: RuleInput): RuleInput {
    var action := LowerTrim(r.action);
    RuleInput(
      Trim(r.name), Trim(r.trigger),
      if ReportAction(action) then "data" else Trim(r.stage),
      action, r.allowAfter, Trim(r.minRetryAfter), Trim(r.resetAfter), r.code, Trim(r.enhancedCode),
      if action == "arf" then LowerTrim(r.feedbackType) else "",
      if LocalPartAction(action) then Trim(r.localPart) else "",
      if ReportAction(action) && action != "async-bounce" then "" else Trim(r.message))
  }

  function NormalizeRules(rules: seq<RuleInput>): seq<RuleInput> {
    seq(|rules|, i requires 0 <= i < |rules| => NormalizeRule(rules[i]))
  }

  function NormalizeSettings(s: AppSettings): AppSettings {
    s.(allowedOrigins := NormalizeCSV(s.allowedOrigins),
       mailFailRules := NormalizeRules(s.mailFailRules),
       reportFrom := Trim(s.reportFrom),
       allowedRemoteIPs := NormalizeCSV(s.allowedRemoteIPs),
       acceptedRcptDomains := NormalizeCSV(s.acceptedRcptDomains),
       acceptedFromDomains := NormalizeCSV(s.acceptedFromDomains),
       autoDeleteAfterDays := if s.autoDeleteAfterDays < 0 then 0 else s.autoDeleteAfterDays)
  }

  /** A mailbox has no say in the instance-wide fields. */
  function NormalizeUserSettings(s: AppSettings): AppSettings {
    NormalizeSettings(s.(allowedOrigins := "", smtpLogVerbose := false))
  }

  // ---- Normalizing twice ----

  lemma LowerTrimIdempotent(s: string)
    ensures LowerTrim(LowerTrim(s)) == LowerTrim(s)
  {
    var t := Trim(s);
    var from, to := TrimSlice(s);
    LowerTrimmed(t);
    TrimFixed(Lower(t));
    LowerIdempotent(t);
  }

  lemma RuleIdempotent(r: RuleInput)
    ensures NormalizeRule(NormalizeRule(r)) == NormalizeRule(r)
  {
    var n := NormalizeRule(r);
    LowerTrimIdempotent(r.action);
    assert ReportAction(n.action) == ReportAction(LowerTrim(r.action));
    TrimFixed("data");
    TrimFixed("");
    TrimIdempotent(r.name);
    TrimIdempotent(r.trigger);
    TrimIdempotent(r.stage);
    TrimIdempotent(r.minRetryAfter);
    TrimIdempotent(r.resetAfter);
    TrimIdempotent(r.enhancedCode);
    TrimIdempotent(r.localPart);
    TrimIdempotent(r.message);
    LowerTrimIdempotent(r.feedbackType);
  }

  lemma RulesIdempotent(rules: seq<RuleInput>)
    ensures NormalizeRules(NormalizeRules(rules)) == NormalizeRules(rules)
  {
    forall i | 0 <= i < |rules| ensures NormalizeRule(NormalizeRules(rules)[i]) == NormalizeRules(rules)[i] {
      RuleIdempotent(rules[i]);
    }
  }

  /** Stored settings are normalized settings: normalizing them again changes nothing. */
  lemma SettingsIdempotent(s: AppSettings)
    ensures NormalizeSettings(NormalizeSettings(s)) == NormalizeSettings(s)
  {
    NormalizeIdempotent(s.allowedOrigins);
    NormalizeIdempotent(s.allowedRemoteIPs);
    NormalizeIdempotent(s.acceptedRcptDomains);
    NormalizeIdempotent(s.acceptedFromDomains);
    TrimIdempotent(s.reportFrom);
    RulesIdempotent(s.mailFailRules);
  }
}
