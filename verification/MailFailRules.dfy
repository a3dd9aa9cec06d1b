/** MailFail rules: how settings are compiled, which rule answers an address, and which reports follow. */
module MailFailRules {
  import opened Text
  import opened Address
  import opened SettingsLists
  import opened Durations

  // ---- Rules as they are stored ----

  datatype RuleInput = RuleInput(
    name: string, trigger: string, stage: string, action: string,
    allowAfter: int, minRetryAfter: string, resetAfter: string,
    code: int, enhancedCode: string, feedbackType: string, localPart: string, message: string)

  datatype Action = Reject | Greylist | Arf | XarfV3 | XarfV4 | OriginalReport | AsyncBounce

  datatype Stage = MailFrom | Rcpt | Data

  function ParseAction(s: string): Option<Action> {
    if s == "reject" then Some(Reject)
    else if s == "greylist" then Some(Greylist)
    else if s == "arf" then Some(Arf)
    else if s == "xarf-v3" then Some(XarfV3)
    else if s == "xarf-v4" then Some(XarfV4)
    else if s == "original-report" then Some(OriginalReport)
    else if s == "async-bounce" then Some(AsyncBounce)
    else None
  }

  function ParseStage(s: string): Option<Stage> {
    if s == "mailfrom" then Some(MailFrom)
    else if s == "rcpt" then Some(Rcpt)
    else if s == "data" then Some(Data)
    else None
  }

  predicate IsReport(a: Action) {
    a.Arf? || a.XarfV3? || a.XarfV4? || a.OriginalReport? || a.AsyncBounce?
  }

  predicate SupportsLocalPart(a: Action) {
    a.Arf? || a.XarfV3? || a.XarfV4? || a.OriginalReport?
  }

  predicate KnownFeedback(s: string) {
    s == "abuse" || s == "fraud" || s == "virus" || s == "other" || s == "not-spam"
  }

  function DefaultMessage(a: Action): string {
    match a
    case Arf => "MailTail generated an abuse feedback report for the accepted message."
    case XarfV3 => "MailTail generated a XARF v3 report for the accepted message."
    case XarfV4 => "MailTail generated a XARF v4 report for the accepted message."
    case OriginalReport => "MailTail attached the original accepted message."
    case AsyncBounce => "Delivery failed after the message was accepted by MailTail."
    case _ => "MailTail generated a report for the accepted message."
  }

  // ---- Syntax checks shared by the rules and the report builder ----

  predicate AllDigits(s: string) {
    forall i :: 0 <= i < |s| ==> '0' <= s[i] <= '9'
  }

  /** A permanent enhanced status code: 5, a dot, one to three digits, a dot, one to three digits. */
  predicate EnhancedBounceCode(s: string) {
    && |s| >= 5 && s[0] == '5' && s[1] == '.'
    && exists d :: 3 <= d <= 5 && d < |s| && s[d] == '.' && AllDigits(s[2..d])
         && 1 <= |s| - d - 1 <= 3 && AllDigits(s[d + 1..])
  }

  predicate AtomChar(c: char) {
    || 'A' <= c <= 'Z' || 'a' <= c <= 'z' || '0' <= c <= '9'
    || '#' <= c <= '\'' || c == '!' || c == '*' || c == '+' || c == '-' || c == '/' || c == '=' || c == '?'
    || '^' <= c <= '`' || '{' <= c <= '~'
  }

  /** A dot-atom: runs of atom characters with single dots between them. */
  predicate DotAtom(s: string) {
    && s != "" && s[0] != '.' && s[|s| - 1] != '.'
    && (forall i :: 0 <= i < |s| ==> AtomChar(s[i]) || s[i] == '.')
    && forall i :: 0 < i < |s| ==> !(s[i - 1] == '.' && s[i] == '.')
  }

  predicate ValidLocalPart(s: string) {
    s == "" || (|s| <= 64 && DotAtom(s))
  }

  function JoinFields(fields: seq<string>): string {
    if fields == [] then ""
    else if |fields| == 1 then fields[0]
    else fields[0] + " " + JoinFields(fields[1..])
  }

  /** Printable US-ASCII of at most 700 characters once runs of white space are single spaces. */
  predicate ValidDiagnostic(value: string) {
    var v := JoinFields(NonEmptyParts(Split(value, IsSpace)));
    v != "" && |v| <= 700 && forall i :: 0 <= i < |v| ==> ' ' <= v[i] <= '~'
  }

  // ---- Compilation ----

  datatype Rule = Rule(
    name: string, trigger: string, stage: Stage, action: Action,
    allowAfter: int, minRetryAfter: int, resetAfter: int,
    code: int, enhancedCode: string, feedbackType: string, localPart: string, message: string)

  datatype RuleError =
    | MissingTrigger | UnsupportedAction | UnsupportedStage | MissingMessage | UnsupportedFeedback
    | InvalidLocalPart | UnexpectedLocalPart | InvalidCode | GreylistStage | GreylistCode
    | InvalidDuration | InvalidDiagnostic | BounceCode | BounceEnhancedCode

  /** The rule's texts without white space around them, and in lower case where case does not matter. */
  function Tidy(r: RuleInput): RuleInput {
    r.(name := Trim(r.name), trigger := Lower(Trim(r.trigger)), stage := Lower(Trim(r.stage)),
       action := Lower(Trim(r.action)), enhancedCode := Trim(r.enhancedCode),
       feedbackType := Lower(Trim(r.feedbackType)), localPart := Trim(r.localPart), message := Trim(r.message))
  }

  /** An empty duration is zero; any other text is for the duration parser. */
  function OptionalDuration(value: string, parse: string -> Option<int>): Option<int> {
    if Trim(value) == "" then Some(0) else parse(value)
  }

  function CompileGreylist(rule: Rule, minRetry: Option<int>, reset: Option<int>): Result<Rule, RuleError> {
    if rule.stage.MailFrom? then Err(GreylistStage)
    else if rule.code >= 500 then Err(GreylistCode)
    else if minRetry.None? || reset.None? then Err(InvalidDuration)
    else Ok(rule.(allowAfter := if rule.allowAfter <= 0 then 1 else rule.allowAfter,
                  minRetryAfter := minRetry.value,
                  resetAfter := if reset.value <= 0 then HOUR else reset.value))
  }

  function CompileBounce(rule: Rule): Result<Rule, RuleError> {
    var code := if rule.code == 0 then 550 else rule.code;
    var enhanced := if rule.enhancedCode == "" then "5.0.0" else rule.enhancedCode;
    if !ValidDiagnostic(rule.message) then Err(InvalidDiagnostic)
    else if !(500 <= code <= 599) then Err(BounceCode)
    else if !EnhancedBounceCode(enhanced) then Err(BounceEnhancedCode)
    else Ok(rule.(code := code, enhancedCode := enhanced))
  }

  function CompileTidy(t: RuleInput, minRetry: Option<int>, reset: Option<int>): Result<Rule, RuleError> {
    if t.trigger == "" then Err(MissingTrigger)
    else
      var name := if t.name == "" then t.trigger else t.name;
      var parsed := if t.action == "" then Some(Reject) else ParseAction(t.action);
      if parsed.None? then Err(UnsupportedAction)
      else
        var action := parsed.value;
        var stage := if IsReport(action) then Some(Data) else ParseStage(t.stage);
        if stage.None? then Err(UnsupportedStage)
        else if !IsReport(action) && t.message == "" then Err(MissingMessage)
        else
          var message := if IsReport(action) && t.message == "" then DefaultMessage(action) else t.message;
          var feedback := if !action.Arf? then "" else if t.feedbackType == "" then "abuse" else t.feedbackType;
          if action.Arf? && !KnownFeedback(feedback) then Err(UnsupportedFeedback)
          else if SupportsLocalPart(action) && !ValidLocalPart(t.localPart) then Err(InvalidLocalPart)
          else if !SupportsLocalPart(action) && t.localPart != "" then Err(UnexpectedLocalPart)
          else if !IsReport(action) && !(400 <= t.code <= 599) then Err(InvalidCode)
          else
            var rule := Rule(name, t.trigger, stage.value, action, t.allowAfter, 0, 0,
                             t.code, t.enhancedCode, feedback, t.localPart, message);
            if action.Greylist? then CompileGreylist(rule, minRetry, reset)
            else if action.AsyncBounce? then CompileBounce(rule)
            else Ok(rule)
  }

  function Compile(r: RuleInput, parse: string -> Option<int>): Result<Rule, RuleError> {
    CompileTidy(Tidy(r), OptionalDuration(r.minRetryAfter, parse), OptionalDuration(r.resetAfter, parse))
  }

  // ---- Matching ----

  predicate IsPlus(c: char) {
    c == '+'
  }

  /** The parts of a local part between plus signs, trimmed and lower-cased. */
  function Segments(localPart: string): seq<string> {
    Clean(Split(Lower(Trim(localPart)), IsPlus))
  }

  predicate Triggers(rule: Rule, address: string) {
    var localPart := ExtractLocalPart(address);
    var needle := Lower(Trim(rule.trigger));
    localPart.Some? && needle != "" && needle in Segments(localPart.value)
  }

  /**
   * Whether an address triggers a rule. Matching is modelled for any such test; `TRIGGERS` is the
   * program's own.
   */
  type TriggerTest = (Rule, string) -> bool

  const TRIGGERS: TriggerTest := (rule: Rule, address: string) => Triggers(rule, address)

  datatype Reply = Reply(code: int, text: string)

  function ReplyText(rule: Rule): string {
    if rule.enhancedCode == "" then rule.message else rule.enhancedCode + " " + rule.message
  }

  datatype Verdict = Pass | Refuse(reply: Reply) | AskGreylist(rule: Rule)

  /** The first rule of the stage that the address triggers and that is not a report decides. */
  function MatchRules(tr: TriggerTest, rules: seq<Rule>, stage: Stage, address: string): Verdict {
    if rules == [] then Pass
    else
      var rule := rules[0];
      if rule.stage == stage && tr(rule, address) && !IsReport(rule.action) then
        if rule.action.Greylist? then AskGreylist(rule) else Refuse(Reply(rule.code, ReplyText(rule)))
      else MatchRules(tr, rules[1..], stage, address)
  }

  /** The reply to the client, once the greylist engine has said what it says. */
  function Answer(v: Verdict, greylist: Option<Reply>): Option<Reply> {
    match v
    case Pass => None
    case Refuse(reply) => Some(reply)
    case AskGreylist(_) => greylist
  }

  /** The first recipient with a reply decides; `greylist(i)` is the engine's answer for recipient i. */
  function MatchData(tr: TriggerTest, rules: seq<Rule>, recipients: seq<string>, greylist: nat -> Option<Reply>,
                     i: nat): Option<Reply>
    requires i <= |recipients|
    decreases |recipients| - i
  {
    if i == |recipients| then None
    else
      var reply := Answer(MatchRules(tr, rules, Data, recipients[i]), greylist(i));
      if reply.Some? then reply else MatchData(tr, rules, recipients, greylist, i + 1)
  }

  datatype ReportRequest = ReportRequest(
    action: Action, recipient: string, code: int, enhancedCode: string, feedbackType: string, localPart: string,
        message: string)

  function Request(rule: Rule, recipient: string): ReportRequest {
    ReportRequest(rule.action, recipient, rule.code, rule.enhancedCode, rule.feedbackType, rule.localPart, rule.message)
  }

  predicate Reports(tr: TriggerTest, rule: Rule, recipient: string) {
    rule.stage.Data? && IsReport(rule.action) && tr(rule, recipient)
  }

  /** `k` is the first report rule that the recipient triggers. */
  predicate FirstReport(tr: TriggerTest, rules: seq<Rule>, recipient: string, k: int) {
    0 <= k < |rules| && Reports(tr, rules[k], recipient) && forall i :: 0 <= i < k ==> !Reports(tr, rules[i], recipient)
  }

  // ---- The report builder's checks on the data that comes from a rule ----

  predicate RecipientAccepted(r: ReportRequest) {
    Trim(r.localPart) == "" || (SupportsLocalPart(r.action) && ValidLocalPart(Trim(r.localPart)))
  }

  predicate FeedbackAccepted(r: ReportRequest) {
    var feedback := Lower(Trim(r.feedbackType));
    feedback == "" || KnownFeedback(feedback)
  }

  predicate BounceAccepted(r: ReportRequest) {
    500 <= r.code <= 599 && EnhancedBounceCode(Trim(r.enhancedCode)) && ValidDiagnostic(r.message)
  }

  predicate BuilderAccepts(r: ReportRequest) {
    IsReport(r.action) && RecipientAccepted(r) && (r.action.Arf? ==> FeedbackAccepted(r))
        && (r.action.AsyncBounce? ==> BounceAccepted(r))
  }
}
