/** Which rules compile and to what, which addresses trigger them, and how addresses are read. */
module RuleLaws {
  import opened Text
  import opened Address
  import opened Durations
  import opened SettingsLists
  import opened SettingsLaws
  import opened MailFailRules

  // ---- Reading addresses ----

  lemma LocalPartOf(address: string, n: nat)
    requires 0 < n < |address| && address[n] == '@' && !IsSpace(address[0])
    requires forall i :: 0 <= i < n ==> address[i] != '@'
    ensures ExtractLocalPart(address) == Some(Lower(address[..n]))
  {
    var (from, to) := TrimWindow(address, 0, |address|);
    assert from == 0 && n < to;
    assert IndexIn(address, '@', from, to) == Some(n);
    assert address[0..n] == address[..n];
  }

  lemma DomainOf(address: string, n: nat)
    requires 0 < n < |address| - 1 && address[n] == '@' && !IsSpace(address[0])
    requires forall i :: n < i < |address| ==> address[i] != '@'
    requires Trimmed(address[n + 1..])
    ensures ExtractDomain(address) == Some(Lower(address[n + 1..]))
  {
    var (from, to) := TrimWindow(address, 0, |address|);
    assert address[n + 1..][|address| - n - 2] == address[|address| - 1];
    assert from == 0 && to == |address|;
    assert LastIndexIn(address, '@', from, to) == Some(n);
    TrimWindowFixed(address, n + 1);
    assert address[n + 1..] == address[n + 1..|address|];
  }

  lemma SqlDomainOf(address: string, n: nat)
    requires 0 < n < |address| && address[n] == '@' && forall i :: 0 <= i < n ==> address[i] != '@'
    ensures SqlDomain(address) == Some(Lower(address[n + 1..]))
  {
    assert IndexIn(address, '@', 0, |address|) == Some(n);
  }

  /** An address in parts: before its '@' is the local part, behind it the domain, both in lower case. */
  lemma AddressLaw(localPart: string, domain: string)
    requires localPart != "" && !IsSpace(localPart[0]) && '@' !in localPart && '@' !in domain
    ensures var address := localPart + "@" + domain;
            && ExtractLocalPart(address) == Some(Lower(localPart))
            && SqlDomain(address) == Some(Lower(domain))
            && (domain != "" && Trimmed(domain) ==> ExtractDomain(address) == Some(Lower(domain)))
  {
    var address := localPart + "@" + domain;
    var n := |localPart|;
    assert address[n] == '@' && address[0] == localPart[0];
    assert forall i :: 0 <= i < n ==> address[i] == localPart[i] && address[i] in localPart;
    assert forall i :: n < i < |address| ==> address[i] == domain[i - n - 1] && address[i] in domain;
    assert address[..n] == localPart && address[n + 1..] == domain;
    LocalPartOf(address, n);
    SqlDomainOf(address, n);
    if domain != "" && Trimmed(domain) {
      DomainOf(address, n);
    }
  }

  // ---- Triggers ----

  function PlusSigns(n: nat): seq<char> {
    seq(n, _ => '+')
  }

  /** The parts between plus signs, in lower case. */
  function LowerAll(parts: seq<string>): seq<string> {
    seq(|parts|, i requires 0 <= i < |parts| => Lower(parts[i]))
  }

  lemma LowerAppend(a: string, b: string)
    ensures Lower(a + b) == Lower(a) + Lower(b)
  {
  }

  lemma {:induction false} LowerInterleave(parts: seq<string>, seps: seq<char>)
    requires |parts| == |seps| + 1 && forall i :: 0 <= i < |seps| ==> seps[i] == '+'
    ensures Lower(Interleave(parts, seps)) == Interleave(LowerAll(parts), seps)
    decreases |seps|
  {
    if seps != [] {
      LowerInterleave(parts[1..], seps[1..]);
      assert LowerAll(parts)[1..] == LowerAll(parts[1..]);
      LowerAppend(parts[0] + [seps[0]], Interleave(parts[1..], seps[1..]));
      LowerAppend(parts[0], [seps[0]]);
    }
  }

  lemma LowerKeepsSpace(s: string)
    ensures Trim(Lower(s)) == Lower(Trim(s))
  {
    var from, to := TrimSlice(s);
    LowerTrimmed(Trim(s));
    assert Lower(s)[from..to] == Lower(Trim(s));
    TrimUnique(Lower(s), from, to);
  }

  lemma {:induction false} InKept(parts: seq<string>, needle: string)
    ensures needle in Kept(parts) <==> needle != "" && exists i :: 0 <= i < |parts| && Trim(parts[i]) == needle
  {
    if parts != [] {
      InKept(parts[1..], needle);
      if i :| 0 <= i < |parts[1..]| && Trim(parts[1..][i]) == needle {
        assert parts[i + 1] == parts[1..][i];
      }
      if i :| 0 <= i < |parts| && Trim(parts[i]) == needle {
        assert i > 0 ==> parts[1..][i - 1] == parts[i];
      }
    }
  }

  lemma SegmentsAre(parts: seq<string>, seps: seq<char>, s: string)
    requires |parts| == |seps| + 1 && s == Interleave(parts, seps) && Trimmed(s)
    requires forall i :: 0 <= i < |seps| ==> seps[i] == '+'
    requires forall i :: 0 <= i < |parts| ==> '+' !in parts[i]
    ensures Segments(s) == Kept(LowerAll(parts))
  {
    var lower := LowerAll(parts);
    TrimFixed(s);
    LowerInterleave(parts, seps);
    forall i | 0 <= i < |lower| ensures Free(lower[i], IsPlus) {
      assert forall j :: 0 <= j < |lower[i]| ==> parts[i][j] in parts[i];
    }
    SplitParts(lower, seps, IsPlus);
    CleanIsKept(lower);
  }

  lemma InLowerKept(parts: seq<string>, needle: string)
    ensures needle in Kept(LowerAll(parts)) <==>
              needle != "" && exists i :: 0 <= i < |parts| && Lower(Trim(parts[i])) == needle
  {
    var lower := LowerAll(parts);
    InKept(lower, needle);
    forall i | 0 <= i < |parts| ensures Trim(lower[i]) == Lower(Trim(parts[i])) {
      LowerKeepsSpace(parts[i]);
    }
    if i :| 0 <= i < |lower| && Trim(lower[i]) == needle {
      assert Lower(Trim(parts[i])) == needle;
    }
    if i :| 0 <= i < |parts| && Lower(Trim(parts[i])) == needle {
      assert Trim(lower[i]) == needle;
    }
  }

  /** A local part, trimmed, cut at its plus signs: every part counts, the first included, whatever its case. */
  lemma SegmentsLaw(parts: seq<string>, needle: string)
    requires parts != [] && forall i :: 0 <= i < |parts| ==> '+' !in parts[i]
    requires Trimmed(Interleave(parts, PlusSigns(|parts| - 1)))
    ensures needle in Segments(Interleave(parts, PlusSigns(|parts| - 1))) <==>
              needle != "" && exists i :: 0 <= i < |parts| && Lower(Trim(parts[i])) == needle
  {
    var seps := PlusSigns(|parts| - 1);
    SegmentsAre(parts, seps, Interleave(parts, seps));
    InLowerKept(parts, needle);
  }

  lemma LowerSegments(s: string)
    ensures Segments(Lower(s)) == Segments(s)
  {
    LowerKeepsSpace(s);
    LowerIdempotent(Trim(s));
  }

  /** A rule is triggered exactly if one of the parts between the plus signs of the local part is its trigger. */
  lemma TriggersLaw(rule: Rule, parts: seq<string>, domain: string)
    requires parts != [] && '@' !in domain
    requires forall i :: 0 <= i < |parts| ==> '+' !in parts[i]
    requires var localPart := Interleave(parts, PlusSigns(|parts| - 1));
             localPart != "" && Trimmed(localPart) && '@' !in localPart
    ensures var address := Interleave(parts, PlusSigns(|parts| - 1)) + "@" + domain;
            var needle := Lower(Trim(rule.trigger));
            TRIGGERS(rule, address) <==> needle != "" && exists i :: 0 <= i < |parts| && Lower(Trim(parts[i])) == needle
  {
    var localPart := Interleave(parts, PlusSigns(|parts| - 1));
    var needle := Lower(Trim(rule.trigger));
    AddressLaw(localPart, domain);
    LowerSegments(localPart);
    SegmentsLaw(parts, needle);
    assert TRIGGERS(rule, localPart + "@" + domain) <==> Triggers(rule, localPart + "@" + domain);
  }

  /** An address without a local part triggers nothing. */
  lemma NoLocalPart(rule: Rule, address: string)
    requires '@' !in address || address[0] == '@'
    ensures !TRIGGERS(rule, address)
  {
    var (from, to) := TrimWindow(address, 0, |address|);
    assert TRIGGERS(rule, address) <==> Triggers(rule, address);
    assert '@' !in address ==> forall i :: 0 <= i < |address| ==> address[i] in address;
  }

  // ---- Syntax ----

  predicate Digits(s: string) {
    1 <= |s| <= 3 && forall i :: 0 <= i < |s| ==> s[i] in "0123456789"
  }

  ghost predicate IsEnhanced(s: string) {
    exists a, b :: Digits(a) && Digits(b) && s == "5." + a + "." + b
  }

  lemma DigitLaw(c: char)
    ensures '0' <= c <= '9' <==> c in "0123456789"
  {
    var all := "0123456789";
    if '0' <= c <= '9' {
      assert all[(c - '0') as int] == c;
    }
  }

  lemma DigitsLaw(s: string)
    ensures Digits(s) <==> 1 <= |s| <= 3 && AllDigits(s)
  {
    forall i | 0 <= i < |s| ensures '0' <= s[i] <= '9' <==> s[i] in "0123456789" {
      DigitLaw(s[i]);
    }
  }

  lemma EnhancedParts(s: string, d: int)
    requires s != "" && 3 <= d <= 5 && d < |s| && s[0] == '5' && s[1] == '.' && s[d] == '.'
    requires AllDigits(s[2..d]) && 1 <= |s| - d - 1 <= 3 && AllDigits(s[d + 1..])
    ensures IsEnhanced(s)
  {
    var a, b := s[2..d], s[d + 1..];
    DigitsLaw(a);
    DigitsLaw(b);
    assert s == "5." + a + "." + b;
  }

  lemma EnhancedWhole(s: string, a: string, b: string)
    requires Digits(a) && Digits(b) && s == "5." + a + "." + b
    ensures EnhancedBounceCode(s)
  {
    var d := 2 + |a|;
    DigitsLaw(a);
    DigitsLaw(b);
    assert s[2..d] == a && s[d + 1..] == b && s[d] == '.' && s[0] == '5' && s[1] == '.';
  }

  /** A permanent enhanced code is a 5 and two numbers of one to three digits, separated by dots. */
  lemma EnhancedLaw(s: string)
    ensures EnhancedBounceCode(s) <==> IsEnhanced(s)
  {
    if EnhancedBounceCode(s) {
      var d :| 3 <= d <= 5 && d < |s| && s[d] == '.' && AllDigits(s[2..d]) && 1 <= |s| - d - 1 <= 3
          && AllDigits(s[d + 1..]);
      EnhancedParts(s, d);
    } else if IsEnhanced(s) {
      var a, b :| Digits(a) && Digits(b) && s == "5." + a + "." + b;
      EnhancedWhole(s, a, b);
    }
  }

  predicate Atom(s: string) {
    forall i :: 0 <= i < |s| ==> AtomChar(s[i])
  }

  lemma AtomCharLaw(c: char)
    ensures AtomChar(c) <==> 'A' <= c <= 'Z' || 'a' <= c <= 'z' || '0' <= c <= '9' || c in "!#$%&'*+-/=?^_`{|}~"
  {
    var marks := "!#$%&'*+-/=?^_`{|}~";
    assert marks[0] == '!' && marks[1] == '#' && marks[2] == '$' && marks[3] == '%' && marks[4] == '&'
        && marks[5] == '\'';
    assert marks[6] == '*' && marks[7] == '+' && marks[8] == '-' && marks[9] == '/' && marks[10] == '='
        && marks[11] == '?';
    assert marks[12] == '^' && marks[13] == '_' && marks[14] == '`' && marks[15] == '{' && marks[16] == '|';
    assert marks[17] == '}' && marks[18] == '~';
  }

  /** A text without dots is a dot-atom exactly if it is an atom, and not empty. */
  lemma DotAtomOne(s: string)
    requires '.' !in s
    ensures DotAtom(s) <==> s != "" && Atom(s)
  {
    assert forall i :: 0 <= i < |s| ==> s[i] in s;
  }

  /** With a dot in it, exactly if an atom comes before the first dot, and a dot-atom behind it. */
  lemma DotAtomMore(a: string, rest: string)
    requires '.' !in a
    ensures DotAtom(a + "." + rest) <==> a != "" && Atom(a) && DotAtom(rest)
  {
    var s := a + "." + rest;
    var n := |a|;
    assert s[n] == '.' && forall i :: 0 <= i < n ==> s[i] == a[i] && a[i] in a;
    assert forall i :: 0 <= i < |rest| ==> s[n + 1 + i] == rest[i];
    if a != "" && Atom(a) && DotAtom(rest) {
      forall i | 0 <= i < |s| ensures AtomChar(s[i]) || s[i] == '.' {
        assert i > n ==> s[i] == rest[i - n - 1];
      }
      forall i | 0 < i < |s| ensures !(s[i - 1] == '.' && s[i] == '.') {
        assert i > n + 1 ==> s[i] == rest[i - n - 1] && s[i - 1] == rest[i - n - 2];
      }
      assert s[|s| - 1] == rest[|rest| - 1];
    }
    if DotAtom(s) {
      assert s[0] != '.';
      assert rest != "" by {
        assert s[|s| - 1] != '.';
      }
      assert s[n + 1] == rest[0] && s[|s| - 1] == rest[|rest| - 1];
      forall i | 0 < i < |rest| ensures !(rest[i - 1] == '.' && rest[i] == '.') {
        assert s[n + 1 + i] == rest[i] && s[n + i] == rest[i - 1];
      }
    }
  }

  function Blanks(n: nat): seq<char> {
    seq(n, _ => ' ')
  }

  lemma {:induction false} JoinedFields(parts: seq<string>)
    requires parts != []
    ensures JoinFields(parts) == Interleave(parts, Blanks(|parts| - 1))
    decreases |parts|
  {
    if |parts| > 1 {
      JoinedFields(parts[1..]);
      assert Blanks(|parts| - 1)[1..] == Blanks(|parts| - 2);
      assert parts[0] + [' '] == parts[0] + " ";
    }
  }

  /**
   * A diagnostic of words with any white space between them is valid exactly if, with single blanks instead, it is
   * printable US-ASCII of at most 700 characters.
   */
  lemma DiagnosticLaw(words: seq<string>, seps: seq<char>)
    requires |words| == |seps| + 1 && forall i :: 0 <= i < |seps| ==> IsSpace(seps[i])
    requires forall i :: 0 <= i < |words| ==> words[i] != "" && Free(words[i], IsSpace)
    ensures var text := Interleave(words, Blanks(|words| - 1));
            ValidDiagnostic(Interleave(words, seps)) <==>
              |text| <= 700 && forall i :: 0 <= i < |text| ==> 32 <= text[i] as int <= 126
  {
    SplitParts(words, seps, IsSpace);
    NonEmptyKeeps(words);
    JoinedFields(words);
    assert Interleave(words, Blanks(|words| - 1)) != "";
  }

  // ---- Compilation ----

  /** How an action is written. */
  function Written(a: Action): string {
    match a
    case Reject => "reject"
    case Greylist => "greylist"
    case Arf => "arf"
    case XarfV3 => "xarf-v3"
    case XarfV4 => "xarf-v4"
    case OriginalReport => "original-report"
    case AsyncBounce => "async-bounce"
  }

  function StageName(s: Stage): string {
    match s
    case MailFrom => "mailfrom"
    case Rcpt => "rcpt"
    case Data => "data"
  }

  /** The rule's action, as written; a blank one rejects. */
  predicate HasAction(r: RuleInput, a: Action) {
    var text := Lower(Trim(r.action));
    text == Written(a) || (text == "" && a == Reject)
  }

  lemma ParsedAction(s: string, a: Action)
    ensures ParseAction(s) == Some(a) <==> s == Written(a)
  {
  }

  lemma ParsedStage(s: string, stage: Stage)
    ensures ParseStage(s) == Some(stage) <==> s == StageName(stage)
  {
  }

  /** What the compiled rule holds in any case. */
  predicate Carries(rule: Rule, r: RuleInput, a: Action) {
    && rule.action == a && rule.trigger == Lower(Trim(r.trigger)) && rule.localPart == Trim(r.localPart)
    && rule.name == (if Trim(r.name) == "" then rule.trigger else Trim(r.name))
  }

  /** A rule with an action that is none, or without a trigger, does not compile. */
  lemma NoRule(r: RuleInput, parse: string -> Option<int>)
    requires Lower(Trim(r.trigger)) == "" || forall a :: !HasAction(r, a)
    ensures Compile(r, parse).Err?
  {
    var text := Lower(Trim(r.action));
    if Lower(Trim(r.trigger)) != "" {
      assert !HasAction(r, Reject);
      if ParseAction(text).Some? {
        assert !HasAction(r, ParseAction(text).value);
        ParsedAction(text, ParseAction(text).value);
      }
    }
  }

  /** The action of a tidied rule. */
  predicate IsAction(t: RuleInput, a: Action) {
    (if t.action == "" then Some(Reject) else ParseAction(t.action)) == Some(a)
  }

  lemma ActionFound(r: RuleInput, a: Action)
    requires HasAction(r, a)
    ensures IsAction(Tidy(r), a)
  {
    ParsedAction(Lower(Trim(r.action)), a);
  }

  predicate CarriedBy(rule: Rule, t: RuleInput, a: Action) {
    && rule.action == a && rule.trigger == t.trigger && rule.localPart == t.localPart
    && rule.name == (if t.name == "" then t.trigger else t.name)
  }

  lemma TidyAnswer(t: RuleInput, minRetry: Option<int>, reset: Option<int>, a: Action, stage: Stage)
    returns (rule: Rule)
    requires IsAction(t, a) && a in {Reject, Greylist} && t.trigger != "" && ParseStage(t.stage) == Some(stage)
    ensures CarriedBy(rule, t, a) && rule.stage == stage && rule.code == t.code && rule.message == t.message
    ensures rule.enhancedCode == t.enhancedCode && rule.allowAfter == t.allowAfter
    ensures t.message == "" || t.localPart != "" || !(400 <= t.code <= 599) ==> CompileTidy(t, minRetry, reset).Err?
    ensures t.message != "" && t.localPart == "" && 400 <= t.code <= 599 ==>
              CompileTidy(t, minRetry, reset) == if a == Reject then Ok(rule)
                  else CompileGreylist(rule, minRetry, reset)
  {
    rule := Rule(if t.name == "" then t.trigger else t.name, t.trigger, stage, a, t.allowAfter, 0, 0,
                 t.code, t.enhancedCode, "", t.localPart, t.message);
  }

  /** A reject rule compiles exactly with a stage, a message, a code from 400 to 599 and no local part. */
  lemma RejectLaw(r: RuleInput, parse: string -> Option<int>, stage: Stage)
    requires HasAction(r, Reject) && Lower(Trim(r.trigger)) != "" && Lower(Trim(r.stage)) == StageName(stage)
    ensures Compile(r, parse).Ok? <==> Trim(r.message) != "" && Trim(r.localPart) == "" && 400 <= r.code <= 599
    ensures Compile(r, parse).Ok? ==>
              var rule := Compile(r, parse).value;
              && Carries(rule, r, Reject) && rule.stage == stage && rule.code == r.code
              && rule.enhancedCode == Trim(r.enhancedCode) && rule.message == Trim(r.message)
  {
    ActionFound(r, Reject);
    ParsedStage(Lower(Trim(r.stage)), stage);
    var rule := TidyAnswer(Tidy(r), OptionalDuration(r.minRetryAfter, parse), OptionalDuration(r.resetAfter, parse),
                           Reject, stage);
  }

  lemma GreylistTimes(rule: Rule, minRetry: Option<int>, reset: Option<int>)
    requires 400 <= rule.code
    ensures CompileGreylist(rule, minRetry, reset).Ok? <==>
              rule.stage != MailFrom && rule.code <= 499 && minRetry.Some? && reset.Some?
    ensures CompileGreylist(rule, minRetry, reset).Ok? ==>
              var c := CompileGreylist(rule, minRetry, reset).value;
              c == rule.(allowAfter := c.allowAfter, minRetryAfter := minRetry.value, resetAfter := c.resetAfter)
              && c.allowAfter == (if rule.allowAfter >= 1 then rule.allowAfter else 1)
              && c.resetAfter == (if reset.value > 0 then reset.value else 3_600_000_000_000)
  {
  }

  /** The time in a rule's field: none if it is blank. */
  function Time(text: string, parse: string -> Option<int>): Option<int> {
    if Trim(text) != "" then parse(text) else Some(0)
  }

  /**
   * A greylist rule needs the same, an RCPT or DATA stage, a temporary code, and times that parse if they are given.
   */
  lemma GreylistLaw(r: RuleInput, parse: string -> Option<int>, stage: Stage)
    requires HasAction(r, Greylist) && Lower(Trim(r.trigger)) != "" && Lower(Trim(r.stage)) == StageName(stage)
    ensures Compile(r, parse).Ok? <==>
              && Trim(r.message) != "" && Trim(r.localPart) == "" && 400 <= r.code <= 499 && stage != MailFrom
              && Time(r.minRetryAfter, parse).Some? && Time(r.resetAfter, parse).Some?
    ensures Compile(r, parse).Ok? ==>
              var rule := Compile(r, parse).value;
              var reset := Time(r.resetAfter, parse).value;
              && Carries(rule, r, Greylist) && rule.stage == stage && rule.code == r.code
              && rule.enhancedCode == Trim(r.enhancedCode) && rule.message == Trim(r.message)
              && rule.allowAfter == (if r.allowAfter >= 1 then r.allowAfter else 1)
              && rule.minRetryAfter == Time(r.minRetryAfter, parse).value
              && rule.resetAfter == (if reset > 0 then reset else 3_600_000_000_000)
  {
    ActionFound(r, Greylist);
    ParsedStage(Lower(Trim(r.stage)), stage);
    var minRetry, reset := OptionalDuration(r.minRetryAfter, parse), OptionalDuration(r.resetAfter, parse);
    var rule := TidyAnswer(Tidy(r), minRetry, reset, Greylist, stage);
    if 400 <= r.code {
      GreylistTimes(rule, minRetry, reset);
    }
  }

  /** A rule that answers the client does not compile without a stage. */
  lemma NoStage(r: RuleInput, parse: string -> Option<int>, a: Action)
    requires HasAction(r, a) && a in {Reject, Greylist} && forall stage :: Lower(Trim(r.stage)) != StageName(stage)
    ensures Compile(r, parse).Err?
  {
    ActionFound(r, a);
    var text := Lower(Trim(r.stage));
    if ParseStage(text).Some? {
      assert text != StageName(ParseStage(text).value);
      ParsedStage(text, ParseStage(text).value);
    }
  }

  /** The rule that a report's common fields make. */
  function ReportRule(t: RuleInput, a: Action, feedback: string): Rule {
    Rule(if t.name == "" then t.trigger else t.name, t.trigger, Data, a, t.allowAfter, 0, 0, t.code, t.enhancedCode,
         feedback, t.localPart, if t.message == "" then DefaultMessage(a) else t.message)
  }

  lemma TidyArf(t: RuleInput, minRetry: Option<int>, reset: Option<int>)
    requires IsAction(t, Arf) && t.trigger != ""
    ensures var feedback := if t.feedbackType == "" then "abuse" else t.feedbackType;
            CompileTidy(t, minRetry, reset) ==
              if !KnownFeedback(feedback) then Err(UnsupportedFeedback)
              else if !ValidLocalPart(t.localPart) then Err(InvalidLocalPart)
              else Ok(ReportRule(t, Arf, feedback))
  {
  }

  lemma TidyPlainReport(t: RuleInput, minRetry: Option<int>, reset: Option<int>, a: Action)
    requires IsAction(t, a) && a in {XarfV3, XarfV4, OriginalReport} && t.trigger != ""
    ensures CompileTidy(t, minRetry, reset) ==
              if !ValidLocalPart(t.localPart) then Err(InvalidLocalPart) else Ok(ReportRule(t, a, ""))
  {
  }

  lemma TidyBounce(t: RuleInput, minRetry: Option<int>, reset: Option<int>)
    requires IsAction(t, AsyncBounce) && t.trigger != ""
    ensures CompileTidy(t, minRetry, reset) ==
              if t.localPart != "" then Err(UnexpectedLocalPart) else CompileBounce(ReportRule(t, AsyncBounce, ""))
  {
  }

  lemma FeedbackKnown(s: string)
    ensures KnownFeedback(if s == "" then "abuse" else s) <==> s in {"", "abuse", "fraud", "virus", "other", "not-spam"}
  {
  }

  /**
   * A report rule compiles with a valid local part or none, and as ARF with a known feedback type or none, which then
   * is abuse; other reports have none.
   */
  lemma ReportLaw(r: RuleInput, parse: string -> Option<int>, a: Action)
    requires HasAction(r, a) && a in {Arf, XarfV3, XarfV4, OriginalReport} && Lower(Trim(r.trigger)) != ""
    ensures var feedback := Lower(Trim(r.feedbackType));
            Compile(r, parse).Ok? <==>
              ValidLocalPart(Trim(r.localPart))
              && (a == Arf ==> feedback in {"", "abuse", "fraud", "virus", "other", "not-spam"})
    ensures Compile(r, parse).Ok? ==>
              var rule := Compile(r, parse).value;
              var feedback := Lower(Trim(r.feedbackType));
              && Carries(rule, r, a) && rule.stage == Data && rule.code == r.code
              && rule.enhancedCode == Trim(r.enhancedCode)
              && rule.message == (if Trim(r.message) != "" then Trim(r.message) else DefaultMessage(a))
              && rule.feedbackType == (if a != Arf then "" else if feedback == "" then "abuse" else feedback)
  {
    ActionFound(r, a);
    var t := Tidy(r);
    var minRetry, reset := OptionalDuration(r.minRetryAfter, parse), OptionalDuration(r.resetAfter, parse);
    if a == Arf {
      TidyArf(t, minRetry, reset);
      FeedbackKnown(t.feedbackType);
    } else {
      TidyPlainReport(t, minRetry, reset, a);
    }
  }

  lemma BounceCodes(rule: Rule)
    ensures CompileBounce(rule).Ok? <==>
              && ValidDiagnostic(rule.message) && (rule.code == 0 || 500 <= rule.code <= 599)
              && EnhancedBounceCode(if rule.enhancedCode == "" then "5.0.0" else rule.enhancedCode)
    ensures CompileBounce(rule).Ok? ==>
              CompileBounce(rule).value ==
                rule.(code := if rule.code == 0 then 550 else rule.code,
                      enhancedCode := if rule.enhancedCode == "" then "5.0.0" else rule.enhancedCode)
  {
  }

  /**
   * A bounce compiles with a printable diagnostic, a permanent code, 550 if none is given, and a permanent enhanced
   * code.
   */
  lemma BounceLaw(r: RuleInput, parse: string -> Option<int>)
    requires HasAction(r, AsyncBounce) && Lower(Trim(r.trigger)) != ""
    ensures var message := if Trim(r.message) != "" then Trim(r.message) else DefaultMessage(AsyncBounce);
            Compile(r, parse).Ok? <==>
              && Trim(r.localPart) == "" && ValidDiagnostic(message) && (r.code == 0 || 500 <= r.code <= 599)
              && EnhancedBounceCode(if Trim(r.enhancedCode) == "" then "5.0.0" else Trim(r.enhancedCode))
    ensures Compile(r, parse).Ok? ==>
              var rule := Compile(r, parse).value;
              && Carries(rule, r, AsyncBounce) && rule.stage == Data
              && rule.message == (if Trim(r.message) != "" then Trim(r.message) else DefaultMessage(AsyncBounce))
              && rule.code == (if r.code == 0 then 550 else r.code)
              && rule.enhancedCode == (if Trim(r.enhancedCode) == "" then "5.0.0" else Trim(r.enhancedCode))
  {
    ActionFound(r, AsyncBounce);
    var t := Tidy(r);
    TidyBounce(t, OptionalDuration(r.minRetryAfter, parse), OptionalDuration(r.resetAfter, parse));
    BounceCodes(ReportRule(t, AsyncBounce, ""));
  }
}
