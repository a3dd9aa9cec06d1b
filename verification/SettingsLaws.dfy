/** What the list splitters return for any text, and what normalization keeps. */
module SettingsLaws {
  import opened Text
  import opened SettingsLists
  import opened Settings
  import opened MailFailRules

  // ---- Trimming ----

  lemma TrimUnique(s: string, from: nat, to: nat)
    requires from <= to <= |s| && Trimmed(s[from..to])
    requires forall i :: 0 <= i < from || to <= i < |s| ==> IsSpace(s[i])
    ensures Trim(s) == s[from..to]
  {
    var lo, hi := TrimSlice(s);
    if from < to {
      assert s[from..to][0] == s[from] && s[from..to][to - from - 1] == s[to - 1];
    }
    if lo < hi {
      assert s[lo..hi][0] == s[lo] && s[lo..hi][hi - lo - 1] == s[hi - 1];
    }
  }

  /** Trimming drops white space around a text, however much of it there is. */
  lemma TrimLaw(before: string, text: string, behind: string)
    requires Trimmed(text) && forall c :: c in before || c in behind ==> IsSpace(c)
    ensures Trim(before + text + behind) == text
  {
    var s := before + text + behind;
    var from, to := |before|, |before| + |text|;
    assert s[from..to] == text;
    forall i | 0 <= i < from || to <= i < |s| ensures IsSpace(s[i]) {
      assert i < from ==> s[i] in before;
      assert i >= to ==> s[i] == behind[i - to];
    }
    TrimUnique(s, from, to);
  }

  // ---- Lists ----

  /** The parts of a text with separators between them. */
  function Interleave(parts: seq<string>, seps: seq<char>): string
    requires |parts| == |seps| + 1
  {
    if seps == [] then parts[0] else parts[0] + [seps[0]] + Interleave(parts[1..], seps[1..])
  }

  /** The parts that are not blank, trimmed, in order. */
  function Kept(parts: seq<string>): seq<string> {
    if parts == [] then []
    else if Trim(parts[0]) == "" then Kept(parts[1..])
    else [Trim(parts[0])] + Kept(parts[1..])
  }

  lemma {:induction false} SplitFirst(a: string, sep: char, b: string, isSep: char -> bool)
    requires Free(a, isSep) && isSep(sep)
    ensures Split(a + [sep] + b, isSep) == [a] + Split(b, isSep)
    decreases |a|
  {
    var s := a + [sep] + b;
    if a == "" {
      assert s[1..] == b;
    } else {
      assert s[1..] == a[1..] + [sep] + b;
      SplitFirst(a[1..], sep, b, isSep);
      assert [a[0]] + a[1..] == a;
    }
  }

  lemma {:induction false} SplitParts(parts: seq<string>, seps: seq<char>, isSep: char -> bool)
    requires |parts| == |seps| + 1
    requires forall i :: 0 <= i < |parts| ==> Free(parts[i], isSep)
    requires forall i :: 0 <= i < |seps| ==> isSep(seps[i])
    ensures Split(Interleave(parts, seps), isSep) == parts
    decreases |seps|
  {
    if seps == [] {
      SplitWhole(parts[0], isSep);
    } else {
      SplitParts(parts[1..], seps[1..], isSep);
      SplitFirst(parts[0], seps[0], Interleave(parts[1..], seps[1..]), isSep);
    }
  }

  lemma {:induction false} KeptPush(parts: seq<string>, last: string)
    ensures Kept(parts + [last]) == Kept(parts) + (if Trim(last) == "" then [] else [Trim(last)])
    decreases |parts|
  {
    var all := parts + [last];
    if parts == [] {
      assert all[1..] == [];
    } else {
      assert all[1..] == parts[1..] + [last];
      KeptPush(parts[1..], last);
    }
  }

  lemma {:induction false} CleanIsKept(parts: seq<string>)
    ensures Clean(parts) == Kept(parts)
  {
    if parts != [] {
      var n := |parts| - 1;
      CleanIsKept(parts[..n]);
      KeptPush(parts[..n], parts[n]);
      assert parts == parts[..n] + [parts[n]];
    }
  }

  lemma {:induction false} NonEmptyIsKept(parts: seq<string>)
    ensures Kept(NonEmptyParts(parts)) == Kept(parts)
  {
    if parts != [] {
      var n := |parts| - 1;
      NonEmptyIsKept(parts[..n]);
      KeptPush(parts[..n], parts[n]);
      KeptPush(NonEmptyParts(parts[..n]), parts[n]);
      assert parts == parts[..n] + [parts[n]];
      TrimFixed("");
    }
  }

  /** A blank text has no items. */
  lemma {:induction false} BlankHasNone(parts: seq<string>, seps: seq<char>)
    requires |parts| == |seps| + 1 && Trim(Interleave(parts, seps)) == ""
    requires forall i :: 0 <= i < |seps| ==> seps[i] == ',' || IsSpace(seps[i])
    ensures Kept(parts) == []
    decreases |seps|
  {
    var s := Interleave(parts, seps);
    var from, to := TrimSlice(s);
    assert forall i :: 0 <= i < |s| ==> IsSpace(s[i]);
    assert parts[0] == s[..|parts[0]|];
    assert forall i :: 0 <= i < |parts[0]| ==> parts[0][i] == s[i];
    TrimUnique(parts[0], 0, 0);
    if seps != [] {
      var rest := Interleave(parts[1..], seps[1..]);
      var k := |parts[0]| + 1;
      assert forall i :: 0 <= i < |rest| ==> rest[i] == s[k + i];
      TrimUnique(rest, 0, 0);
      BlankHasNone(parts[1..], seps[1..]);
    } else {
      assert parts[1..] == [];
    }
  }

  /**
   * Whatever is entered: the items of a field are the texts between commas and line ends, trimmed, less the blank
   * ones.
   */
  lemma CSVListLaw(parts: seq<string>, seps: seq<char>)
    requires |parts| == |seps| + 1
    requires forall i :: 0 <= i < |seps| ==> seps[i] in {',', '\n', '\r'}
    requires forall i :: 0 <= i < |parts| ==> ',' !in parts[i] && '\n' !in parts[i] && '\r' !in parts[i]
    ensures CSVList(Interleave(parts, seps)) == Kept(parts)
  {
    forall i | 0 <= i < |parts| ensures Free(parts[i], IsListSeparator) {
      assert forall j :: 0 <= j < |parts[i]| ==> parts[i][j] in parts[i];
    }
    SplitParts(parts, seps, IsListSeparator);
    CleanIsKept(NonEmptyParts(parts));
    NonEmptyIsKept(parts);
    if Trim(Interleave(parts, seps)) == "" {
      BlankHasNone(parts, seps);
    }
  }

  /** The policy splits at commas alone. */
  lemma PolicyListLaw(parts: seq<string>, seps: seq<char>)
    requires |parts| == |seps| + 1
    requires forall i :: 0 <= i < |seps| ==> seps[i] == ','
    requires forall i :: 0 <= i < |parts| ==> ',' !in parts[i]
    ensures PolicyList(Interleave(parts, seps)) == Kept(parts)
  {
    forall i | 0 <= i < |parts| ensures Free(parts[i], IsComma) {
      assert forall j :: 0 <= j < |parts[i]| ==> parts[i][j] in parts[i];
    }
    SplitParts(parts, seps, IsComma);
    CleanIsKept(parts);
    if Trim(Interleave(parts, seps)) == "" {
      BlankHasNone(parts, seps);
    }
  }

  // ---- Normalization ----

  /** Lists keep their items, a retention time is not negative, and everything else is as it was given. */
  lemma NormalizeLaw(s: AppSettings)
    ensures var n := NormalizeSettings(s);
            && CSVList(n.allowedOrigins) == CSVList(s.allowedOrigins)
            && PolicyList(n.allowedRemoteIPs) == CSVList(s.allowedRemoteIPs)
            && PolicyList(n.acceptedRcptDomains) == CSVList(s.acceptedRcptDomains)
            && PolicyList(n.acceptedFromDomains) == CSVList(s.acceptedFromDomains)
            && n.smtpLogVerbose == s.smtpLogVerbose && n.mailFailEnabled == s.mailFailEnabled
            && n.reportFrom == Trim(s.reportFrom) && |n.mailFailRules| == |s.mailFailRules|
            && (s.autoDeleteAfterDays >= 0 ==> n.autoDeleteAfterDays == s.autoDeleteAfterDays)
            && (s.autoDeleteAfterDays < 0 ==> n.autoDeleteAfterDays == 0)
            && forall i :: 0 <= i < |s.mailFailRules| ==> n.mailFailRules[i] == NormalizeRule(s.mailFailRules[i])
    ensures var u := NormalizeUserSettings(s);
            && u.allowedOrigins == "" && !u.smtpLogVerbose
            && u == NormalizeSettings(s).(allowedOrigins := "", smtpLogVerbose := false)
  {
    NormalizeIdempotent(s.allowedOrigins);
    SettingsRoundTrip(s.allowedRemoteIPs);
    SettingsRoundTrip(s.acceptedRcptDomains);
    SettingsRoundTrip(s.acceptedFromDomains);
    TrimFixed("");
    assert CSVList("") == [] && NormalizeCSV("") == "";
  }

  /** The texts of a rule are trimmed, its action in lower case, and its numbers kept. */
  lemma NormalizeRuleLaw(r: RuleInput)
    ensures var n := NormalizeRule(r);
            && n.name == Trim(r.name) && n.trigger == Trim(r.trigger) && n.action == Lower(Trim(r.action))
            && n.allowAfter == r.allowAfter && n.code == r.code && n.enhancedCode == Trim(r.enhancedCode)
            && n.minRetryAfter == Trim(r.minRetryAfter) && n.resetAfter == Trim(r.resetAfter)
  {
  }

  lemma ActionKinds(action: string)
    requires LowerTrim(action) == action
    ensures ReportAction(action) <==> action in {"arf", "xarf-v3", "xarf-v4", "original-report", "async-bounce"}
    ensures LocalPartAction(action) <==> action in {"arf", "xarf-v3", "xarf-v4", "original-report"}
  {
  }

  /** Stage, message, feedback type and local part are kept only for the actions that have them. */
  lemma NormalizeRuleKeeps(r: RuleInput, action: string)
    requires action == Lower(Trim(r.action))
    ensures var n := NormalizeRule(r);
            && n.stage == (if action in {"arf", "xarf-v3", "xarf-v4", "original-report", "async-bounce"} then "data"
                           else Trim(r.stage))
            && n.message == (if action in {"arf", "xarf-v3", "xarf-v4", "original-report"} then "" else Trim(r.message))
            && n.feedbackType == (if action == "arf" then Lower(Trim(r.feedbackType)) else "")
            && n.localPart == (if action in {"arf", "xarf-v3", "xarf-v4", "original-report"} then Trim(r.localPart)
                               else "")
  {
    LowerTrimIdempotent(r.action);
    ActionKinds(action);
  }
}
