/** Lists kept in settings as one string, and the two splitters that read them back. */
module SettingsLists {
  import opened Text

  /** The pieces between separators; empty pieces are kept. */
  function Split(s: string, isSep: char -> bool): (r: seq<string>)
    ensures r != []
  {
    if s == "" then [""]
    else
      var rest := Split(s[1..], isSep);
      if isSep(s[0]) then [""] + rest else [[s[0]] + rest[0]] + rest[1..]
  }

  function NonEmptyParts(parts: seq<string>): seq<string> {
    if parts == [] then []
    else
      var before, last := NonEmptyParts(parts[..|parts| - 1]), parts[|parts| - 1];
      if last == "" then before else before + [last]
  }

  /** Every part trimmed, without those that are then empty. */
  function Clean(parts: seq<string>): seq<string> {
    if parts == [] then []
    else
      var before, last := Clean(parts[..|parts| - 1]), Trim(parts[|parts| - 1]);
      if last == "" then before else before + [last]
  }

  function Join(items: seq<string>): string {
    if items == [] then ""
    else if |items| == 1 then items[0]
    else items[0] + "," + Join(items[1..])
  }

  predicate IsComma(c: char) {
    c == ','
  }

  predicate IsListSeparator(c: char) {
    c == ',' || c == '\n' || c == '\r'
  }

  /** The items of a settings field, separated by commas or line ends. */
  function CSVList(value: string): seq<string> {
    if Trim(value) == "" then [] else Clean(NonEmptyParts(Split(value, IsListSeparator)))
  }

  function NormalizeCSV(value: string): string {
    Join(CSVList(value))
  }

  /** The items as the SMTP policy reads them: separated by commas only. */
  function PolicyList(value: string): seq<string> {
    if Trim(value) == "" then [] else Clean(Split(value, IsComma))
  }

  // ---- The splitters as loops ----

  method CleanLoop(parts: seq<string>) returns (values: seq<string>)
    ensures values == Clean(parts)
  {
    values := [];
    for i := 0 to |parts|
      invariant values == Clean(parts[..i])
    {
      assert parts[..i + 1][..i] == parts[..i];
      var part := Trim(parts[i]);
      if part == "" {
        continue;
      }
      values := values + [part];
    }
    assert parts[..|parts|] == parts;
  }

  method CSVListLoop(value: string) returns (values: seq<string>)
    ensures values == CSVList(value)
  {
    if Trim(value) == "" {
      return [];
    }
    var parts := NonEmptyParts(Split(value, IsListSeparator));
    values := CleanLoop(parts);
  }

  method PolicyListLoop(value: string) returns (values: seq<string>)
    ensures values == PolicyList(value)
  {
    if Trim(value) == "" {
      return [];
    }
    values := CleanLoop(Split(value, IsComma));
  }

  // ---- Round trip ----

  predicate Free(s: string, isSep: char -> bool) {
    forall i :: 0 <= i < |s| ==> !isSep(s[i])
  }

  /** An item as a list can hold it: trimmed, not empty, without separators. */
  predicate IsItem(s: string, isSep: char -> bool) {
    s != "" && Trimmed(s) && Free(s, isSep)
  }

  lemma {:induction false} SplitFree(s: string, isSep: char -> bool)
    ensures forall i :: 0 <= i < |Split(s, isSep)| ==> Free(Split(s, isSep)[i], isSep)
  {
    if s != "" {
      SplitFree(s[1..], isSep);
    }
  }

  lemma TrimFree(s: string, isSep: char -> bool)
    requires Free(s, isSep)
    ensures Free(Trim(s), isSep) && Trimmed(Trim(s))
  {
    var from, to := TrimSlice(s);
    assert forall i :: 0 <= i < |Trim(s)| ==> Trim(s)[i] == s[from + i];
  }

  lemma {:induction false} CleanItems(parts: seq<string>, isSep: char -> bool)
    requires forall i :: 0 <= i < |parts| ==> Free(parts[i], isSep)
    ensures forall i :: 0 <= i < |Clean(parts)| ==> IsItem(Clean(parts)[i], isSep)
  {
    if parts != [] {
      CleanItems(parts[..|parts| - 1], isSep);
      TrimFree(parts[|parts| - 1], isSep);
    }
  }

  lemma {:induction false} NonEmptyFree(parts: seq<string>, isSep: char -> bool)
    requires forall i :: 0 <= i < |parts| ==> Free(parts[i], isSep)
    ensures forall i :: 0 <= i < |NonEmptyParts(parts)| ==> Free(NonEmptyParts(parts)[i], isSep)
  {
    if parts != [] {
      NonEmptyFree(parts[..|parts| - 1], isSep);
    }
  }

  lemma ListItems(value: string)
    ensures forall i :: 0 <= i < |CSVList(value)| ==> IsItem(CSVList(value)[i], IsListSeparator)
  {
    var parts := Split(value, IsListSeparator);
    SplitFree(value, IsListSeparator);
    NonEmptyFree(parts, IsListSeparator);
    CleanItems(NonEmptyParts(parts), IsListSeparator);
  }

  lemma {:induction false} SplitHead(a: string, b: string, isSep: char -> bool)
    requires Free(a, isSep) && isSep(',')
    ensures Split(a + "," + b, isSep) == [a] + Split(b, isSep)
  {
    var s := a + "," + b;
    if a == "" {
      assert s[1..] == b;
    } else {
      assert s[1..] == a[1..] + "," + b;
      SplitHead(a[1..], b, isSep);
      assert [a[0]] + a[1..] == a;
    }
  }

  lemma {:induction false} SplitWhole(a: string, isSep: char -> bool)
    requires Free(a, isSep)
    ensures Split(a, isSep) == [a]
  {
    if a != "" {
      SplitWhole(a[1..], isSep);
      assert [a[0]] + a[1..] == a;
    }
  }

  lemma {:induction false} SplitJoin(items: seq<string>, isSep: char -> bool)
    requires items != [] && isSep(',')
    requires forall i :: 0 <= i < |items| ==> IsItem(items[i], isSep)
    ensures Split(Join(items), isSep) == items
  {
    if |items| == 1 {
      SplitWhole(items[0], isSep);
    } else {
      SplitJoin(items[1..], isSep);
      SplitHead(items[0], Join(items[1..]), isSep);
    }
  }

  lemma {:induction false} CleanKeeps(items: seq<string>)
    requires forall i :: 0 <= i < |items| ==> items[i] != "" && Trimmed(items[i])
    ensures Clean(items) == items
  {
    if items != [] {
      var n := |items| - 1;
      var before, last := items[..n], items[n];
      CleanKeeps(before);
      TrimFixed(last);
      assert items == before + [last];
    }
  }

  lemma {:induction false} NonEmptyKeeps(items: seq<string>)
    requires forall i :: 0 <= i < |items| ==> items[i] != ""
    ensures NonEmptyParts(items) == items
  {
    if items != [] {
      var n := |items| - 1;
      NonEmptyKeeps(items[..n]);
      assert items == items[..n] + [items[n]];
    }
  }

  lemma JoinNotBlank(items: seq<string>, isSep: char -> bool)
    requires items != [] && IsItem(items[0], isSep)
    ensures Trim(Join(items)) != ""
  {
    var s := Join(items);
    assert s[0] == items[0][0];
    assert !IsSpace(s[0]);
    var from, to := TrimSlice(s);
  }

  /** The policy reads from a normalized field exactly the items of the field as it was entered. */
  lemma SettingsRoundTrip(value: string)
    ensures PolicyList(NormalizeCSV(value)) == CSVList(value)
  {
    ListItems(value);
    var items := CSVList(value);
    if items == [] {
      TrimFixed("");
    } else {
      assert forall i :: 0 <= i < |items| ==> IsItem(items[i], IsComma);
      SplitJoin(items, IsComma);
      CleanKeeps(items);
      JoinNotBlank(items, IsComma);
    }
  }

  /** Normalizing a second time changes nothing. */
  lemma NormalizeIdempotent(value: string)
    ensures CSVList(NormalizeCSV(value)) == CSVList(value)
    ensures NormalizeCSV(NormalizeCSV(value)) == NormalizeCSV(value)
  {
    ListItems(value);
    var items := CSVList(value);
    if items == [] {
      TrimFixed("");
    } else {
      SplitJoin(items, IsListSeparator);
      NonEmptyKeeps(items);
      CleanKeeps(items);
      JoinNotBlank(items, IsListSeparator);
    }
  }

  /** In a field that was not normalized, a line end would reach the policy inside an item. */
  lemma LineEndMatters(value: string, i: nat)
    requires Trimmed(value) && Free(value, IsComma) && i < |value| && value[i] == '\n'
    ensures PolicyList(value) == [value] && CSVList(value) != [value]
  {
    TrimFixed(value);
    SplitWhole(value, IsComma);
    CleanKeeps([value]);
    ListItems(value);
    assert !Free(value, IsListSeparator);
  }
}
