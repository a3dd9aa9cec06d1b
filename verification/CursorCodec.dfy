/** The text of a paging cursor (before base64), and when it reads back as the key it was made from. */
module CursorCodec {
  import opened Text

  const MIN_INT64: int := -0x8000_0000_0000_0000
  const MAX_INT64: int := 0x7FFF_FFFF_FFFF_FFFF

  function Digit(d: int): char
    requires 0 <= d < 10
  {
    d as char + '0'
  }

  predicate IsDigit(c: char) {
    '0' <= c <= '9'
  }

  function FormatNat(n: nat): (s: string)
    ensures s != "" && forall i :: 0 <= i < |s| ==> IsDigit(s[i])
  {
    if n < 10 then [Digit(n)] else FormatNat(n / 10) + [Digit(n % 10)]
  }

  function FormatInt(n: int): string {
    if n < 0 then "-" + FormatNat(-n) else FormatNat(n)
  }

  function ParseNat(s: string): Option<nat> {
    if s == "" || !IsDigit(s[|s| - 1]) then None
    else
      var last := (s[|s| - 1] as int) - ('0' as int);
      if |s| == 1 then Some(last)
      else
        match ParseNat(s[..|s| - 1])
        case None => None
        case Some(n) => Some(10 * n + last)
  }

  /** A decimal number with an optional sign, within 64 bits. */
  function ParseInt(s: string): Option<int> {
    var negative := s != "" && s[0] == '-';
    var digits := if s != "" && (s[0] == '-' || s[0] == '+') then s[1..] else s;
    match ParseNat(digits)
    case None => None
    case Some(n) =>
      var value: int := if negative then 0 - n else n;
      if MIN_INT64 <= value <= MAX_INT64 then Some(value) else None
  }

  function Encode(receivedAt: string, id: int): string {
    receivedAt + "|" + FormatInt(id)
  }

  /** Splits at the first bar; `isTime` is the time parser's verdict on the first part. */
  function Decode(raw: string, isTime: string -> bool): Option<(string, int)> {
    match IndexIn(raw, '|', 0, |raw|)
    case None => None
    case Some(bar) =>
      var at, id := raw[..bar], raw[bar + 1..];
      if at == "" || id == "" || !isTime(at) then None
      else
        match ParseInt(id)
        case None => None
        case Some(n) => Some((at, n))
  }

  lemma {:induction false} NatRoundTrip(n: nat)
    ensures ParseNat(FormatNat(n)) == Some(n)
  {
    if n >= 10 {
      NatRoundTrip(n / 10);
      var s := FormatNat(n);
      assert s[..|s| - 1] == FormatNat(n / 10);
      assert s[|s| - 1] == Digit(n % 10);
    }
  }

  lemma IntRoundTrip(n: int)
    requires MIN_INT64 <= n <= MAX_INT64
    ensures ParseInt(FormatInt(n)) == Some(n) && FormatInt(n) != ""
  {
    var s := FormatInt(n);
    if n < 0 {
      NatRoundTrip(-n);
      assert s[1..] == FormatNat(-n);
    } else {
      NatRoundTrip(n);
      assert IsDigit(s[0]);
    }
  }

  lemma FirstBar(at: string, rest: string)
    ensures var raw := at + "|" + rest;
            var bar := IndexIn(raw, '|', 0, |raw|);
            && bar.Some? && bar.value <= |at|
            && (bar.value == |at| <==> forall i :: 0 <= i < |at| ==> at[i] != '|')
            && raw[..|at|] == at && raw[|at| + 1..] == rest
  {
    var raw := at + "|" + rest;
    assert raw[|at|] == '|' && forall i :: 0 <= i < |at| ==> raw[i] == at[i];
  }

  /** A cursor reads back as its key exactly when its time text is a time and holds no bar. */
  lemma CursorRoundTrip(receivedAt: string, id: int, isTime: string -> bool)
    requires MIN_INT64 <= id <= MAX_INT64
    ensures Decode(Encode(receivedAt, id), isTime) == Some((receivedAt, id))
       <==> receivedAt != "" && isTime(receivedAt) && forall i :: 0 <= i < |receivedAt| ==> receivedAt[i] != '|'
  {
    var raw := Encode(receivedAt, id);
    FirstBar(receivedAt, FormatInt(id));
    IntRoundTrip(id);
    var bar := IndexIn(raw, '|', 0, |raw|).value;
    assert |raw[..bar]| == bar;
  }

  /** Any text: its first bar separates a time from a number, or it is refused. */
  lemma DecodeLaw(at: string, text: string, isTime: string -> bool)
    requires '|' !in at
    ensures Decode(at, isTime) == None
    ensures Decode(at + "|" + text, isTime) ==
              if at != "" && isTime(at) && text != "" && ParseInt(text).Some? then Some((at, ParseInt(text).value))
                  else None
  {
    FirstBar(at, text);
    assert forall i :: 0 <= i < |at| ==> at[i] in at;
  }

  /** A number may have a plus sign; beyond 64 bits it is refused, and so is a text that ends in no digit. */
  lemma ParseIntLaw(n: nat, c: char)
    requires !IsDigit(c)
    ensures ParseInt("+" + FormatNat(n)) == if n <= MAX_INT64 then Some(n) else None
    ensures ParseInt("-" + FormatNat(n)) == if 0 - n >= MIN_INT64 then Some(0 - n) else None
    ensures ParseInt(FormatNat(n) + [c]) == None
  {
    var digits := FormatNat(n);
    NatRoundTrip(n);
    assert ("+" + digits)[1..] == digits && ("-" + digits)[1..] == digits;
    var bad := digits + [c];
    assert IsDigit(bad[0]) && bad[|bad| - 1] == c;
  }
}
