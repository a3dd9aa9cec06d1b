/** What the DATA reader makes of the lines that clients send, said in bytes and numbers. */
module DataLaws {
  import opened DataSpec
  import opened DataReader
  import opened DataProofs

  /** A text sent as one line, ended by CR LF or by LF alone. */
  datatype Sent = Sent(text: bytes, crlf: bool)

  function LineEnd(crlf: bool): bytes {
    if crlf then [13, 10] else [10]
  }

  function OnWire(lines: seq<Sent>): bytes {
    if lines == [] then [] else lines[0].text + LineEnd(lines[0].crlf) + OnWire(lines[1..])
  }

  /** A line of mail: no CR or LF inside, and not the lone dot that ends the block. */
  predicate IsMailLine(l: Sent) {
    l.text != [46] && forall k :: 0 <= k < |l.text| ==> l.text[k] != 13 && l.text[k] != 10
  }

  predicate Fits(l: Sent) {
    |l.text| + |LineEnd(l.crlf)| <= 1000
  }

  /** A text that starts with two dots loses one; one that starts with a single dot keeps it. */
  function Undotted(text: bytes): bytes {
    if |text| >= 2 && text[0] == 46 && text[1] == 46 then text[1..] else text
  }

  /** The texts, each ended by CR LF, however they were sent. */
  function Received(lines: seq<Sent>): bytes {
    if lines == [] then []
    else Received(lines[..|lines| - 1]) + Undotted(lines[|lines| - 1].text) + [13, 10]
  }

  /** What the lines count against the limit: as they are received, or if they are too long, as they were sent. */
  function Total(lines: seq<Sent>): nat {
    if lines == [] then 0
    else
      var last := lines[|lines| - 1];
      Total(lines[..|lines| - 1]) + (if Fits(last) then |Undotted(last.text)| + 2
          else |last.text| + |LineEnd(last.crlf)|)
  }

  // ---- Sent lines as the reader sees them ----

  function RawLine(l: Sent): bytes {
    l.text + LineEnd(l.crlf)
  }

  function RawLines(lines: seq<Sent>): seq<bytes> {
    seq(|lines|, i requires 0 <= i < |lines| => RawLine(lines[i]))
  }

  lemma {:induction false} WireIsFlat(lines: seq<Sent>)
    ensures OnWire(lines) == Flatten(RawLines(lines))
  {
    if lines != [] {
      WireIsFlat(lines[1..]);
      assert RawLines(lines)[1..] == RawLines(lines[1..]);
    }
  }

  lemma RawIsLine(l: Sent)
    requires forall k :: 0 <= k < |l.text| ==> l.text[k] != 10
    ensures IsLine(RawLine(l)) && (Long(RawLine(l)) <==> !Fits(l))
  {
    var raw := RawLine(l);
    var n := |raw| - 1;
    assert raw[..n] == if l.crlf then l.text + [13] else l.text;
  }

  lemma RawContent(l: Sent)
    requires IsMailLine(l)
    ensures Content(RawLine(l)) == Undotted(l.text)
  {
    var raw, u := RawLine(l), Undotted(l.text);
    var cut := if |raw| >= 2 && raw[0] == 46 && raw[1] == 46 then raw[1..] else raw;
    assert cut == u + LineEnd(l.crlf);
    if l.crlf {
      assert DropLast(cut, 10) == u + [13];
      assert DropLast(u + [13], 13) == u;
    } else {
      assert DropLast(cut, 10) == u;
      assert u != [] ==> u[|u| - 1] == l.text[|l.text| - 1];
    }
  }

  lemma RawIsOrdinary(l: Sent)
    requires IsMailLine(l)
    ensures Ordinary(RawLine(l))
  {
    RawIsLine(l);
    RawContent(l);
    assert forall k :: 0 <= k < |Undotted(l.text)| ==> Undotted(l.text)[k] in l.text;
    var raw := RawLine(l);
    assert !Terminator(raw) by {
      if l.text != [] {
        assert raw[0] == l.text[0];
        assert |l.text| >= 2 ==> raw[1] == l.text[1];
      }
    }
  }

  lemma ScanNothing(b: Block)
    ensures After([], b) == b
  {
    if b.Ended? {
      assert [] + b.lines == b.lines;
    }
  }

  lemma AfterBoth(a: seq<bytes>, b: seq<bytes>, block: Block)
    ensures After(a, After(b, block)) == After(a + b, block)
  {
    if block.Ended? {
      assert a + (b + block.lines) == a + b + block.lines;
    }
  }

  /** Ordinary lines are collected until something else comes. */
  lemma {:induction false} ScanLines(lines: seq<bytes>, x: bytes)
    requires forall i :: 0 <= i < |lines| ==> Ordinary(lines[i])
    ensures Scan(Flatten(lines) + x) == After(lines, Scan(x))
    decreases |lines|
  {
    if lines == [] {
      assert Flatten(lines) + x == x;
      ScanNothing(Scan(x));
    } else {
      var line, rest := lines[0], Flatten(lines[1..]) + x;
      assert Flatten(lines) + x == line + rest;
      NextLineOf(line + rest, line, rest);
      ScanLines(lines[1..], x);
      assert [line] + lines[1..] == lines;
      AfterBoth([line], lines[1..], Scan(x));
    }
  }

  predicate AllFit(lines: seq<Sent>) {
    forall i :: 0 <= i < |lines| ==> Fits(lines[i])
  }

  /** What the reader has collected after these lines. */
  ghost predicate Collected(lines: seq<Sent>, raws: seq<bytes>) {
    && Size(raws) == Total(lines) && (AnyLong(raws) <==> !AllFit(lines))
    && (AllFit(lines) ==> Joined(raws) == Received(lines) && |Received(lines)| == Total(lines))
  }

  lemma CollectOne(lines: seq<Sent>, raws: seq<bytes>, l: Sent)
    requires Collected(lines, raws) && IsMailLine(l)
    ensures Collected(lines + [l], raws + [RawLine(l)])
  {
    var all := lines + [l];
    RawContent(l);
    RawIsLine(l);
    Push(raws, RawLine(l));
    assert all[..|lines|] == lines && all[|lines|] == l;
    assert AllFit(all) <==> AllFit(lines) && Fits(l) by {
      assert forall i :: 0 <= i < |lines| ==> all[i] == lines[i];
    }
  }

  lemma {:induction false} RawTotals(lines: seq<Sent>)
    requires forall i :: 0 <= i < |lines| ==> IsMailLine(lines[i])
    ensures Collected(lines, RawLines(lines))
  {
    if lines != [] {
      var n := |lines| - 1;
      RawTotals(lines[..n]);
      CollectOne(lines[..n], RawLines(lines[..n]), lines[n]);
      assert lines[..n] + [lines[n]] == lines;
      assert RawLines(lines) == RawLines(lines[..n]) + [RawLine(lines[n])];
    }
  }

  // ---- The laws ----

  predicate MailLines(lines: seq<Sent>) {
    forall i :: 0 <= i < |lines| ==> IsMailLine(lines[i])
  }

  lemma CollectsLines(lines: seq<Sent>, x: bytes)
    requires MailLines(lines)
    ensures Scan(OnWire(lines) + x) == After(RawLines(lines), Scan(x))
  {
    WireIsFlat(lines);
    forall i | 0 <= i < |lines| ensures Ordinary(RawLines(lines)[i]) {
      RawIsOrdinary(lines[i]);
    }
    ScanLines(RawLines(lines), x);
  }

  /**
   * For all texts, each sent with CR LF or with LF alone, then a dot with either line end, then anything: the
   * texts come back, each ended by CR LF and less one dot if it starts with two, and what follows the dot is left.
   * Lines of more than 1000 bytes, and messages over the limit, are refused after the dot was read.
   */
  lemma ReadsWhatIsSent(lines: seq<Sent>, crlf: bool, suffix: bytes, limit: nat)
    requires MailLines(lines)
    ensures Read(OnWire(lines) + ([46] + LineEnd(crlf) + suffix), limit) ==
              (if Total(lines) > limit then TooLarge
               else if !AllFit(lines) then LineTooLong
               else Body(Received(lines)), suffix)
  {
    var end := [46] + LineEnd(crlf);
    assert [46] + LineEnd(crlf) + suffix == end + suffix;
    ScanTerminator(end, suffix);
    CollectsLines(lines, end + suffix);
    assert RawLines(lines) + [] == RawLines(lines);
    RawTotals(lines);
  }

  /**
   * A text of 998 bytes sent with CR LF, as section 4.5.3.1.6 of RFC 5321 allows, is accepted unless its leading dot
   * was doubled.
   */
  lemma LongestText(text: bytes, suffix: bytes, limit: nat)
    requires |text| == 998 && IsMailLine(Sent(text, true)) && text[..2] != [46, 46] && limit >= 1000
    ensures Read(OnWire([Sent(text, true)]) + ([46, 13, 10] + suffix), limit) == (Body(text + [13, 10]), suffix)
  {
    var lines := [Sent(text, true)];
    ReadsWhatIsSent(lines, true, suffix, limit);
    assert [46] + LineEnd(true) == [46, 13, 10];
    assert lines[..0] == [];
    assert Received(lines) == Received([]) + Undotted(text) + [13, 10] == text + [13, 10];
    assert Total(lines) == Total([]) + 1000;
  }

  lemma BadContent(bad: Sent, i: nat)
    requires i < |bad.text| && bad.text[i] == 13 && (bad.crlf || i < |bad.text| - 1)
    ensures HasBareReturn(RawLine(bad)) && !Terminator(RawLine(bad))
  {
    var raw := RawLine(bad);
    var doubled := |raw| >= 2 && raw[0] == 46 && raw[1] == 46;
    var cut := if doubled then raw[1..] else raw;
    var j := if doubled then i - 1 else i;
    assert raw[i] == 13;
    assert cut[j] == 13 && j < |cut| - 2 + (if bad.crlf then 0 else 1);
    var c := Content(raw);
    assert j < |c| && c[j] == 13;
  }

  /** A CR inside a line that is not too long makes the reader give up right behind that line. */
  lemma BareReturnStops(lines: seq<Sent>, bad: Sent, i: nat, rest: bytes, limit: nat)
    requires MailLines(lines) && Fits(bad) && forall k :: 0 <= k < |bad.text| ==> bad.text[k] != 10
    requires i < |bad.text| && bad.text[i] == 13 && (bad.crlf || i < |bad.text| - 1)
    ensures Read(OnWire(lines) + (RawLine(bad) + rest), limit) == (BareReturn, rest)
  {
    var raw := RawLine(bad);
    RawIsLine(bad);
    BadContent(bad, i);
    NextLineOf(raw + rest, raw, rest);
    CollectsLines(lines, raw + rest);
  }

  /** Without a closing dot the block fails, and everything has been read. */
  lemma UnendedFails(lines: seq<Sent>, tail: bytes, limit: nat)
    requires MailLines(lines) && forall k :: 0 <= k < |tail| ==> tail[k] != 10
    ensures Read(OnWire(lines) + tail, limit) == (ReadFailed, [])
  {
    CollectsLines(lines, tail);
    assert FirstLF(tail, 0).None?;
  }
}
