/** What the DATA reader accepts, what it returns, and where it stops reading. */
module DataProofs {
  import opened DataSpec
  import opened DataReader

  // ---- Framing ----

  /** A line that neither ends the block nor makes the reader give up. */
  predicate Ordinary(line: bytes) {
    IsLine(line) && (Long(line) || (!Terminator(line) && !HasBareReturn(line)))
  }

  /** The input consists of ordinary lines, the first terminator line, and a rest. */
  predicate Framed(input: bytes, lines: seq<bytes>, end: bytes, rest: bytes) {
    && input == Flatten(lines) + end + rest
    && Terminator(end)
    && forall i :: 0 <= i < |lines| ==> Ordinary(lines[i])
  }

  lemma NextLineParts(input: bytes)
    requires NextLine(input).Some?
    ensures var (line, rest) := NextLine(input).value; IsLine(line) && input == line + rest
  {
    var i := FirstLF(input, 0).value;
    assert input[..i + 1][..i] == input[..i];
  }

  lemma TerminatorIsLine(end: bytes)
    requires Terminator(end)
    ensures IsLine(end) && !Long(end)
  {
  }

  lemma FramedCons(line: bytes, input: bytes, lines: seq<bytes>, end: bytes, rest: bytes)
    requires Ordinary(line) && Framed(input, lines, end, rest)
    ensures Framed(line + input, [line] + lines, end, rest)
  {
    assert ([line] + lines)[1..] == lines;
    assert line + (Flatten(lines) + end + rest) == line + Flatten(lines) + end + rest;
  }

  lemma FramedTail(input: bytes, lines: seq<bytes>, end: bytes, rest: bytes) returns (tail: bytes)
    requires Framed(input, lines, end, rest) && lines != []
    ensures input == lines[0] + tail && Ordinary(lines[0]) && Framed(tail, lines[1..], end, rest)
  {
    tail := Flatten(lines[1..]) + end + rest;
    assert input == lines[0] + tail;
  }

  lemma ScanOrdinary(line: bytes, tail: bytes)
    requires Ordinary(line) && Scan(tail).Ended?
    ensures Scan(line + tail) == Ended([line] + Scan(tail).lines, Scan(tail).rest)
  {
    NextLineOf(line + tail, line, tail);
  }

  lemma ScanTerminator(end: bytes, rest: bytes)
    requires Terminator(end)
    ensures Scan(end + rest) == Ended([], rest)
  {
    TerminatorIsLine(end);
    NextLineOf(end + rest, end, rest);
  }

  /** A block that ends does so after ordinary lines, at the first terminator line. */
  lemma {:induction false} ScanIsFramed(input: bytes) returns (end: bytes)
    requires Scan(input).Ended?
    ensures Framed(input, Scan(input).lines, end, Scan(input).rest)
    decreases |input|
  {
    NextLineParts(input);
    var (line, rest) := NextLine(input).value;
    if !Long(line) && Terminator(line) {
      end := line;
      assert Flatten([]) + line + rest == input;
    } else {
      end := ScanIsFramed(rest);
      FramedCons(line, rest, Scan(rest).lines, end, Scan(rest).rest);
    }
  }

  /** And every input of that shape is read as that block. */
  lemma {:induction false} FramedIsScanned(input: bytes, lines: seq<bytes>, end: bytes, rest: bytes)
    requires Framed(input, lines, end, rest)
    ensures Scan(input) == Ended(lines, rest)
    decreases |lines|
  {
    if lines == [] {
      assert input == end + rest;
      ScanTerminator(end, rest);
    } else {
      var tail := FramedTail(input, lines, end, rest);
      FramedIsScanned(tail, lines[1..], end, rest);
      ScanOrdinary(lines[0], tail);
      assert [lines[0]] + lines[1..] == lines;
    }
  }

  // ---- Accepted bodies ----

  lemma ContentIsPlain(line: bytes)
    requires IsLine(line) && !HasBareReturn(line)
    ensures PlainText(Content(line))
  {
    var l := if |line| >= 2 && line[0] == DOT && line[1] == DOT then line[1..] else line;
    var n := |l| - 1;
    assert l[n] == LF;
    assert forall k :: 0 <= k < |line| - 1 ==> line[k] == line[..|line| - 1][k];
    assert forall k :: 0 <= k < n ==> l[k] != LF;
    assert DropLast(l, LF) == l[..n];
    assert forall k :: 0 <= k < |Content(line)| ==> Content(line)[k] == l[k];
  }

  function Texts(lines: seq<bytes>): seq<bytes> {
    seq(|lines|, i requires 0 <= i < |lines| => Content(lines[i]))
  }

  /** Without overlong lines, the joined texts are the message of those texts, and their size its length. */
  lemma {:induction false} JoinedIsMessage(lines: seq<bytes>)
    requires !AnyLong(lines)
    ensures Joined(lines) == Message(Texts(lines)) && Size(lines) == |Joined(lines)|
  {
    if lines != [] {
      var n := |lines| - 1;
      assert forall i :: 0 <= i < n ==> lines[..n][i] == lines[i];
      JoinedIsMessage(lines[..n]);
      assert Texts(lines)[..n] == Texts(lines[..n]);
      assert !Long(lines[n]);
    }
  }

  /**
   * An accepted body is a list of texts without CR or LF, each ended by CRLF, and no longer than
   * the limit.
   */
  lemma AcceptedBody(input: bytes, limit: nat) returns (texts: seq<bytes>)
    requires Read(input, limit).0.Body?
    ensures Read(input, limit).0.data == Message(texts) && |Message(texts)| <= limit
    ensures forall i :: 0 <= i < |texts| ==> PlainText(texts[i])
  {
    var lines := Scan(input).lines;
    var end := ScanIsFramed(input);
    JoinedIsMessage(lines);
    texts := Texts(lines);
    forall i | 0 <= i < |texts| ensures PlainText(texts[i]) {
      assert Ordinary(lines[i]) && !Long(lines[i]);
      ContentIsPlain(lines[i]);
    }
  }

  /** A block refused for its size or a long line is read to the end: what is left starts after its terminator. */
  lemma RefusedIsDrained(input: bytes, limit: nat) returns (lines: seq<bytes>, end: bytes)
    requires Read(input, limit).0 in {TooLarge, LineTooLong}
    ensures Framed(input, lines, end, Read(input, limit).1)
  {
    lines := Scan(input).lines;
    end := ScanIsFramed(input);
  }

  // ---- The dot-stuffing round trip ----

  lemma WireLineContent(text: bytes)
    requires PlainText(text)
    ensures Content(WireLine(text)) == text
  {
    var line := WireLine(text);
    var l := if |line| >= 2 && line[0] == DOT && line[1] == DOT then line[1..] else line;
    assert l == text + [CR, LF];
    assert DropLast(l, LF) == text + [CR];
    assert DropLast(text + [CR], CR) == text;
  }

  lemma WireLineIsLine(text: bytes)
    requires NoLF(text)
    ensures IsLine(WireLine(text))
  {
    var line := WireLine(text);
    assert line[..|line| - 1] == Stuff(text) + [CR];
  }

  lemma WireLineReads(text: bytes)
    requires PlainText(text)
    ensures Ordinary(WireLine(text)) && Content(WireLine(text)) == text
  {
    WireLineContent(text);
    WireLineIsLine(text);
    assert !Terminator(WireLine(text)) by {
      if text != [] && text[0] == DOT {
        assert WireLine(text)[1] == DOT;
      }
    }
  }

  lemma {:induction false} SizeOfWire(texts: seq<bytes>)
    requires forall i :: 0 <= i < |texts| ==> PlainText(texts[i])
    ensures Texts(WireLines(texts)) == texts
    ensures forall i :: 0 <= i < |texts| ==> Ordinary(WireLines(texts)[i])
  {
    forall i | 0 <= i < |texts| ensures Texts(WireLines(texts))[i] == texts[i] && Ordinary(WireLines(texts)[i]) {
      WireLineReads(texts[i]);
    }
  }

  /** Every wire line, counted with its stuffed dot and its CRLF, fits the cap. */
  predicate LinesFit(texts: seq<bytes>) {
    forall i :: 0 <= i < |texts| ==> |WireLine(texts[i])| <= MAX_LINE
  }

  /**
   * Reading what a sender put on the wire leaves exactly the bytes behind the terminator, and gives
   * the message back exactly when its wire lines and its size fit.
   */
  lemma RoundTrip(texts: seq<bytes>, suffix: bytes, limit: nat)
    requires forall i :: 0 <= i < |texts| ==> PlainText(texts[i])
    ensures var (result, rest) := Read(Wire(texts) + suffix, limit);
            && rest == suffix
            && (result == Body(Message(texts)) <==> LinesFit(texts) && |Message(texts)| <= limit)
            && (!LinesFit(texts) ==> result in {TooLarge, LineTooLong})
            && (LinesFit(texts) && |Message(texts)| > limit ==> result == TooLarge)
  {
    var lines := WireLines(texts);
    SizeOfWire(texts);
    FramedIsScanned(Wire(texts) + suffix, lines, [DOT, CR, LF], suffix);
    if LinesFit(texts) {
      assert !AnyLong(lines);
      JoinedIsMessage(lines);
    } else {
      var i :| 0 <= i < |texts| && |WireLine(texts[i])| > MAX_LINE;
      assert Long(lines[i]);
    }
  }

  /**
   * The stuffed dot counts: a text of 998 bytes that starts with a dot, which section 4.5.3.1.6 of
   * RFC 5321 allows, is refused as overlong.
   */
  lemma StuffedDotCounts(text: bytes, suffix: bytes, limit: nat)
    requires PlainText(text) && |text| == 998 && text[0] == DOT && limit >= 1001
    ensures Read(Wire([text]) + suffix, limit) == (LineTooLong, suffix)
  {
    RoundTrip([text], suffix, limit);
    SizeOfWire([text]);
    var lines := WireLines([text]);
    FramedIsScanned(Wire([text]) + suffix, lines, [DOT, CR, LF], suffix);
    assert lines == [WireLine(text)];
    assert Size(lines) == Size([]) + Weight(lines[0]) by {
      assert lines[..0] == [];
    }
    assert Weight(lines[0]) == 1001;
  }

  // ---- The receiver's rule of RFC 5321 ----

  /** Section 4.5.2 of RFC 5321: any leading dot that is not the whole line is deleted. */
  function RfcContent(line: bytes): bytes {
    var l := if line != [] && line[0] == DOT then line[1..] else line;
    DropLast(DropLast(l, LF), CR)
  }

  /** The server's rule and the standard's differ exactly on lines that start with a single dot. */
  lemma DotRule(line: bytes)
    requires IsLine(line) && !Terminator(line)
    ensures Content(line) == RfcContent(line) <==> !(line[0] == DOT && line[1] != DOT)
  {
    if line[0] == DOT && line[1] != DOT {
      var n := |line| - 1;
      assert DropLast(line, LF) == line[..n];
      assert DropLast(line[1..], LF) == line[1..n];
      assert line[..n][n - 1] == line[1..n][n - 2];
    }
  }
}
