/** What reading an SMTP DATA block should return, as a function of the bytes alone. */
module DataSpec {
  import opened Text

  type byte = b: int | 0 <= b < 0x100

  type bytes = seq<byte>

  const CR: byte := 13
  const LF: byte := 10
  const DOT: byte := 46

  const MAX_LINE: nat := 1000

  datatype DataResult =
    | Body(data: bytes)
    | TooLarge
    | LineTooLong
    | BareReturn
    | ReadFailed

  // ---- Lines ----

  /** Position of the first LF from `from` on. */
  function FirstLF(input: bytes, from: nat): (r: Option<nat>)
    requires from <= |input|
    ensures r.Some? ==> from <= r.value < |input| && input[r.value] == LF
    ensures r.Some? ==> forall k :: from <= k < r.value ==> input[k] != LF
    ensures r.None? ==> forall k :: from <= k < |input| ==> input[k] != LF
    decreases |input| - from
  {
    if from == |input| then None
    else if input[from] == LF then Some(from)
    else FirstLF(input, from + 1)
  }

  /** The first line with its LF, and what follows it. */
  function NextLine(input: bytes): Option<(bytes, bytes)> {
    match FirstLF(input, 0)
    case Some(i) => Some((input[..i + 1], input[i + 1..]))
    case None => None
  }

  predicate NoLF(s: bytes) {
    forall k :: 0 <= k < |s| ==> s[k] != LF
  }

  predicate NoCR(s: bytes) {
    forall k :: 0 <= k < |s| ==> s[k] != CR
  }

  /** Exactly one LF, at the end. */
  predicate IsLine(line: bytes) {
    line != [] && line[|line| - 1] == LF && NoLF(line[..|line| - 1])
  }

  predicate Long(line: bytes) {
    |line| > MAX_LINE
  }

  predicate Terminator(line: bytes) {
    line == [DOT, CR, LF] || line == [DOT, LF]
  }

  function DropLast(line: bytes, b: byte): bytes {
    if line != [] && line[|line| - 1] == b then line[..|line| - 1] else line
  }

  /** The text of a line: a doubled leading dot loses one dot, and the line ending goes. */
  function Content(line: bytes): bytes {
    var l := if |line| >= 2 && line[0] == DOT && line[1] == DOT then line[1..] else line;
    DropLast(DropLast(l, LF), CR)
  }

  predicate HasBareReturn(line: bytes) {
    !NoCR(Content(line))
  }

  /** What a line adds to the size of the message. */
  function Weight(line: bytes): nat {
    if Long(line) then |line| else |Content(line)| + 2
  }

  function Size(lines: seq<bytes>): nat {
    if lines == [] then 0 else Size(lines[..|lines| - 1]) + Weight(lines[|lines| - 1])
  }

  predicate AnyLong(lines: seq<bytes>) {
    exists i :: 0 <= i < |lines| && Long(lines[i])
  }

  /** The texts of the lines that are not overlong, each ended by CRLF. */
  function Joined(lines: seq<bytes>): bytes {
    if lines == [] then []
    else
      var before, last := Joined(lines[..|lines| - 1]), lines[|lines| - 1];
      if Long(last) then before else before + Content(last) + [CR, LF]
  }

  // ---- The block ----

  /** The lines before the terminator, if the input gets that far, and the unread rest. */
  datatype Block =
    | Ended(lines: seq<bytes>, rest: bytes)
    | Refused(rest: bytes)
    | Unended

  function Scan(input: bytes): Block
    decreases |input|
  {
    match NextLine(input)
    case None => Unended
    case Some((line, rest)) =>
      if !Long(line) && Terminator(line) then Ended([], rest)
      else if !Long(line) && HasBareReturn(line) then Refused(rest)
      else
        match Scan(rest)
        case Ended(lines, r) => Ended([line] + lines, r)
        case other => other
  }

  /** The result of reading one DATA block, and the bytes left unread. */
  function Read(input: bytes, limit: nat): (DataResult, bytes) {
    match Scan(input)
    case Unended => (ReadFailed, [])
    case Refused(rest) => (BareReturn, rest)
    case Ended(lines, rest) =>
      (if Size(lines) > limit then TooLarge
       else if AnyLong(lines) then LineTooLong
       else Body(Joined(lines)), rest)
  }

  // ---- The sender's side ----

  /** Transparency, section 4.5.2 of RFC 5321: a line that starts with a dot gets another one. */
  function Stuff(text: bytes): bytes {
    if text != [] && text[0] == DOT then [DOT] + text else text
  }

  function Flatten(lines: seq<bytes>): bytes {
    if lines == [] then [] else lines[0] + Flatten(lines[1..])
  }

  function WireLine(text: bytes): bytes {
    Stuff(text) + [CR, LF]
  }

  function WireLines(texts: seq<bytes>): seq<bytes> {
    seq(|texts|, i requires 0 <= i < |texts| => WireLine(texts[i]))
  }

  /** The texts as a sender puts them on the wire. */
  function Wire(texts: seq<bytes>): bytes {
    Flatten(WireLines(texts)) + [DOT, CR, LF]
  }

  /** The texts, each ended by CRLF. */
  function Message(texts: seq<bytes>): bytes {
    if texts == [] then [] else Message(texts[..|texts| - 1]) + texts[|texts| - 1] + [CR, LF]
  }

  predicate PlainText(text: bytes) {
    NoCR(text) && NoLF(text)
  }
}
