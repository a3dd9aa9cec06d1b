/** The buffered reader of a connection, and the loops that read a DATA block from it. */
module DataReader {
  import opened Text
  import opened DataSpec

  datatype Status = LineRead | BufferFull | Failed

  /**
   * A connection's unread bytes. How many bytes one call finds buffered is up to `sizes`, so that
   * lines may arrive in fragments of any positive length.
   */
  class ByteReader {
    var rest: bytes
    var calls: nat
    const sizes: nat -> nat

    constructor (input: bytes, sizes: nat -> nat)
      ensures rest == input
    {
      rest, calls, this.sizes := input, 0, sizes;
    }

    /** A whole line, a non-empty fragment without its end, or the last bytes and an error. */
    method ReadSlice() returns (fragment: bytes, status: Status)
      modifies this
      ensures old(rest) == fragment + rest
      ensures status == LineRead <==> IsLine(fragment)
      ensures status != LineRead ==> NoLF(fragment)
      ensures status == BufferFull ==> fragment != []
      ensures status == Failed ==> rest == []
    {
      var size := sizes(calls);
      if size == 0 {
        size := 1;
      }
      calls := calls + 1;
      var end := FirstLF(rest, 0);
      if end.Some? && end.value < size {
        fragment, status := rest[..end.value + 1], LineRead;
      } else if size <= |rest| {
        fragment, status := rest[..size], BufferFull;
      } else {
        fragment, status := rest, Failed;
      }
      rest := rest[|fragment|..];
    }
  }

  lemma NextLineOf(input: bytes, line: bytes, rest: bytes)
    requires input == line + rest && IsLine(line)
    ensures NextLine(input) == Some((line, rest))
  {
    var n := |line| - 1;
    assert forall k :: 0 <= k < n ==> input[k] == line[..n][k];
    assert input[n] == line[n] == LF;
    assert FirstLF(input, 0) == Some(n);
    assert input[..n + 1] == line && input[n + 1..] == rest;
  }

  /** Reads up to the next LF; a line over the cap is skipped but counted. */
  method ReadDataLine(reader: ByteReader) returns (line: bytes, wireSize: nat, overlong: bool, failed: bool)
    modifies reader
    ensures failed <==> NextLine(old(reader.rest)).None?
    ensures failed ==> reader.rest == []
    ensures !failed ==>
              var (next, rest) := NextLine(old(reader.rest)).value;
              && reader.rest == rest
              && wireSize == |next|
              && overlong == Long(next)
              && (!overlong ==> line == next)
  {
    line, wireSize, overlong := [], 0, false;
    ghost var consumed: bytes := [];
    while true
      invariant old(reader.rest) == consumed + reader.rest && NoLF(consumed)
      invariant wireSize == |consumed| && overlong == (|consumed| > MAX_LINE)
      invariant !overlong ==> line == consumed
      decreases |reader.rest|
    {
      var fragment, status := reader.ReadSlice();
      wireSize := wireSize + |fragment|;
      if !overlong {
        if |line| + |fragment| > MAX_LINE {
          overlong := true;
        } else {
          line := line + fragment;
        }
      }
      assert old(reader.rest) == (consumed + fragment) + reader.rest;
      match status {
        case LineRead =>
          assert (consumed + fragment)[..|consumed + fragment| - 1] == consumed + fragment[..|fragment| - 1];
          NextLineOf(old(reader.rest), consumed + fragment, reader.rest);
          return line, wireSize, overlong, false;
        case BufferFull =>
          consumed := consumed + fragment;
        case Failed =>
          assert old(reader.rest) == consumed + fragment;
          return [], wireSize, overlong, true;
      }
    }
  }

  /** The block that results when the lines `seen` have been read before `b`. */
  function After(seen: seq<bytes>, b: Block): Block {
    match b
    case Ended(lines, rest) => Ended(seen + lines, rest)
    case other => other
  }

  lemma ScanStep(seen: seq<bytes>, input: bytes, line: bytes, rest: bytes)
    requires NextLine(input) == Some((line, rest))
    ensures After(seen, Scan(input)) ==
            if !Long(line) && Terminator(line) then Ended(seen, rest)
            else if !Long(line) && HasBareReturn(line) then Refused(rest)
            else After(seen + [line], Scan(rest))
  {
    assert seen + [] == seen;
    if Scan(rest).Ended? {
      assert seen + ([line] + Scan(rest).lines) == seen + [line] + Scan(rest).lines;
    }
  }

  lemma Push(seen: seq<bytes>, line: bytes)
    ensures Size(seen + [line]) == Size(seen) + Weight(line)
    ensures AnyLong(seen + [line]) <==> AnyLong(seen) || Long(line)
    ensures Joined(seen + [line]) == if Long(line) then Joined(seen) else Joined(seen) + Content(line) + [CR, LF]
  {
    var all := seen + [line];
    assert all[..|all| - 1] == seen;
    assert all[|seen|] == line;
    assert forall i :: 0 <= i < |seen| ==> all[i] == seen[i];
  }

  /** Reads a whole DATA block, draining it even when it is too large or has an overlong line. */
  method ReadDataBlockLimit(reader: ByteReader, limit: nat) returns (result: DataResult)
    modifies reader
    ensures (result, reader.rest) == Read(old(reader.rest), limit)
  {
    var buffer: bytes := [];
    var total: nat := 0;
    var tooLarge, lineTooLong := false, false;
    ghost var seen: seq<bytes> := [];
    while true
      invariant Scan(old(reader.rest)) == After(seen, Scan(reader.rest))
      invariant total == Size(seen) && tooLarge == (total > limit)
      invariant lineTooLong == AnyLong(seen)
      invariant !tooLarge ==> buffer == Joined(seen)
      decreases |reader.rest|
    {
      ghost var before := reader.rest;
      var line, wireSize, overlong, failed := ReadDataLine(reader);
      if failed {
        return ReadFailed;
      }
      ghost var next := NextLine(before).value.0;
      ScanStep(seen, before, next, reader.rest);
      Push(seen, next);
      if overlong {
        lineTooLong := true;
        total := total + wireSize;
        if total > limit {
          tooLarge := true;
        }
        seen := seen + [next];
        continue;
      }
      if line == [DOT, CR, LF] || line == [DOT, LF] {
        break;
      }
      var text := line;
      if |text| >= 2 && text[0] == DOT && text[1] == DOT {
        text := text[1..];
      }
      text := DropLast(text, LF);
      text := DropLast(text, CR);
      assert text == Content(next);
      if !NoCR(text) {
        return BareReturn;
      }
      total := total + |text| + 2;
      seen := seen + [next];
      if total > limit {
        tooLarge := true;
        continue;
      }
      buffer := buffer + text;
      buffer := buffer + [CR, LF];
    }
    if tooLarge {
      return TooLarge;
    }
    if lineTooLong {
      return LineTooLong;
    }
    return Body(buffer);
  }
}
