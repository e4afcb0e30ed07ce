/**
 The writer's decisions, each a function of the contents it finds: what the last line is, what a new record links
 to, and the bytes of a batch, or why there are none.
 */
module Writer {
  import opened Octets
  import opened Json
  import opened Chain
  import opened Reading
  import opened Records

  /** A damaged end of a trail: how many bytes follow its last newline, and their digest. */
  datatype DamagedTail = DamagedTail(bytes: nat, digest: Bytes)

  datatype Refusal =
    | IncompleteLine | OversizedTrailLine | RecordTooLarge
    | RepairUnchained | NothingToRepair | RepairNeedsLock | RepairDiscontinuity
    | TailChanged(expected: DamagedTail, found: DamagedTail)

  datatype Result<+T> = Ok(value: T) | Refused(why: Refusal)

  /** A head a record can link to: whose trail, how many lines, and the digest to name. */
  datatype WriterHead = WriterHead(trail: Bytes, sequence: nat, previous: Digest)

  ghost predicate AnyOversized(lines: seq<Bytes>) { exists i :: 0 <= i < |lines| && Oversized(lines[i]) }

  // ----- The end of a trail -----

  /** The last line of a trail that is not empty. */
  function LastLineOf(contents: Bytes): Result<Bytes>
    requires contents != []
  {
    if Tail(contents) != [] then Refused(IncompleteLine)
    else
      EndsInALine(contents);
      var lines := CompleteLines(contents);
      if Oversized(lines[|lines| - 1]) then Refused(OversizedTrailLine) else Ok(lines[|lines| - 1])
  }

  lemma EndsInALine(contents: Bytes)
    requires contents != [] && Tail(contents) == []
    ensures CompleteLines(contents) != []
  {
  }

  /** Looks for the last line's start a chunk at a time, stopping once it is past the bound. */
  method LastLine(contents: Bytes, chunk: nat) returns (r: Result<Bytes>)
    requires contents != [] && chunk > 0
    ensures r == LastLineOf(contents)
  {
    hide LastLineOf, NoNewline;
    var end := |contents| - 1;
    if contents[end] != '\n' {
      LastByteDecides(contents);
      return Refused(IncompleteLine);
    }
    var start, found, cursor := 0, false, end;
    NothingBetween(contents, end);
    while cursor > 0 && !found
      invariant 0 <= cursor <= end && NoNewline(contents, cursor, end)
      invariant found ==> cursor > 0 && contents[cursor - 1] == '\n' && start == cursor
      invariant !found ==> start == 0
      decreases cursor, !found
    {
      if end - cursor > MAX_LINE {
        LongLastLine(contents, cursor);
        return Refused(OversizedTrailLine);
      }
      var n := if chunk < cursor then chunk else cursor;
      var after;
      after, found := AfterNewline(contents, cursor - n, cursor);
      NothingAcross(contents, after, cursor, end);
      cursor := after;
      if found {
        start := after;
      }
    }
    LastLineStarts(contents, start);
    if end - start > MAX_LINE {
      return Refused(OversizedTrailLine);
    }
    return Ok(contents[start..end]);
  }

  lemma NothingBetween(contents: Bytes, end: nat)
    requires end <= |contents|
    ensures NoNewline(contents, end, end)
  {
  }

  lemma NothingAcross(contents: Bytes, from: nat, through: nat, end: nat)
    requires from <= through <= end <= |contents|
    requires NoNewline(contents, from, through) && NoNewline(contents, through, end)
    ensures NoNewline(contents, from, end)
  {
  }

  lemma LastByteDecides(contents: Bytes)
    requires contents != [] && contents[|contents| - 1] != '\n'
    ensures LastLineOf(contents) == Refused(IncompleteLine)
  {
  }

  lemma LongLastLine(contents: Bytes, cursor: nat)
    requires cursor < |contents| && contents[|contents| - 1] == '\n' && NoNewline(contents, cursor, |contents| - 1)
    requires |contents| - 1 - cursor > MAX_LINE
    ensures LastLineOf(contents) == Refused(OversizedTrailLine)
  {
    hide SplitLines;
    LastLineFrom(contents, cursor);
  }

  lemma LastLineStarts(contents: Bytes, start: nat)
    requires start < |contents| && contents[|contents| - 1] == '\n' && NoNewline(contents, start, |contents| - 1)
    requires start > 0 ==> contents[start - 1] == '\n'
    ensures LastLineOf(contents) ==
            if |contents| - 1 - start > MAX_LINE then Refused(OversizedTrailLine)
            else Ok(contents[start..|contents| - 1])
  {
    hide SplitLines;
    LastLineFrom(contents, start);
    TailAfterNewline(contents[..start]);
    var line := contents[start..|contents| - 1];
    assert [] + line == line;
  }

  // ----- A trail read whole -----

  /** The digest of a whole trail, how many lines it has, and the identity of its last chained line. */
  datatype Prefix = Prefix(digest: Digest, lines: nat, trail: Bytes)

  ghost function PrefixOf(h: Hash, contents: Bytes): Result<Prefix> {
    var lines := CompleteLines(contents);
    if AnyOversized(lines) then Refused(OversizedTrailLine)
    else Ok(Prefix(DigestOf(h, contents), |lines|, LastTrail(lines)))
  }

  /** Reads a trail that ends in a newline, line by line, taking its digest as it goes. */
  method ReadPrefix(h: Hash, contents: Bytes) returns (r: Result<Prefix>)
    requires Tail(contents) == []
    ensures r == PrefixOf(h, contents)
  {
    hide CompleteLines, Tail, Join, LastTrail, LinkOf, AnyOversized;
    var offset, hashed: Bytes, line: Bytes, lines, trail := 0, [], [], 0, [];
    ghost var read: seq<Bytes> := [];
    NothingRead();
    while offset < |contents|
      invariant ReadSoFar(contents, offset, hashed, read, line) && lines == |read| && trail == LastTrail(read)
      invariant !AnyOversized(read)
      decreases |contents| - offset
    {
      var piece, full, next := ReadSlice(contents, offset);
      PieceRead(contents, offset, hashed, read, line, piece, next);
      hashed := hashed + piece;
      if |line| + |piece| > MAX_LINE + 1 {
        LongLineRead(contents, offset, hashed[..offset], read, line, piece, next);
        return Refused(OversizedTrailLine);
      }
      if piece[|piece| - 1] == '\n' {
        var whole := line + piece[..|piece| - 1];
        LineRead(read, whole);
        read := read + [whole];
        lines := lines + 1;
        var link := LinkOf(whole);
        if link.Some? {
          trail := link.value.trail;
        }
        line := [];
      } else {
        line := line + piece;
      }
      offset := next;
    }
    AllRead(contents, hashed, read, line);
    return Ok(Prefix(DigestOf(h, hashed), lines, trail));
  }

  /** Up to the offset, the contents are these complete lines and the beginning of the next. */
  ghost predicate ReadSoFar(contents: Bytes, offset: nat, hashed: Bytes, read: seq<Bytes>, line: Bytes) {
    && offset <= |contents| && hashed == contents[..offset] && hashed == Join(read) + line
    && AreLines(read) && '\n' !in line
  }

  lemma NothingRead()
    ensures forall contents :: ReadSoFar(contents, 0, [], [], [])
    ensures LastTrail([]) == [] && !AnyOversized([])
  {
  }

  lemma PieceRead(contents: Bytes, offset: nat, hashed: Bytes, read: seq<Bytes>, line: Bytes, piece: Bytes, next: nat)
    requires ReadSoFar(contents, offset, hashed, read, line) && offset < next <= |contents|
    requires piece == contents[offset..next] && forall i | 0 <= i < |piece| - 1 :: piece[i] != '\n'
    ensures var body := piece[..|piece| - 1];
            if piece[|piece| - 1] == '\n'
            then ReadSoFar(contents, next, hashed + piece, read + [line + body], [])
            else ReadSoFar(contents, next, hashed + piece, read, line + piece)
  {
    hide Join;
    assert contents[..next] == contents[..offset] + piece;
    var body := piece[..|piece| - 1];
    assert piece == body + [piece[|piece| - 1]];
    if piece[|piece| - 1] == '\n' {
      JoinSnoc(read, line + body);
      assert hashed + piece == Join(read) + (line + body) + ['\n'] + [];
    } else {
      Regroup(Join(read), line, piece);
    }
  }

  lemma LineRead(read: seq<Bytes>, line: Bytes)
    requires !AnyOversized(read) && !Oversized(line)
    ensures !AnyOversized(read + [line])
    ensures LastTrail(read + [line]) == if LinkOf(line).Some? then LinkOf(line).value.trail else LastTrail(read)
  {
    hide LinkOf;
    assert (read + [line])[..|read|] == read;
  }

  /** A line that is already too long when part of it is read is too long. */
  lemma LongLineRead(contents: Bytes, offset: nat, hashed: Bytes, read: seq<Bytes>, line: Bytes, piece: Bytes, next: nat)
    requires ReadSoFar(contents, offset, hashed, read, line) && offset < next <= |contents|
    requires piece == contents[offset..next] && forall i | 0 <= i < |piece| - 1 :: piece[i] != '\n'
    requires |line| + |piece| > MAX_LINE + 1 && Tail(contents) == []
    ensures AnyOversized(CompleteLines(contents))
  {
    hide Join, SplitLines;
    PieceRead(contents, offset, hashed, read, line, piece, next);
    var ended := piece[|piece| - 1] == '\n';
    var lines, begun := if ended then read + [line + piece[..|piece| - 1]] else read, if ended then [] else line + piece;
    assert contents == contents[..next] + contents[next..];
    assert contents[..next] == Join(lines) + begun;
    SplitOfJoin(lines, begun);
    SplitAppend(contents[..next], contents[next..]);
    var all := CompleteLines(contents);
    if ended {
      assert Oversized(all[|read|]);
    } else {
      var rest := SplitLines(begun + contents[next..]);
      BeginsLong(begun, contents[next..]);
      assert all[|read|] == rest.lines[0];
      assert Oversized(all[|read|]);
    }
  }

  lemma {:induction false} BeginsLong(begun: Bytes, more: Bytes)
    requires '\n' !in begun
    ensures var rest := SplitLines(begun + more);
            if rest.lines == [] then |rest.tail| >= |begun| else |rest.lines[0]| >= |begun|
  {
    if more == [] {
      SplitOfJoin([], begun);
      assert begun + more == begun && Join([]) + begun == begun;
    } else {
      var front, last := more[..|more| - 1], more[|more| - 1];
      BeginsLong(begun, front);
      assert begun + more == begun + front + [last];
      SplitSnoc(begun + front, last);
    }
  }

  lemma AllRead(contents: Bytes, hashed: Bytes, read: seq<Bytes>, line: Bytes)
    requires ReadSoFar(contents, |contents|, hashed, read, line)
    ensures hashed == contents && CompleteLines(contents) == read && Tail(contents) == line
  {
    hide Join, SplitLines;
    SplitOfJoin(read, line);
  }

  // ----- What the next record follows -----

  /** The head of these contents as a function of their lines; mint is used where no line is chained. */
  ghost function HeadFor(h: Hash, contents: Bytes, mint: Identity): Result<WriterHead> {
    if contents == [] then Ok(WriterHead(mint, 0, DigestOf(h, [])))
    else
      match LastLineOf(contents)
      case Refused(why) => Refused(why)
      case Ok(line) =>
        match LinkOf(line)
        case Some(link) => Ok(WriterHead(link.trail, link.sequence, DigestOf(h, line)))
        case None =>
          match PrefixOf(h, contents)
          case Refused(why) => Refused(why)
          case Ok(prefix) =>
            Ok(WriterHead(if prefix.trail == [] then mint else prefix.trail, prefix.lines, prefix.digest))
  }

  method ReadHead(h: Hash, contents: Bytes, mint: Identity) returns (r: Result<WriterHead>)
    ensures r == HeadFor(h, contents, mint)
  {
    hide LinkOf, PrefixOf;
    if contents == [] {
      return Ok(WriterHead(mint, 0, DigestOf(h, [])));
    }
    var last := LastLine(contents, READ_CHUNK);
    if last.Refused? {
      return Refused(last.why);
    }
    var link := LinkOf(last.value);
    if link.Some? {
      return Ok(WriterHead(link.value.trail, link.value.sequence, DigestOf(h, last.value)));
    }
    var prefix := ReadPrefix(h, contents);
    if prefix.Refused? {
      return Refused(prefix.why);
    }
    var trail := prefix.value.trail;
    if trail == [] {
      trail := mint;
    }
    return Ok(WriterHead(trail, prefix.value.lines, prefix.value.digest));
  }

  // ----- Appending -----

  function UnchainedLines(bodies: seq<Members>): (lines: seq<Bytes>)
    ensures |lines| == |bodies|
  {
    if bodies == [] then []
    else UnchainedLines(bodies[..|bodies| - 1]) + [RecordLine(None, bodies[|bodies| - 1])]
  }

  /** The link of the record that follows these lines of its batch. */
  function NextLink(h: Hash, head: WriterHead, front: seq<Bytes>): Link {
    Link(head.trail, head.sequence + |front| + 1,
         if front == [] then head.previous else DigestOf(h, front[|front| - 1]))
  }

  /** A batch of records chained after a head, in the order they were given. */
  function BatchLines(h: Hash, head: WriterHead, bodies: seq<Members>): (lines: seq<Bytes>)
    ensures |lines| == |bodies|
  {
    if bodies == [] then []
    else
      var front := BatchLines(h, head, bodies[..|bodies| - 1]);
      front + [RecordLine(Some(NextLink(h, head, front)), bodies[|bodies| - 1])]
  }

  /** What an append adds to a trail of these contents. */
  ghost function AppendOf(h: Hash, bodies: seq<Members>, locked: bool, contents: Bytes, mint: Identity): Result<Bytes> {
    if !locked then WithinBound(UnchainedLines(bodies))
    else
      match HeadFor(h, contents, mint)
      case Refused(why) => Refused(why)
      case Ok(head) => WithinBound(BatchLines(h, head, bodies))
  }

  ghost function WithinBound(lines: seq<Bytes>): Result<Bytes> {
    if AnyOversized(lines) then Refused(RecordTooLarge) else Ok(Join(lines))
  }

  /** Encodes records as lines, each ending its line. */
  method EncodeLines(bodies: seq<Members>) returns (data: Bytes)
    ensures data == Join(UnchainedLines(bodies))
  {
    hide RecordLine;
    data := [];
    assert bodies[..0] == [];
    var i := 0;
    while i < |bodies|
      invariant 0 <= i <= |bodies| && data == Join(UnchainedLines(bodies[..i]))
    {
      assert bodies[..i + 1][..i] == bodies[..i];
      JoinSnoc(UnchainedLines(bodies[..i]), RecordLine(None, bodies[i]));
      data := data + RecordLine(None, bodies[i]) + ['\n'];
      i := i + 1;
    }
    assert bodies[..i] == bodies;
  }

  /**
   A batch of a chaining writer: linked records when it has the lock, plain ones when it does not. In both cases a
   record that is too long by itself refuses the batch.
   */
  method ChainedLines(h: Hash, bodies: seq<Members>, locked: bool, contents: Bytes, mint: Identity)
    returns (r: Result<Bytes>)
    requires forall body | body in bodies :: IsBody(body)
    ensures r == AppendOf(h, bodies, locked, contents, mint)
  {
    hide RecordLine, HeadFor, Join, CompleteLines, IsBody, AnyOversized, UnchainedLines;
    if !locked {
      var data := EncodeLines(bodies);
      UnchainedSplit(bodies);
      var split, i := CompleteLines(data), 0;
      NoneOversized(split);
      while i < |split|
        invariant 0 <= i <= |split| && !AnyOversized(split[..i])
      {
        OneMoreLine(split, i);
        if Oversized(split[i]) {
          return Refused(RecordTooLarge);
        }
        i := i + 1;
      }
      assert split[..i] == split;
      return Ok(data);
    }
    var head := ReadHead(h, contents, mint);
    if head.Refused? {
      return Refused(head.why);
    }
    r := EncodeBatch(h, head.value, bodies);
  }

  method EncodeBatch(h: Hash, head: WriterHead, bodies: seq<Members>) returns (r: Result<Bytes>)
    ensures r == WithinBound(BatchLines(h, head, bodies))
  {
    hide RecordLine, Join, AnyOversized, DigestOf, BatchLines;
    var data: Bytes, previous := [], head.previous;
    NothingEncoded(h, head, bodies);
    var i := 0;
    while i < |bodies|
      invariant 0 <= i <= |bodies|
      invariant var lines := BatchLines(h, head, bodies[..i]);
                && data == Join(lines) && !AnyOversized(lines)
                && previous == if i == 0 then head.previous else DigestOf(h, lines[i - 1])
    {
      var line := RecordLine(Some(Link(head.trail, head.sequence + i + 1, previous)), bodies[i]);
      OneEncoded(h, head, bodies, i, line);
      if Oversized(line) {
        return Refused(RecordTooLarge);
      }
      previous := DigestOf(h, line);
      data := data + line + ['\n'];
      i := i + 1;
    }
    assert bodies[..i] == bodies;
    return Ok(data);
  }

  lemma NothingEncoded(h: Hash, head: WriterHead, bodies: seq<Members>)
    ensures BatchLines(h, head, bodies[..0]) == [] && Join([]) == [] && !AnyOversized([])
  {
  }

  /** What one more record of a batch adds to what is encoded. */
  lemma OneEncoded(h: Hash, head: WriterHead, bodies: seq<Members>, i: nat, line: Bytes)
    requires i < |bodies|
    requires line == RecordLine(Some(NextLink(h, head, BatchLines(h, head, bodies[..i]))), bodies[i])
    ensures var lines, more := BatchLines(h, head, bodies[..i]), BatchLines(h, head, bodies[..i + 1]);
            && more[i] == line && Join(more) == Join(lines) + line + ['\n']
            && (AnyOversized(more) <==> AnyOversized(lines) || Oversized(line))
            && (Oversized(line) ==> AnyOversized(BatchLines(h, head, bodies)))
  {
    hide RecordLine, Join, AnyOversized, NextLink;
    var lines := BatchLines(h, head, bodies[..i]);
    assert bodies[..i + 1][..i] == bodies[..i];
    JoinSnoc(lines, line);
    OneMoreLine(lines + [line], i);
    assert (lines + [line])[..i] == lines && (lines + [line])[..i + 1] == lines + [line];
    if Oversized(line) {
      BatchGrows(h, head, bodies, i + 1);
    }
  }

  lemma NoneOversized(lines: seq<Bytes>)
    ensures !AnyOversized(lines[..0]) && !AnyOversized([])
  {
  }

  lemma OneMoreLine(lines: seq<Bytes>, i: nat)
    requires i < |lines|
    ensures AnyOversized(lines[..i + 1]) <==> AnyOversized(lines[..i]) || Oversized(lines[i])
    ensures AnyOversized(lines[..i + 1]) ==> AnyOversized(lines)
  {
    if AnyOversized(lines[..i]) {
      var k :| 0 <= k < i && Oversized(lines[..i][k]);
      assert Oversized(lines[..i + 1][k]);
    }
    if Oversized(lines[i]) {
      assert Oversized(lines[..i + 1][i]);
    }
    if AnyOversized(lines[..i + 1]) {
      var k :| 0 <= k <= i && Oversized(lines[..i + 1][k]);
      assert Oversized(lines[k]);
      if k < i {
        assert Oversized(lines[..i][k]);
      }
    }
  }

  /** What is over the bound in the first records of a batch is over it in the batch. */
  lemma {:induction false} BatchGrows(h: Hash, head: WriterHead, bodies: seq<Members>, n: nat)
    requires n <= |bodies| && AnyOversized(BatchLines(h, head, bodies[..n]))
    ensures AnyOversized(BatchLines(h, head, bodies))
    decreases |bodies| - n
  {
    hide RecordLine;
    if n == |bodies| {
      assert bodies[..n] == bodies;
    } else {
      assert bodies[..n + 1][..n] == bodies[..n];
      var front := BatchLines(h, head, bodies[..n]);
      var k :| 0 <= k < |front| && Oversized(front[k]);
      assert Oversized(BatchLines(h, head, bodies[..n + 1])[k]);
      BatchGrows(h, head, bodies, n + 1);
    }
  }

  lemma {:induction false} UnchainedAreLines(bodies: seq<Members>)
    requires forall body | body in bodies :: IsBody(body)
    ensures AreLines(UnchainedLines(bodies))
  {
    hide IsBody, RecordLine;
    if bodies != [] {
      UnchainedAreLines(bodies[..|bodies| - 1]);
      RecordReads(None, bodies[|bodies| - 1]);
    }
  }

  lemma UnchainedSplit(bodies: seq<Members>)
    requires forall body | body in bodies :: IsBody(body)
    ensures CompleteLines(Join(UnchainedLines(bodies))) == UnchainedLines(bodies)
  {
    hide IsBody, SplitLines;
    UnchainedAreLines(bodies);
    SplitOfJoin(UnchainedLines(bodies), []);
    assert Join(UnchainedLines(bodies)) + [] == Join(UnchainedLines(bodies));
  }
}
