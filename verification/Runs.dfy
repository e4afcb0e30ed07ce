/**
 A trail over every run of its writers: any interleaving of chained batches, of writers that do not chain or
 could take no lock, and of repairs, each write cut off after any number of bytes. Started from any trail with
 no finding, the verifier never finds more than a last line that is incomplete and lines too long to read.
 */
module Runs {
  import opened Octets
  import opened Json
  import opened Torn
  import opened Chain
  import opened Records
  import opened Writer
  import opened Repair

  // ----- Lines with no finding of their own -----

  /** The line fails no check, but for its length. */
  predicate LineIsTidy(h: Hash, lines: seq<Bytes>, i: nat)
    requires i < |lines|
  {
    && LineFindings(h, lines, i) == (if Oversized(lines[i]) then [Finding(LineTooLong, i + 1)] else [])
    && MemberFindings(lines, i) == []
  }

  ghost predicate Tidy(h: Hash, lines: seq<Bytes>) {
    forall i | 0 <= i < |lines| :: Damaged(lines, i) || LineIsTidy(h, lines, i)
  }

  /** The line that would follow these is tidy. */
  predicate NextIsTidy(h: Hash, lines: seq<Bytes>, line: Bytes) { LineIsTidy(h, lines + [line], |lines|) }

  predicate NextExcuses(lines: seq<Bytes>, line: Bytes) { Excuses(lines + [line], |lines|) }

  lemma TidyPrefix(h: Hash, lines: seq<Bytes>, line: Bytes, i: nat)
    requires i < |lines|
    ensures LineIsTidy(h, lines + [line], i) == LineIsTidy(h, lines, i)
    ensures Damaged(lines, i) ==> Damaged(lines + [line], i)
  {
    hide LineFindings, MemberFindings, Excuses;
    LineFindingsPrefix(h, lines, [line], i);
    ExcusesPrefix(lines, [line], i);
    assert (lines + [line])[i] == lines[i];
  }

  lemma TidySnoc(h: Hash, lines: seq<Bytes>, line: Bytes)
    requires Tidy(h, lines) && NextIsTidy(h, lines, line)
    ensures Tidy(h, lines + [line])
  {
    hide LineIsTidy, Damaged;
    forall i | 0 <= i < |lines| {
      TidyPrefix(h, lines, line, i);
    }
  }

  /** What no reader takes for an object fails no check, and names no line before it. */
  lemma UnreadIsTidy(h: Hash, lines: seq<Bytes>, line: Bytes)
    requires ReadObject(line).None?
    ensures NextIsTidy(h, lines, line) && !NextExcuses(lines, line)
  {
    hide ReadObject, HeadBefore;
  }

  /** Nor is one with no link. */
  lemma UnchainedIsTidy(h: Hash, lines: seq<Bytes>, line: Bytes)
    requires !Chained(line) && !BindingMalformed(line)
    ensures NextIsTidy(h, lines, line) && !NextExcuses(lines, line)
  {
    hide LinkOf, HeadBefore, BindingMalformed, OfDiscontinuityKind, DamageNamedBy;
  }

  lemma UnchainedRecordIsTidy(h: Hash, lines: seq<Bytes>, body: Members)
    requires IsRecordBody(body)
    ensures NextIsTidy(h, lines, RecordLine(None, body)) && !NextExcuses(lines, RecordLine(None, body))
  {
    hide IsBody, RecordLine, NextIsTidy, NextExcuses, ReadObject;
    var line := RecordLine(None, body);
    if !Oversized(line) {
      RecordIsRead(None, body);
    }
    UnchainedIsTidy(h, lines, line);
  }

  // ----- What a chained line follows -----

  /** A record linked so, after these lines, follows what stands before it, or is past the last sequence. */
  predicate Follows(h: Hash, lines: seq<Bytes>, link: Link) {
    && IsLink(link) && link.sequence == |lines| + 1
    && (link.sequence < MAX_SAFE_INTEGER ==>
          match HeadBefore(h, lines, |lines|)
          case None => false
          case Some(head) => link.previous == head.previous && (head.trail == [] || head.trail == link.trail))
  }

  /** The head of a trail, as the verifier gives it to the next line. */
  lemma NextHead(h: Hash, lines: seq<Bytes>, line: Bytes)
    ensures HeadBefore(h, lines + [line], |lines|) == HeadBefore(h, lines, |lines|)
    ensures Chained(line) && !Oversized(line) ==>
              HeadBefore(h, lines + [line], |lines| + 1) == Some(Head(LinkOf(line).value.trail, DigestOf(h, line)))
  {
    hide LinkOf, LastTrail, Join, Oversized;
    HeadBeforePrefix(h, lines, [line], |lines|);
    assert (lines + [line])[|lines|] == line;
  }

  /** A chained record of a decision is held to its link alone. */
  lemma HeldToItsLink(h: Hash, lines: seq<Bytes>, line: Bytes)
    requires Chained(line) && !OfDiscontinuityKind(line)
    ensures !NextExcuses(lines, line)
    ensures LineFindings(h, lines + [line], |lines|) ==
            LinkFindings(LinkOf(line).value, HeadBefore(h, lines, |lines|), |lines| + 1)
  {
    hide ReadObject, HeadBefore, LinkFindings;
    HeadBeforePrefix(h, lines, [line], |lines|);
  }

  lemma FollowingIsTidy(h: Hash, lines: seq<Bytes>, link: Link, body: Members)
    requires Follows(h, lines, link) && IsRecordBody(body) && !Oversized(RecordLine(Some(link), body))
    ensures var line := RecordLine(Some(link), body);
            && NextIsTidy(h, lines, line) && !NextExcuses(lines, line)
            && Follows(h, lines + [line], Link(link.trail, link.sequence + 1, DigestOf(h, line)))
  {
    hide IsBody, RecordLine, LinkOf, BindingMalformed, OfDiscontinuityKind, DamageNamedBy, HeadBefore, DigestOf, Oversized,
         IsIdentity, IsDigest, LineFindings, NextExcuses;
    var line := RecordLine(Some(link), body);
    RecordIsRead(Some(link), body);
    NextHead(h, lines, line);
    assert (lines + [line])[|lines|] == line;
    if Chained(line) {
      HeldToItsLink(h, lines, line);
      assert LinkFindings(link, HeadBefore(h, lines, |lines|), |lines| + 1) == [];
      assert NextIsTidy(h, lines, line);
    } else {
      UnchainedIsTidy(h, lines, line);
    }
  }

  // ----- The cheap head is the full scan's -----

  lemma SoundLineSequence(h: Hash, lines: seq<Bytes>, i: nat)
    requires i < |lines| && LineIsTidy(h, lines, i) && Chained(lines[i])
    ensures LinkOf(lines[i]).value.sequence == i + 1
  {
    hide ReadObject, HeadBefore, OfDiscontinuityKind, DamageNamedBy, DigestOf, Excuses;
    var found := DiscontinuityFindings(h, lines, i);
    var linked := LinkFindings(LinkOf(lines[i]).value, Expected(h, lines, i), i + 1);
    assert |found + linked| == 0;
    assert LinkOf(lines[i]).value.sequence != i + 1 ==> |linked| > 0;
  }

  lemma ChainedIsRead(line: Bytes)
    requires Chained(line)
    ensures !Oversized(line) && IsIdentity(LinkOf(line).value.trail)
  {
    hide ReadObject;
  }

  /**
   On a trail whose lines are tidy, what the writer reads the next record to follow is what the verifier holds
   the next line to, whether it looked at the last line alone or read the whole trail; a fresh identity is
   taken only where no line has one.
   */
  lemma HeadAgrees(h: Hash, contents: Bytes, mint: Identity)
    requires Tidy(h, CompleteLines(contents)) && Tail(contents) == []
    ensures var lines := CompleteLines(contents);
            match HeadFor(h, contents, mint)
            case Refused(why) => why == OversizedTrailLine && AnyOversized(lines)
            case Ok(head) =>
              && head.sequence == |lines| && IsIdentity(head.trail)
              && HeadBefore(h, lines, |lines|) == Some(Head(LastTrail(lines), head.previous))
              && head.trail == (if LastTrail(lines) == [] then mint else LastTrail(lines))
  {
    hide LinkOf, SplitLines, Join, LineIsTidy, IsIdentity, LastTrail;
    var lines := CompleteLines(contents);
    JoinOfSplit(contents);
    assert Join(lines) + [] == Join(lines);
    assert lines[..|lines|] == lines;
    if contents == [] {
      NoLines();
    } else {
      EndsInALine(contents);
      var last := |lines| - 1;
      LastTrailOf(lines);
      if Oversized(lines[last]) {
        assert AnyOversized(lines);
      } else if Chained(lines[last]) {
        SoundLineSequence(h, lines, last);
        ChainedIsRead(lines[last]);
      }
    }
  }

  lemma NoLines()
    ensures SplitLines([]) == Split([], []) && Join([]) == [] && LastTrail([]) == []
  {
  }

  lemma {:induction false} LastTrailOf(lines: seq<Bytes>)
    ensures LastTrail(lines) == [] || IsIdentity(LastTrail(lines))
    ensures LastTrail(lines) == [] <==> forall i | 0 <= i < |lines| :: !Chained(lines[i])
    ensures lines != [] && Chained(lines[|lines| - 1]) ==> LastTrail(lines) == LinkOf(lines[|lines| - 1]).value.trail
  {
    hide LinkOf, IsIdentity;
    if lines != [] {
      var last := |lines| - 1;
      LastTrailOf(lines[..last]);
      if Chained(lines[last]) {
        ChainedIsRead(lines[last]);
        IdentityIsSomething(LinkOf(lines[last]).value.trail);
      }
    }
  }

  lemma IdentityIsSomething(text: Bytes)
    requires IsIdentity(text)
    ensures text != []
  {
  }

  /** A record the writer links so follows what the verifier holds it to. */
  lemma HeadFollows(h: Hash, contents: Bytes, mint: Identity)
    requires Tidy(h, CompleteLines(contents)) && Tail(contents) == []
    requires HeadFor(h, contents, mint).Ok?
    ensures var head := HeadFor(h, contents, mint).value;
            Follows(h, CompleteLines(contents), Link(head.trail, head.sequence + 1, head.previous))
  {
    hide HeadFor, HeadBefore, Tidy, CompleteLines, Tail, LastTrail, IsIdentity, IsDigest;
    HeadAgrees(h, contents, mint);
  }

  // ----- A state every run keeps -----

  /** What stands after the last newline would be a tidy line, and never becomes a record once more is written. */
  ghost predicate TailIsTidy(h: Hash, lines: seq<Bytes>, tail: Bytes) {
    tail != [] ==> Broken(tail) && '\n' !in tail && NextIsTidy(h, lines, tail)
  }

  /** These lines are the trail's first, and no line after them names the last of them damaged. */
  ghost predicate Shielded(base: seq<Bytes>, lines: seq<Bytes>, tail: Bytes) {
    && base <= lines
    && (|lines| > |base| ==> !Excuses(lines, |base|))
    && (|lines| == |base| && tail != [] ==> !NextExcuses(lines, tail))
  }

  /** What every run keeps of a trail that began with these lines. */
  ghost predicate Good(h: Hash, base: seq<Bytes>, file: Bytes) {
    var lines, tail := CompleteLines(file), Tail(file);
    Tidy(h, lines) && TailIsTidy(h, lines, tail) && Shielded(base, lines, tail)
  }

  /** What is written next, up to but without its newline, is tidy where nothing is on its line yet. */
  ghost predicate FitsNext(h: Hash, base: seq<Bytes>, file: Bytes, line: Bytes) {
    var lines := CompleteLines(file);
    Tail(file) == [] ==> NextIsTidy(h, lines, line) && (|lines| == |base| ==> !NextExcuses(lines, line))
  }

  lemma SplitWithMore(file: Bytes, piece: Bytes)
    requires '\n' !in piece
    ensures SplitLines(file + piece) == Split(CompleteLines(file), Tail(file) + piece)
    ensures SplitLines(file + (piece + ['\n'])) == Split(CompleteLines(file) + [Tail(file) + piece], [])
  {
    hide SplitLines;
    JoinOfSplit(file);
    SplitAppend(file, piece);
    SplitOfJoin([], Tail(file) + piece);
    assert Join([]) + (Tail(file) + piece) == Tail(file) + piece;
    SplitSnoc(file + piece, '\n');
    Regroup(file, piece, ['\n']);
    assert CompleteLines(file) + [] == CompleteLines(file);
  }

  /** One more line keeps the shield, unless it excuses the last line shielded. */
  lemma ShieldSnoc(base: seq<Bytes>, lines: seq<Bytes>, line: Bytes)
    requires Shielded(base, lines, []) && (|lines| == |base| ==> !NextExcuses(lines, line))
    ensures Shielded(base, lines + [line], [])
  {
    hide Excuses;
    if |lines| > |base| {
      ExcusesPrefix(lines, [line], |base|);
    }
  }

  /** A line is ended with its newline. */
  lemma EndLine(h: Hash, base: seq<Bytes>, file: Bytes, piece: Bytes)
    requires Good(h, base, file) && '\n' !in piece
    requires NextIsTidy(h, CompleteLines(file), Tail(file) + piece)
    requires |CompleteLines(file)| == |base| ==> !NextExcuses(CompleteLines(file), Tail(file) + piece)
    ensures Good(h, base, file + (piece + ['\n']))
    ensures SplitLines(file + (piece + ['\n'])) == Split(CompleteLines(file) + [Tail(file) + piece], [])
  {
    hide SplitLines, NextIsTidy, Tidy, NextExcuses, Excuses;
    SplitWithMore(file, piece);
    TidySnoc(h, CompleteLines(file), Tail(file) + piece);
    ShieldSnoc(base, CompleteLines(file), Tail(file) + piece);
  }

  /** Part of a record is written, without its newline. */
  lemma PartOfRecord(h: Hash, base: seq<Bytes>, file: Bytes, link: Option<Link>, body: Members, cut: nat)
    requires Good(h, base, file) && IsRecord(link, body) && 0 < cut <= |RecordLine(link, body)|
    requires FitsNext(h, base, file, RecordLine(link, body))
    ensures Good(h, base, file + RecordLine(link, body)[..cut])
    ensures var line := Tail(file) + RecordLine(link, body)[..cut];
            && NextIsTidy(h, CompleteLines(file), line)
            && (|CompleteLines(file)| == |base| ==> !NextExcuses(CompleteLines(file), line))
  {
    hide SplitLines, NextIsTidy, Tidy, NextExcuses, Excuses, IsRecord, RecordLine, Broken, ReadObject;
    var lines, tail, record := CompleteLines(file), Tail(file), RecordLine(link, body);
    var piece := record[..cut];
    RecordReads(link, body);
    RecordCutIsBroken(link, body, cut);
    SplitWithMore(file, piece);
    if tail == [] {
      assert tail + piece == piece;
      if cut < |record| {
        UnreadIsTidy(h, lines, piece);
      } else {
        assert piece == record;
      }
    } else {
      BrokenGoesOn(tail, piece);
      UnreadIsTidy(h, lines, tail + piece);
    }
  }

  /** A record is written with its newline, or any part of that. */
  lemma RecordWritten(h: Hash, base: seq<Bytes>, file: Bytes, link: Option<Link>, body: Members, cut: nat)
    requires Good(h, base, file) && IsRecord(link, body) && cut <= |RecordLine(link, body)| + 1
    requires FitsNext(h, base, file, RecordLine(link, body))
    ensures Good(h, base, file + (RecordLine(link, body) + ['\n'])[..cut])
    ensures cut == |RecordLine(link, body)| + 1 ==>
              SplitLines(file + (RecordLine(link, body) + ['\n'])[..cut]) ==
              Split(CompleteLines(file) + [Tail(file) + RecordLine(link, body)], [])
  {
    hide SplitLines, NextIsTidy, Good, NextExcuses, IsRecord, RecordLine, FitsNext;
    var record := RecordLine(link, body);
    RecordReads(link, body);
    RecordOpens(link, body);
    if cut == 0 {
      assert file + (record + ['\n'])[..cut] == file;
    } else if cut <= |record| {
      assert (record + ['\n'])[..cut] == record[..cut];
      PartOfRecord(h, base, file, link, body, cut);
    } else {
      assert (record + ['\n'])[..cut] == record + ['\n'];
      PartOfRecord(h, base, file, link, body, |record|);
      assert record[..|record|] == record;
      EndLine(h, base, file, record);
    }
  }

  // ----- Writes of several lines, cut off anywhere -----

  /** What is left of a write that was cut off. */
  function CutOff(data: Bytes, cut: nat): Bytes { if cut < |data| then data[..cut] else data }

  /** The cut is in the lines before the last one, or in the last one. */
  lemma CutLast(front: seq<Bytes>, last: Bytes, cut: nat)
    ensures var data := Join(front + [last]);
            && |data| == |Join(front)| + |last| + 1
            && (cut <= |Join(front)| ==> CutOff(data, cut) == CutOff(Join(front), cut))
            && (cut > |Join(front)| ==> CutOff(data, cut) == Join(front) + CutOff(last + ['\n'], cut - |Join(front)|))
  {
    hide Join;
    JoinSnoc(front, last);
    Regroup(Join(front), last, ['\n']);
  }

  /** A plain batch, whatever the trail ends in. */
  lemma {:induction false} UnchainedWritten(h: Hash, base: seq<Bytes>, file: Bytes, bodies: seq<Members>, cut: nat)
    requires Good(h, base, file) && forall body | body in bodies :: IsRecordBody(body)
    ensures Good(h, base, file + CutOff(Join(UnchainedLines(bodies)), cut))
  {
    hide SplitLines, Good, Join, IsRecordBody, IsBody, RecordLine, NextIsTidy, NextExcuses;
    var whole := Join(UnchainedLines(bodies));
    if bodies == [] {
      EmptyJoin();
      assert file + CutOff(whole, cut) == file;
    } else {
      var front, last := bodies[..|bodies| - 1], bodies[|bodies| - 1];
      var before := Join(UnchainedLines(front));
      CutLast(UnchainedLines(front), RecordLine(None, last), cut);
      UnchainedWritten(h, base, file, front, if cut < |before| then cut else |before|);
      if cut > |before| {
        assert CutOff(before, |before|) == before;
        UnchainedFits(h, base, file + before, last);
        var rest := cut - |before|;
        RecordWritten(h, base, file + before, None, last, CutLength(RecordLine(None, last), rest));
        Regroup(file, before, CutOff(RecordLine(None, last) + ['\n'], rest));
      }
    }
  }

  /** How much of a line and its newline is written. */
  function CutLength(line: Bytes, cut: nat): (length: nat)
    ensures length <= |line| + 1
    ensures (line + ['\n'])[..length] == CutOff(line + ['\n'], cut)
    ensures length == |line| + 1 <==> cut > |line|
  {
    if cut <= |line| then cut else |line| + 1
  }

  lemma UnchainedFits(h: Hash, base: seq<Bytes>, file: Bytes, body: Members)
    requires IsRecordBody(body)
    ensures IsRecord(None, body) && FitsNext(h, base, file, RecordLine(None, body))
  {
    hide IsBody, NextIsTidy, NextExcuses, RecordLine;
    UnchainedRecordIsTidy(h, CompleteLines(file), body);
  }

  lemma NextIsLink(h: Hash, head: WriterHead, front: seq<Bytes>)
    requires IsIdentity(head.trail)
    ensures IsLink(NextLink(h, head, front))
  {
    hide IsIdentity, DigestOf;
    var previous: Digest := if front == [] then head.previous else DigestOf(h, front[|front| - 1]);
    assert IsDigest(previous);
  }

  lemma {:induction false} BatchAreLines(h: Hash, head: WriterHead, bodies: seq<Members>)
    requires IsIdentity(head.trail) && forall body | body in bodies :: IsRecordBody(body)
    ensures AreLines(BatchLines(h, head, bodies))
  {
    hide IsBody, RecordLine, IsIdentity, IsLink, NextLink;
    if bodies != [] {
      var front, last := bodies[..|bodies| - 1], bodies[|bodies| - 1];
      assert IsRecordBody(last);
      BatchAreLines(h, head, front);
      NextIsLink(h, head, BatchLines(h, head, front));
      RecordReads(Some(NextLink(h, head, BatchLines(h, head, front))), last);
    }
  }

  /** A batch that links on from a head, line by line. */
  lemma {:induction false} ChainedWritten(h: Hash, base: seq<Bytes>, file: Bytes, head: WriterHead,
                                          bodies: seq<Members>, cut: nat)
    requires Good(h, base, file) && Tail(file) == [] && forall body | body in bodies :: IsRecordBody(body)
    requires Follows(h, CompleteLines(file), NextLink(h, head, []))
    requires !AnyOversized(BatchLines(h, head, bodies))
    ensures Good(h, base, file + CutOff(Join(BatchLines(h, head, bodies)), cut))
    ensures var lines := BatchLines(h, head, bodies);
            && SplitLines(file + Join(lines)) == Split(CompleteLines(file) + lines, [])
            && Follows(h, CompleteLines(file) + lines, NextLink(h, head, lines))
  {
    hide SplitLines, Good, Join, IsRecordBody, IsBody, RecordLine, Follows, AnyOversized, NextLink;
    var lines := BatchLines(h, head, bodies);
    var before := CompleteLines(file);
    if bodies == [] {
      EmptyJoin();
      assert file + CutOff(Join(lines), cut) == file && file + Join(lines) == file && before + lines == before;
      SplitIs(file);
    } else {
      var front, last := bodies[..|bodies| - 1], bodies[|bodies| - 1];
      var first := BatchLines(h, head, front);
      var link := NextLink(h, head, first);
      var record := RecordLine(Some(link), last);
      FrontWithinBound(first, record);
      var written := Join(first);
      CutLast(first, record, cut);
      ChainedWritten(h, base, file, head, front, |written|);
      ChainedWritten(h, base, file, head, front, cut);
      NextWritten(h, base, file, head, first, last, if cut > |written| then cut - |written| else 0);
      if cut > |written| {
        Regroup(file, written, CutOff(record + ['\n'], cut - |written|));
      }
    }
  }

  lemma SplitIs(file: Bytes)
    ensures SplitLines(file) == Split(CompleteLines(file), Tail(file))
  {
  }

  lemma FrontWithinBound(front: seq<Bytes>, last: Bytes)
    requires !AnyOversized(front + [last])
    ensures !AnyOversized(front) && !Oversized(last)
  {
    OneMoreLine(front + [last], |front|);
    assert (front + [last])[..|front|] == front;
    assert (front + [last])[..|front| + 1] == front + [last];
  }

  /** The next record of a batch, after the first of its lines were written whole. */
  lemma NextWritten(h: Hash, base: seq<Bytes>, file: Bytes, head: WriterHead, first: seq<Bytes>, body: Members, cut: nat)
    requires Good(h, base, file + CutOff(Join(first), |Join(first)|)) && IsRecordBody(body)
    requires SplitLines(file + Join(first)) == Split(CompleteLines(file) + first, [])
    requires Follows(h, CompleteLines(file) + first, NextLink(h, head, first))
    requires !Oversized(RecordLine(Some(NextLink(h, head, first)), body))
    ensures var record := RecordLine(Some(NextLink(h, head, first)), body);
            && Good(h, base, file + Join(first) + CutOff(record + ['\n'], cut))
            && SplitLines(file + Join(first + [record])) == Split(CompleteLines(file) + (first + [record]), [])
            && Follows(h, CompleteLines(file) + (first + [record]), NextLink(h, head, first + [record]))
  {
    hide SplitLines, Good, Join, IsBody, RecordLine, NextExcuses, NextIsTidy;
    var link := NextLink(h, head, first);
    var record, now := RecordLine(Some(link), body), file + Join(first);
    assert CutOff(Join(first), |Join(first)|) == Join(first);
    FollowingIsTidy(h, CompleteLines(file) + first, link, body);
    RecordWritten(h, base, now, Some(link), body, CutLength(record, cut));
    RecordWritten(h, base, now, Some(link), body, |record| + 1);
    assert (record + ['\n'])[..|record| + 1] == record + ['\n'];
    JoinSnoc(first, record);
    Regroup(Join(first), record, ['\n']);
    Regroup(file, Join(first), record + ['\n']);
    assert [] + record == record;
    assert CompleteLines(file) + (first + [record]) == CompleteLines(file) + first + [record];
  }

  // ----- A repair -----

  lemma DiscontinuityIsTidy(h: Hash, lines: seq<Bytes>, tail: Bytes, head: WriterHead,
                            run: Bytes, at: Bytes, tool: Members)
    requires Follows(h, lines, NextLink(h, head, [])) && head.sequence == |lines|
    requires !Oversized(tail) && !OfDiscontinuityKind(tail)
    requires AllPlain(run) && AllPlain(at) && IsTool(tool)
    requires !Oversized(DiscontinuityLine(head, DamageAfter(h, head, tail), run, at, tool))
    ensures var line := DiscontinuityLine(head, DamageAfter(h, head, tail), run, at, tool);
            && NextIsTidy(h, lines + [tail], line)
            && (Chained(line) ==> NextExcuses(lines + [tail], line))
  {
    hide IsBody, RecordLine, IsIdentity, IsDigest, DiscontinuityBody, LinkOf, OfDiscontinuityKind, DamageNamedBy,
         BindingMalformed, HeadBefore, DigestOf, DamageIn;
    var damage := DamageAfter(h, head, tail);
    var link := Link(head.trail, damage.line + 1, head.previous);
    var line := DiscontinuityLine(head, damage, run, at, tool);
    DiscontinuityReads(run, at, tool, damage);
    RecordIsRead(Some(link), DiscontinuityBody(run, at, tool, damage));
    if Chained(line) {
      var all := lines + [tail] + [line];
      assert all == lines + [tail, line];
      HeadBeforePrefix(h, lines, [tail, line], |lines|);
      assert all[|lines|] == tail && all[|lines| + 1] == line;
      assert NextExcuses(lines + [tail], line);
      assert DiscontinuityFindings(h, all, |lines| + 1) == [];
      assert LinkFindings(link, Expected(h, all, |lines| + 1), |lines| + 2) == [];
    } else {
      UnchainedIsTidy(h, lines + [tail], line);
    }
  }

  lemma RepairWritten(h: Hash, base: seq<Bytes>, file: Bytes, expected: Option<DamagedTail>, locked: bool,
                      mint: Identity, run: Bytes, at: Bytes, tool: Members, cut: nat)
    requires Good(h, base, file) && AllPlain(run) && AllPlain(at) && IsTool(tool)
    requires RepairOf(h, locked, file, expected, mint, run, at, tool).Ok?
    ensures Good(h, base, file + CutOff(RepairOf(h, locked, file, expected, mint, run, at, tool).value.data, cut))
  {
    hide SplitLines, Join, HeadFor, Oversized, OfDiscontinuityKind, DiscontinuityBody, RecordLine, NextIsTidy, NextExcuses,
         Tidy, Broken, Follows, Excuses, IsDigest, IsIdentity, ValidMembers;
    var lines, tail := CompleteLines(file), Tail(file);
    var kept := Join(lines);
    KeptLines(file);
    var head := HeadFor(h, kept, mint).value;
    HeadAgrees(h, kept, mint);
    HeadFollows(h, kept, mint);
    FollowedIsLink(h, lines, NextLink(h, head, []));
    var damage := DamageAfter(h, head, tail);
    var line := DiscontinuityLine(head, damage, run, at, tool);
    DiscontinuityIsTidy(h, lines, tail, head, run, at, tool);
    DiscontinuityReads(run, at, tool, damage);
    var data := ['\n'] + (line + ['\n']);
    if cut == 0 {
      assert file + CutOff(data, cut) == file;
    } else {
      assert tail + [] == tail && [] + ['\n'] == ['\n'];
      EndLine(h, base, file, []);
      var ended := file + ['\n'];
      var link := Link(head.trail, damage.line + 1, head.previous);
      RecordWritten(h, base, ended, Some(link), DiscontinuityBody(run, at, tool, damage), CutLength(line, cut - 1));
      assert CutOff(data, cut) == ['\n'] + CutOff(line + ['\n'], cut - 1);
      Regroup(file, ['\n'], CutOff(line + ['\n'], cut - 1));
    }
  }

  lemma KeptLines(file: Bytes)
    ensures SplitLines(Join(CompleteLines(file))) == Split(CompleteLines(file), [])
  {
    hide SplitLines, Join;
    JoinOfSplit(file);
    SplitOfJoin(CompleteLines(file), []);
    assert Join(CompleteLines(file)) + [] == Join(CompleteLines(file));
  }

  lemma FollowedIsLink(h: Hash, lines: seq<Bytes>, link: Link)
    requires Follows(h, lines, link)
    ensures IsLink(link)
  {
  }

  // ----- Runs -----

  /** One use of the trail, with how much of its write is made. */
  datatype Action =
    | ChainedAppend(bodies: seq<Members>, locked: bool, mint: Identity, cut: nat)
    | PlainAppend(bodies: seq<Members>, cut: nat)
    | RepairEnd(expected: Option<DamagedTail>, locked: bool, mint: Identity,
                run: Bytes, at: Bytes, tool: Members, cut: nat)

  predicate IsAction(action: Action) {
    match action
    case ChainedAppend(bodies, _, _, _) => forall body | body in bodies :: IsRecordBody(body)
    case PlainAppend(bodies, _) => forall body | body in bodies :: IsRecordBody(body)
    case RepairEnd(_, _, _, run, at, tool, _) => AllPlain(run) && AllPlain(at) && IsTool(tool)
  }

  /** A use of the trail that takes the lock: a chained batch, or a repair. */
  predicate UnderLock(action: Action) {
    match action
    case ChainedAppend(_, locked, _, _) => locked
    case PlainAppend(_, _) => false
    case RepairEnd(_, _, _, _, _, _, _) => true
  }

  /** What an action appends, before any of its write is lost. */
  ghost function Written(h: Hash, file: Bytes, action: Action): Bytes {
    match action
    case ChainedAppend(bodies, locked, mint, _) =>
      if bodies == [] then []
      else
        (match AppendOf(h, bodies, locked, file, mint)
         case Refused(_) => []
         case Ok(data) => data)
    case PlainAppend(bodies, _) => Join(UnchainedLines(bodies))
    case RepairEnd(expected, locked, mint, run, at, tool, _) =>
      match RepairOf(h, locked, file, expected, mint, run, at, tool)
      case Refused(_) => []
      case Ok(repaired) => repaired.data
  }

  ghost function Exec(h: Hash, file: Bytes, action: Action): Bytes { file + CutOff(Written(h, file, action), action.cut) }

  ghost function Run(h: Hash, file: Bytes, actions: seq<Action>): Bytes {
    if actions == [] then file else Exec(h, Run(h, file, actions[..|actions| - 1]), actions[|actions| - 1])
  }

  ghost predicate AreActions(actions: seq<Action>) { forall action | action in actions :: IsAction(action) }

  lemma ExecKeeps(h: Hash, base: seq<Bytes>, file: Bytes, action: Action)
    requires Good(h, base, file) && IsAction(action)
    ensures Good(h, base, Exec(h, file, action))
  {
    hide Good, Join, HeadFor, IsRecordBody, ValidMembers, RepairOf, UnchainedLines, BatchLines, AnyOversized, Follows;
    assert file + CutOff([], action.cut) == file;
    match action
    case ChainedAppend(bodies, locked, mint, cut) =>
      if !locked {
        UnchainedWritten(h, base, file, bodies, cut);
      } else if HeadFor(h, file, mint).Ok? && bodies != [] {
        HeadNeedsAnEnd(h, file, mint);
        TidyOf(h, base, file);
        HeadFollows(h, file, mint);
        var head := HeadFor(h, file, mint).value;
        if !AnyOversized(BatchLines(h, head, bodies)) {
          ChainedWritten(h, base, file, head, bodies, cut);
        }
      }
    case PlainAppend(bodies, cut) =>
      UnchainedWritten(h, base, file, bodies, cut);
    case RepairEnd(expected, locked, mint, run, at, tool, cut) =>
      if RepairOf(h, locked, file, expected, mint, run, at, tool).Ok? {
        RepairWritten(h, base, file, expected, locked, mint, run, at, tool, cut);
      }
  }

  lemma TidyOf(h: Hash, base: seq<Bytes>, file: Bytes)
    requires Good(h, base, file)
    ensures Tidy(h, CompleteLines(file))
  {
  }

  /** A writer chains nothing after a last line that is incomplete. */
  lemma HeadNeedsAnEnd(h: Hash, file: Bytes, mint: Identity)
    requires HeadFor(h, file, mint).Ok?
    ensures Tail(file) == []
  {
    hide SplitLines, PrefixOf, LinkOf;
    NoLines();
  }

  lemma {:induction false} RunKeeps(h: Hash, base: seq<Bytes>, file: Bytes, actions: seq<Action>)
    requires Good(h, base, file) && AreActions(actions)
    ensures Good(h, base, Run(h, file, actions))
  {
    hide Good, Exec, IsAction;
    if actions != [] {
      RunKeeps(h, base, file, actions[..|actions| - 1]);
      ExecKeeps(h, base, Run(h, file, actions[..|actions| - 1]), actions[|actions| - 1]);
    }
  }
}
