/**
 Repair of a damaged end. Two lines come of it: the torn bytes, given the newline they lack, and a record naming
 their number, length and digest, whose own link reaches over them.
 */
module Repair {
  import opened Octets
  import opened Json
  import opened Chain
  import opened Reading
  import opened Records
  import opened Writer

  /** What a repair appends, and the damage its record names. */
  datatype Repaired = Repaired(data: Bytes, damage: Damage)

  /** Where nothing is damaged, a repair bound to damaged bytes found that they are not there. */
  function NoDamage(h: Hash, expected: Option<DamagedTail>): Refusal {
    match expected
    case None => NothingToRepair
    case Some(tail) => TailChanged(tail, DamagedTail(0, DigestOf(h, [])))
  }

  /** The record a repair writes over damage, on a trail whose complete lines are followed by this head. */
  function DiscontinuityLine(head: WriterHead, damage: Damage, run: Bytes, at: Bytes, tool: Members): Bytes {
    RecordLine(Some(Link(head.trail, damage.line + 1, head.previous)), DiscontinuityBody(run, at, tool, damage))
  }

  function DamageAfter(h: Hash, head: WriterHead, tail: Bytes): Damage {
    Damage(head.sequence + 1, |tail|, DigestOf(h, tail))
  }

  /** What a repair of a trail of these contents appends. */
  ghost function RepairOf(h: Hash, locked: bool, contents: Bytes, expected: Option<DamagedTail>, mint: Identity,
                          run: Bytes, at: Bytes, tool: Members): Result<Repaired>
  {
    var tail := Tail(contents);
    var found := DamagedTail(|tail|, DigestOf(h, tail));
    if !locked then Refused(RepairNeedsLock)
    else if tail == [] then Refused(NoDamage(h, expected))
    else if Oversized(tail) then Refused(OversizedTrailLine)
    else if expected.Some? && expected.value != found then Refused(TailChanged(expected.value, found))
    else if OfDiscontinuityKind(tail) then Refused(RepairDiscontinuity)
    else
      match HeadFor(h, Join(CompleteLines(contents)), mint)
      case Refused(why) => Refused(why)
      case Ok(head) =>
        var damage := DamageAfter(h, head, tail);
        var line := DiscontinuityLine(head, damage, run, at, tool);
        if Oversized(line) then Refused(RecordTooLarge) else Ok(Repaired(['\n'] + (line + ['\n']), damage))
  }

  /** Where the torn bytes start, by backward chunks of any size; refused once more than the bound is torn. */
  method DamageStart(contents: Bytes, chunk: nat) returns (r: Result<nat>)
    requires contents != [] && contents[|contents| - 1] != '\n' && chunk > 0
    ensures r == if Oversized(Tail(contents)) then Refused(OversizedTrailLine) else Ok(|contents| - |Tail(contents)|)
  {
    hide Tail, NoNewline;
    var size := |contents|;
    var cursor, found := size, false;
    NothingBetween(contents, size);
    while cursor > 0
      invariant 0 <= cursor <= size && NoNewline(contents, cursor, size)
      invariant !found
    {
      if size - cursor > MAX_LINE {
        TailIsLong(contents, cursor);
        return Refused(OversizedTrailLine);
      }
      var n := if chunk < cursor then chunk else cursor;
      var start;
      start, found := AfterNewline(contents, cursor - n, cursor);
      NothingAcross(contents, start, cursor, size);
      if found {
        TailStarts(contents, start);
        if size - start > MAX_LINE {
          return Refused(OversizedTrailLine);
        }
        return Ok(start);
      }
      cursor := start;
    }
    TailStarts(contents, 0);
    if size > MAX_LINE {
      return Refused(OversizedTrailLine);
    }
    return Ok(0);
  }

  lemma TailIsLong(contents: Bytes, cursor: nat)
    requires cursor <= |contents| && NoNewline(contents, cursor, |contents|) && |contents| - cursor > MAX_LINE
    ensures Oversized(Tail(contents))
  {
    hide SplitLines;
    TailFrom(contents, cursor);
  }

  lemma TailStarts(contents: Bytes, start: nat)
    requires start <= |contents| && NoNewline(contents, start, |contents|)
    requires start > 0 ==> contents[start - 1] == '\n'
    ensures Tail(contents) == contents[start..]
  {
    hide SplitLines;
    TailFrom(contents, start);
    TailAfterNewline(contents[..start]);
    assert [] + contents[start..] == contents[start..];
  }

  /** What stands before the damage is the complete lines. */
  lemma BeforeTail(contents: Bytes)
    ensures |Tail(contents)| <= |contents|
    ensures contents[..|contents| - |Tail(contents)|] == Join(CompleteLines(contents))
    ensures contents[|contents| - |Tail(contents)|..] == Tail(contents)
  {
    hide Join, CompleteLines, Tail;
    JoinOfSplit(contents);
  }

  /** Everything a repair under the lock decides from the contents: its bytes, or which refusal it is. */
  method DiscontinuityAfter(h: Hash, contents: Bytes, expected: Option<DamagedTail>, mint: Identity,
                            run: Bytes, at: Bytes, tool: Members)
    returns (r: Result<Repaired>)
    ensures r == RepairOf(h, true, contents, expected, mint, run, at, tool)
  {
    hide HeadFor, CompleteLines, Tail, Join, Oversized, OfDiscontinuityKind, MembersOf, DiscontinuityLine;
    TailAfterNewline(contents);
    if contents == [] || contents[|contents| - 1] == '\n' {
      return Refused(NoDamage(h, expected));
    }
    var start := DamageStart(contents, READ_CHUNK);
    if start.Refused? {
      return Refused(start.why);
    }
    BeforeTail(contents);
    var damage := contents[start.value..];
    if expected.Some? {
      var found := DamagedTail(|damage|, DigestOf(h, damage));
      if found.bytes != expected.value.bytes || found.digest != expected.value.digest {
        return Refused(TailChanged(expected.value, found));
      }
    }
    KindOf(damage);
    var members := MembersOf(damage);
    if members.Some? && TextAt(members.value, KIND) == Some(DISCONTINUITY) {
      return Refused(RepairDiscontinuity);
    }
    var before := ReadHead(h, contents[..start.value], mint);
    if before.Refused? {
      return Refused(before.why);
    }
    var damaged := Damage(before.value.sequence + 1, |damage|, DigestOf(h, damage));
    var line := DiscontinuityLine(before.value, damaged, run, at, tool);
    if Oversized(line) {
      return Refused(RecordTooLarge);
    }
    return Ok(Repaired(['\n'] + (line + ['\n']), damaged));
  }

  lemma KindOf(line: Bytes)
    ensures OfDiscontinuityKind(line) <==>
            MembersOf(line).Some? && TextAt(MembersOf(line).value, KIND) == Some(DISCONTINUITY)
  {
    hide MembersOf;
  }

  /** A repair as its caller sees it, with the two refusals that come before the contents are looked at. */
  method RepairLines(h: Hash, chain: bool, locked: bool, contents: Bytes, expected: Option<DamagedTail>,
                     mint: Identity, run: Bytes, at: Bytes, tool: Members)
    returns (r: Result<Repaired>)
    ensures r == if !chain then Refused(RepairUnchained)
                 else RepairOf(h, locked, contents, expected, mint, run, at, tool)
  {
    hide HeadFor, CompleteLines, Tail;
    if !chain {
      return Refused(RepairUnchained);
    }
    if !locked {
      return Refused(RepairNeedsLock);
    }
    r := DiscontinuityAfter(h, contents, expected, mint, run, at, tool);
  }

  /** A repair confirmed on some damaged bytes ends those exactly when an unconfirmed one would, and never others. */
  lemma BoundRepair(h: Hash, locked: bool, contents: Bytes, expected: DamagedTail, mint: Identity,
                    run: Bytes, at: Bytes, tool: Members)
    ensures var bound := RepairOf(h, locked, contents, Some(expected), mint, run, at, tool);
            var free := RepairOf(h, locked, contents, None, mint, run, at, tool);
            && (bound.Ok? <==> free.Ok? && expected == DamagedTail(|Tail(contents)|, DigestOf(h, Tail(contents))))
            && (bound.Ok? ==> bound == free && contents != [] && contents[|contents| - 1] != '\n')
  {
    hide HeadFor, Join, CompleteLines, Tail, DigestOf, DiscontinuityLine;
    TailAfterNewline(contents);
  }
}
