/**
 The writer and the verifier agree over every run: what is reported of a trail after any run of its writers, and
 what a checkpoint given for it once is still worth.
 */
module Agreement {
  import opened Octets
  import opened Json
  import opened Chain
  import opened Coverage
  import opened Checkpoints
  import opened Report
  import opened Records
  import opened Writer
  import opened Repair
  import opened Runs
  import opened Bounds

  // ----- What a clean trail is -----

  lemma {:induction false} NothingReported(h: Hash, lines: seq<Bytes>, k: nat)
    requires k <= |lines| && Reported(h, lines, k) == []
    ensures forall i | 0 <= i < k :: ReportedOf(h, lines, i) == []
  {
    hide ReportedOf;
    if k > 0 {
      assert |Reported(h, lines, k - 1)| + |ReportedOf(h, lines, k - 1)| == 0;
      NothingReported(h, lines, k - 1);
    }
  }

  lemma NothingReportedOf(h: Hash, lines: seq<Bytes>, i: nat)
    requires i < |lines| && ReportedOf(h, lines, i) == []
    ensures Damaged(lines, i) || (LineIsTidy(h, lines, i) && LineFindings(h, lines, i) == [])
  {
    hide Damaged, MemberFindings, LinkOf, DiscontinuityFindings, LinkFindings, Expected;
    if !Damaged(lines, i) {
      assert |LineFindings(h, lines, i)| + |MemberFindings(lines, i)| == 0;
    }
  }

  lemma CleanIsSound(h: Hash, file: Bytes)
    requires AllFindings(h, file) == []
    ensures Tail(file) == [] && Tidy(h, CompleteLines(file))
    ensures SoundThrough(h, CompleteLines(file), |CompleteLines(file)|)
  {
    hide CompleteLines, Tail, Reported, ReportedOf, LineIsTidy, LineFindings, Damaged;
    var lines := CompleteLines(file);
    NothingReported(h, lines, |lines|);
    forall i | 0 <= i < |lines| {
      NothingReportedOf(h, lines, i);
    }
  }

  lemma CleanIsGood(h: Hash, file: Bytes)
    requires AllFindings(h, file) == []
    ensures Good(h, CompleteLines(file), file)
  {
    hide CompleteLines, Tail, AllFindings, Tidy, Excuses, NextExcuses;
    CleanIsSound(h, file);
  }

  // ----- What is found after a run -----

  /** The lines too long to read, each reported once. */
  function LongLines(lines: seq<Bytes>, k: nat): seq<Finding>
    requires k <= |lines|
  {
    if k == 0 then []
    else LongLines(lines, k - 1) + if Oversized(lines[k - 1]) then [Finding(LineTooLong, k)] else []
  }

  lemma {:induction false} NoLongLines(lines: seq<Bytes>, k: nat)
    requires k <= |lines|
    ensures LongLines(lines, k) == [] <==> !AnyOversized(lines[..k])
  {
    if k == 0 {
      NoneOversized(lines);
    } else {
      NoLongLines(lines, k - 1);
      OneMoreLine(lines, k - 1);
    }
  }

  /** A line too long to read is never taken for damaged. */
  lemma LongIsNotDamaged(lines: seq<Bytes>, i: nat)
    requires i < |lines| && Oversized(lines[i])
    ensures !Damaged(lines, i)
  {
    hide DamageNamedBy, OfDiscontinuityKind, Chained;
  }

  lemma TidyLineReports(h: Hash, lines: seq<Bytes>, i: nat)
    requires i < |lines| && Tidy(h, lines)
    ensures ReportedOf(h, lines, i) == if Oversized(lines[i]) then [Finding(LineTooLong, i + 1)] else []
  {
    hide LineFindings, MemberFindings, Damaged;
    assert Damaged(lines, i) || LineIsTidy(h, lines, i);
    if Oversized(lines[i]) {
      LongIsNotDamaged(lines, i);
    }
  }

  lemma {:induction false} TidyReports(h: Hash, lines: seq<Bytes>, k: nat)
    requires k <= |lines| && Tidy(h, lines)
    ensures Reported(h, lines, k) == LongLines(lines, k)
  {
    hide ReportedOf, Tidy, Oversized;
    if k > 0 {
      TidyReports(h, lines, k - 1);
      TidyLineReports(h, lines, k - 1);
    }
  }

  /**
   After any run from a trail with no finding, what is found is each line too long to read, and the last line when
   it is incomplete, and nothing else.
   */
  lemma RunsAgree(h: Hash, file: Bytes, actions: seq<Action>)
    requires AllFindings(h, file) == [] && AreActions(actions)
    ensures var now := Run(h, file, actions);
            var lines := CompleteLines(now);
            AllFindings(h, now) == WithTail(LongLines(lines, |lines|), Tail(now), |lines| + 1)
  {
    hide CompleteLines, Tail, Reported, Tidy, Run, AreActions;
    CleanIsGood(h, file);
    RunKeeps(h, CompleteLines(file), file, actions);
    var now := Run(h, file, actions);
    TidyReports(h, CompleteLines(now), |CompleteLines(now)|);
  }

  /** Nothing is found but the last line, when it is incomplete. */
  predicate Clean(h: Hash, file: Bytes) {
    AllFindings(h, file) == WithTail([], Tail(file), |CompleteLines(file)| + 1)
  }

  lemma CleanHasNoLongLine(h: Hash, file: Bytes, actions: seq<Action>)
    requires AllFindings(h, file) == [] && AreActions(actions)
    ensures Clean(h, Run(h, file, actions)) <==> !AnyOversized(CompleteLines(Run(h, file, actions)))
  {
    hide CompleteLines, Tail, AllFindings, LongLines, Run, AreActions, AnyOversized;
    RunsAgree(h, file, actions);
    var lines := CompleteLines(Run(h, file, actions));
    NoLongLines(lines, |lines|);
    assert lines[..|lines|] == lines;
  }

  lemma StartsWithinBound(h: Hash, file: Bytes)
    requires AllFindings(h, file) == []
    ensures !AnyOversized(CompleteLines(file))
  {
    hide CompleteLines, Tail, AllFindings, AnyOversized;
    CleanHasNoLongLine(h, file, []);
    CleanIsSound(h, file);
  }

  /**
   Over every run from a trail with no finding, the verifier finds nothing but the last line incomplete exactly when
   every action, on the trail as it stood when it was called, completed no line past the bound.
   */
  lemma RunsAreClean(h: Hash, file: Bytes, actions: seq<Action>)
    requires AllFindings(h, file) == [] && AreActions(actions)
    ensures Clean(h, Run(h, file, actions)) <==> AllKeepToBound(h, file, actions)
  {
    hide Good, AllFindings, CompleteLines, Clean, AnyOversized, AllKeepToBound, Run, AreActions;
    CleanIsGood(h, file);
    StartsWithinBound(h, file);
    CleanHasNoLongLine(h, file, actions);
    RunKeepsToBound(h, CompleteLines(file), file, actions);
  }

  /** Writers that chain under the lock, and repairs, each cut off anywhere, always leave the trail clean. */
  lemma LockedRunsAreClean(h: Hash, file: Bytes, actions: seq<Action>)
    requires AllFindings(h, file) == [] && AreActions(actions)
    requires forall action | action in actions :: UnderLock(action)
    ensures Clean(h, Run(h, file, actions))
  {
    hide AllFindings, Clean, Run, AreActions;
    RunsAreClean(h, file, actions);
    forall i | 0 <= i < |actions|
      ensures KeepsToBound(Run(h, file, actions[..i]), actions[i])
    {
      assert actions[i] in actions;
    }
  }

  // ----- Runs that leave a line too long -----

  /** A record of a decision with one long member. */
  function LongBody(n: nat): Members { Member(['x'], Text(seq(n, _ => 'a')), End) }

  lemma LongBodyIs(n: nat)
    ensures IsRecordBody(LongBody(n)) && |RecordLine(None, LongBody(n))| == n + 28
  {
    NoMembers();
    MarksAreNoChainNames();
    assert TRAIL[0] == 't' && RECORD_VERSION[0] == 'r' && SEQUENCE[0] == 's' && PREVIOUS[0] == 'p';
    assert BINDING[0] == 'b';
    assert KIND[0] == 'k';
    OneMore(['x'], Text(seq(n, _ => 'a')), End);
    var body := LongBody(n);
    var members := RecordMembers(None, body);
    assert EncodeClosing(body) == ['}'] && |Encode(body.value)| == n + 2;
    assert |EncodeNamed(body)| == n + 4;
    assert |EncodeMembers(body)| == n + 7;
    assert EncodeClosing(members) == [','] + EncodeMembers(body) && |Encode(members.value)| == 3;
    assert |EncodeNamed(members)| == n + 12;
    assert |RECORD_VERSION| == 13 && |EncodeMembers(members)| == n + 27;
  }

  lemma OneRecord(body: Members)
    requires IsRecordBody(body)
    ensures var line := RecordLine(None, body);
            && UnchainedLines([body]) == [line] && AreLines([line]) && Join([line]) == line + ['\n']
            && '\n' !in line && CompleteLines(Join([line])) == [line] && Tail(Join([line])) == []
  {
    hide RecordLine, Join, SplitLines, IsBody;
    RecordReads(None, body);
    assert [body][..0] == [];
    EmptyJoin();
    JoinSnoc([], RecordLine(None, body));
    SplitOfJoin([RecordLine(None, body)], []);
    assert Join([RecordLine(None, body)]) + [] == Join([RecordLine(None, body)]);
  }

  lemma NothingFound(h: Hash)
    ensures AllFindings(h, []) == [] && CompleteLines([]) == [] && Tail([]) == []
  {
  }

  /** A writer that does not chain measures nothing: one record past the bound is a line the verifier cannot read. */
  lemma PlainAppendTooLong(h: Hash, cut: nat)
    requires cut >= MAX_LINE + 29
    ensures var a := PlainAppend([LongBody(MAX_LINE)], cut);
            && AreActions([a]) && !KeepsToBound([], a)
            && AllFindings(h, Run(h, [], [a])) == [Finding(LineTooLong, 1)]
  {
    hide AllFindings, RecordLine, LongBody, IsRecordBody, Join, SplitLines, UnchainedLines, CompleteLines, Tail;
    LongBodyIs(MAX_LINE);
    OneRecord(LongBody(MAX_LINE));
    NothingFound(h);
    var a, line := PlainAppend([LongBody(MAX_LINE)], cut), RecordLine(None, LongBody(MAX_LINE));
    assert !LineFits(0, [line], 0) && [line][..1] == [line];
    RunOfOne(h, [], a);
    assert [] + Join([line]) == Join([line]);
    RunsAgree(h, [], [a]);
    OneLongLine(line);
  }

  lemma OneLongLine(line: Bytes)
    requires Oversized(line)
    ensures LongLines([line], 1) == [Finding(LineTooLong, 1)]
  {
    assert LongLines([line], 0) == [];
  }

  lemma RunOfOne(h: Hash, file: Bytes, action: Action)
    ensures Run(h, file, [action]) == Exec(h, file, action)
  {
    assert [action][..0] == [];
  }

  /**
   A batch written without the lock is measured without the torn bytes it is written after: two records within the
   bound, the first of which lost its newline, are one line past it.
   */
  lemma UnlockedAppendTooLong(h: Hash, mint: Identity)
    ensures var n := MAX_LINE / 2;
            var torn := ChainedAppend([LongBody(n)], false, mint, n + 28);
            var next := ChainedAppend([LongBody(n)], false, mint, n + 29);
            && AreActions([torn, next]) && !Oversized(RecordLine(None, LongBody(n)))
            && KeepsToBound([], torn) && !KeepsToBound(Run(h, [], [torn]), next)
            && AllFindings(h, Run(h, [], [torn, next])) == [Finding(LineTooLong, 1)]
  {
    hide AllFindings, RecordLine, LongBody, IsRecordBody, Join, SplitLines, UnchainedLines, AnyOversized, Exec, KeepsToBound;
    var n := MAX_LINE / 2;
    var body := LongBody(n);
    var line := RecordLine(None, body);
    LongBodyIs(n);
    OneRecord(body);
    NothingFound(h);
    var torn, next := ChainedAppend([body], false, mint, n + 28), ChainedAppend([body], false, mint, n + 29);
    UnlockedWrites(h, [], body, mint, n + 28);
    UnlockedWrites(h, line, body, mint, n + 29);
    RunOfOne(h, [], torn);
    SplitWithMore([], line);
    assert [] + line == line;
    assert [torn, next][..1] == [torn];
    SplitWithMore(line, line);
    assert [] + [line + line] == [line + line];
    RunsAgree(h, [], [torn, next]);
    OneLongLine(line + line);
  }

  /** One measured record, written without the lock: what it adds, and when it keeps to the bound. */
  lemma UnlockedWrites(h: Hash, file: Bytes, body: Members, mint: Identity, cut: nat)
    requires IsRecordBody(body) && !Oversized(RecordLine(None, body))
    ensures var action, line := ChainedAppend([body], false, mint, cut), RecordLine(None, body);
            && Exec(h, file, action) == file + (if cut <= |line| then line[..cut] else line + ['\n'])
            && (KeepsToBound(file, action) <==> cut <= |line| || |Tail(file)| + |line| <= MAX_LINE)
            && (cut == |line| ==> line[..cut] == line)
  {
    hide RecordLine, IsRecordBody, Join, SplitLines, UnchainedLines, Tail;
    var line := RecordLine(None, body);
    OneRecord(body);
    assert [line][..1] == [line];
    assert !AnyOversized([line]);
    assert LinesFit(|Tail(file)|, [line], cut) <==> (|line| + 1 <= cut ==> LineFits(|Tail(file)|, [line], 0));
    if cut <= |line| {
      assert CutOff(line + ['\n'], cut) == line[..cut];
    }
  }

  // ----- What a checkpoint is still worth -----

  /** A line that is complete in a clean trail is never named damaged later. */
  lemma NeverNamedLater(h: Hash, file: Bytes, actions: seq<Action>, i: nat)
    requires AllFindings(h, file) == [] && AreActions(actions) && i < |CompleteLines(file)|
    ensures var lines, now := CompleteLines(file), CompleteLines(Run(h, file, actions));
            lines <= now && Damaged(now, i) == Damaged(lines, i)
  {
    hide AllFindings, CompleteLines, Tail, Run, AreActions, Excuses, Tidy, TailIsTidy;
    CleanIsGood(h, file);
    RunKeeps(h, CompleteLines(file), file, actions);
    var lines, now := CompleteLines(file), CompleteLines(Run(h, file, actions));
    assert now == lines + now[|lines|..];
    if i + 1 < |lines| {
      ExcusesPrefix(lines, now[|lines|..], i);
    }
  }

  /**
   Whichever chained record of a trail without findings a checkpoint was given for, after any run it matches the new
   trail, the chain is sound through it, and held alone it is the reach.
   */
  lemma CheckpointStable(h: Hash, file: Bytes, actions: seq<Action>, i: nat)
    requires AllFindings(h, file) == [] && AreActions(actions)
    requires i < |CompleteLines(file)| && ClassOf(CompleteLines(file), i).ChainedLine?
    ensures var now, given := Run(h, file, actions), CheckpointOf(h, CompleteLines(file), i);
            && Matches(h, CompleteLines(now), given) && SoundThrough(h, CompleteLines(now), given.sequence)
            && ReachOf(h, now, Options([given], None, [], 0, None)) == given.sequence
  {
    hide AllFindings, CompleteLines, Tail, Run, AreActions, Damaged, Tidy, LineFindings, LinkOf, HoldCheckpoint, ReachOf,
         DigestOf;
    var lines, now := CompleteLines(file), CompleteLines(Run(h, file, actions));
    var given := CheckpointOf(h, lines, i);
    CleanIsSound(h, file);
    NeverNamedLater(h, file, actions, i);
    assert now[i] == lines[i];
    MatchesOwnLine(h, now, given);
    forall j | 0 <= j <= i
      ensures Damaged(now, j) || LineFindings(h, now, j) == []
    {
      NeverNamedLater(h, file, actions, j);
      assert now == lines + now[|lines|..];
      LineFindingsPrefix(h, lines, now[|lines|..], j);
    }
    var options := Options([given], None, [], 0, None);
    assert Attests(h, now, options, given);
    ReachIsHighest(h, Run(h, file, actions), options);
    assert given in options.held + options.Credited();
  }

  // ----- What the writer reads, and what a repair leaves -----

  /**
   On every trail the verifier accepts, the writer's short read of the end and the verifier's pass over the
   whole agree on what the next record follows.
   */
  lemma HeadOfAccepted(h: Hash, contents: Bytes, mint: Identity)
    requires AllFindings(h, contents) == []
    ensures var lines := CompleteLines(contents);
            match HeadBefore(h, lines, |lines|)
            case None => false
            case Some(head) =>
              && head.trail == LastTrail(lines)
              && HeadFor(h, contents, mint) ==
                 Ok(WriterHead(if head.trail == [] then mint else head.trail, |lines|, head.previous))
  {
    hide CompleteLines, Tail, HeadFor, HeadBefore, AllFindings, Tidy, IsIdentity;
    CleanIsSound(h, contents);
    StartsWithinBound(h, contents);
    HeadAgrees(h, contents, mint);
  }

  /** A repair written whole ends the damage, which its record then names, and leaves nothing after its own line. */
  lemma RepairEnds(h: Hash, base: seq<Bytes>, file: Bytes, expected: Option<DamagedTail>, mint: Identity,
                   run: Bytes, at: Bytes, tool: Members)
    requires Good(h, base, file) && AllPlain(run) && AllPlain(at) && IsTool(tool)
    requires RepairOf(h, true, file, expected, mint, run, at, tool).Ok?
    ensures var lines := CompleteLines(file);
            var now := file + RepairOf(h, true, file, expected, mint, run, at, tool).value.data;
            && Tail(now) == [] && |CompleteLines(now)| == |lines| + 2
            && lines + [Tail(file)] <= CompleteLines(now)
            && (|lines| + 2 < MAX_SAFE_INTEGER ==> Damaged(CompleteLines(now), |lines|))
  {
    hide SplitLines, Join, HeadFor, Oversized, OfDiscontinuityKind, DiscontinuityBody, RecordLine, NextIsTidy,
         Tidy, TailIsTidy, Follows, Excuses, IsDigest, IsIdentity, ValidMembers, Shielded, HeadBefore, LastTrail, IsBody,
         DamageIn, LinkOf, DigestOf, BindingMalformed, AnyOversized;
    var lines, tail := CompleteLines(file), Tail(file);
    KeptLines(file);
    var head := HeadFor(h, Join(lines), mint).value;
    HeadAgrees(h, Join(lines), mint);
    HeadFollows(h, Join(lines), mint);
    FollowedIsLink(h, lines, NextLink(h, head, []));
    var damage := DamageAfter(h, head, tail);
    var line := DiscontinuityLine(head, damage, run, at, tool);
    var link := Link(head.trail, damage.line + 1, head.previous);
    DiscontinuityIsTidy(h, lines, tail, head, run, at, tool);
    DiscontinuityReads(run, at, tool, damage);
    RecordReads(Some(link), DiscontinuityBody(run, at, tool, damage));
    RecordIsRead(Some(link), DiscontinuityBody(run, at, tool, damage));
    SplitWithMore(file, []);
    assert [] + ['\n'] == ['\n'] && tail + [] == tail;
    SplitWithMore(file + ['\n'], line);
    assert [] + line == line;
    Regroup(file, ['\n'], line + ['\n']);
  }
}
