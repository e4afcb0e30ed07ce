/**
 The bound on a line's length over runs: which writes complete a line past it, said of each write before it is made,
 and that a run leaves no such line exactly when none of its writes is one of those.
 */
module Bounds {
  import opened Octets
  import opened Json
  import opened Chain
  import opened Records
  import opened Writer
  import opened Repair
  import opened Runs

  /**
   Of these lines, written after so many bytes with no newline and cut off, none that is completed is past the
   bound. The first one is completed together with the bytes it is written after.
   */
  ghost predicate LinesFit(tail: nat, lines: seq<Bytes>, cut: nat) {
    forall j | 0 <= j < |lines| && |Join(lines[..j + 1])| <= cut :: LineFits(tail, lines, j)
  }

  predicate LineFits(tail: nat, lines: seq<Bytes>, j: nat)
    requires j < |lines|
  {
    (if j == 0 then tail else 0) + |lines[j]| <= MAX_LINE
  }

  /**
   An action, on a trail as it stands, completes no line past the bound. A chained batch and a repair never do: they
   measure each line whole. A batch written without the lock is measured record by record, without the bytes it is
   written after; a batch of a writer that does not chain is not measured.
   */
  ghost predicate KeepsToBound(file: Bytes, action: Action) {
    match action
    case ChainedAppend(bodies, locked, _, cut) =>
      locked || AnyOversized(UnchainedLines(bodies)) || LinesFit(|Tail(file)|, UnchainedLines(bodies), cut)
    case PlainAppend(bodies, cut) => LinesFit(|Tail(file)|, UnchainedLines(bodies), cut)
    case RepairEnd(_, _, _, _, _, _, _) => true
  }

  /** Every action of a run does, on the trail the actions before it left. */
  ghost predicate AllKeepToBound(h: Hash, file: Bytes, actions: seq<Action>) {
    forall i | 0 <= i < |actions| :: KeepsToBound(Run(h, file, actions[..i]), actions[i])
  }

  lemma OversizedSnoc(lines: seq<Bytes>, line: Bytes)
    ensures AnyOversized(lines + [line]) <==> AnyOversized(lines) || Oversized(line)
  {
    OneMoreLine(lines + [line], |lines|);
    assert (lines + [line])[..|lines|] == lines;
    assert (lines + [line])[..|lines| + 1] == lines + [line];
  }

  lemma FitSnoc(tail: nat, front: seq<Bytes>, last: Bytes, cut: nat)
    ensures LinesFit(tail, front + [last], cut) <==>
            && LinesFit(tail, front, cut)
            && (|Join(front)| + |last| + 1 <= cut ==> LineFits(tail, front + [last], |front|))
  {
    hide Join;
    var lines := front + [last];
    JoinSnoc(front, last);
    assert lines[..|front| + 1] == lines;
    forall j | 0 <= j < |front|
      ensures lines[..j + 1] == front[..j + 1] && LineFits(tail, lines, j) == LineFits(tail, front, j)
    {
    }
  }

  /** What a write of lines, cut off anywhere, does to the bound: exactly the lines it completes count. */
  lemma {:induction false} WriteKeepsToBound(file: Bytes, lines: seq<Bytes>, cut: nat)
    requires AreLines(lines)
    ensures AnyOversized(CompleteLines(file + CutOff(Join(lines), cut))) <==>
            AnyOversized(CompleteLines(file)) || !LinesFit(|Tail(file)|, lines, cut)
    ensures lines != [] ==> Tail(file + Join(lines)) == []
  {
    hide SplitLines, Join, AnyOversized, LinesFit;
    if lines == [] {
      NothingFits(|Tail(file)|, cut);
      assert file + CutOff(Join(lines), cut) == file;
    } else {
      var front, last := lines[..|lines| - 1], lines[|lines| - 1];
      assert lines == front + [last];
      CutLast(front, last, cut);
      FitSnoc(|Tail(file)|, front, last, cut);
      WriteKeepsToBound(file, front, cut);
      JoinSnoc(front, last);
      Regroup(Join(front), last, ['\n']);
      Regroup(file, Join(front), last + ['\n']);
      NothingAfter(file, front);
      var rest := if cut > |Join(front)| then cut - |Join(front)| else 0;
      LastWritten(file + Join(front), last, rest);
      Regroup(file, Join(front), CutOff(last + ['\n'], rest));
    }
  }

  lemma NothingFits(tail: nat, cut: nat)
    ensures LinesFit(tail, [], cut) && Join([]) == []
  {
  }

  lemma NothingAfter(file: Bytes, front: seq<Bytes>)
    ensures front == [] ==> file + Join(front) == file
  {
    EmptyJoin();
  }

  /** The last line of a write: it is completed together with what stands before it, or not at all. */
  lemma LastWritten(file: Bytes, line: Bytes, cut: nat)
    requires '\n' !in line
    ensures AnyOversized(CompleteLines(file + CutOff(line + ['\n'], cut))) <==>
            || AnyOversized(CompleteLines(file))
            || (cut > |line| && |Tail(file)| + |line| > MAX_LINE)
    ensures Tail(file + (line + ['\n'])) == []
  {
    hide SplitLines, AnyOversized;
    SplitWithMore(file, line);
    if cut <= |line| {
      SplitWithMore(file, line[..cut]);
      assert CutOff(line + ['\n'], cut) == line[..cut];
    } else {
      OversizedSnoc(CompleteLines(file), Tail(file) + line);
    }
  }

  /** Written whole, all the lines count: the first with what stands before it, the others by themselves. */
  lemma WholeFit(tail: nat, lines: seq<Bytes>)
    ensures LinesFit(tail, lines, |Join(lines)|) <==>
            lines == [] || (tail + |lines[0]| <= MAX_LINE && !AnyOversized(lines[1..]))
  {
    hide Join;
    if lines != [] {
      var rest := lines[1..];
      if LinesFit(tail, lines, |Join(lines)|) {
        forall j | 0 <= j < |lines|
          ensures LineFits(tail, lines, j)
        {
          FrontIsShorter(lines, j + 1);
        }
        assert LineFits(tail, lines, 0);
        forall i | 0 <= i < |rest|
          ensures !Oversized(rest[i])
        {
          assert LineFits(tail, lines, i + 1);
        }
      }
      if tail + |lines[0]| <= MAX_LINE && !AnyOversized(rest) {
        forall j | 0 <= j < |lines|
          ensures LineFits(tail, lines, j)
        {
          assert j > 0 ==> !Oversized(rest[j - 1]);
        }
      }
    }
  }

  lemma FrontIsShorter(lines: seq<Bytes>, k: nat)
    requires k <= |lines|
    ensures |Join(lines[..k])| <= |Join(lines)|
  {
    hide Join;
    JoinConcat(lines[..k], lines[k..]);
    assert lines == lines[..k] + lines[k..];
  }

  lemma MeasuredFit(lines: seq<Bytes>, cut: nat)
    requires !AnyOversized(lines)
    ensures LinesFit(0, lines, cut)
  {
    forall j | 0 <= j < |lines|
      ensures LineFits(0, lines, j)
    {
      assert !Oversized(lines[j]);
    }
  }

  /** A repair's write is two lines: the rest of the damaged one, and its own. */
  lemma RepairFits(file: Bytes, line: Bytes, cut: nat)
    requires !Oversized(Tail(file)) && !Oversized(line)
    ensures ['\n'] + (line + ['\n']) == Join([[], line]) && LinesFit(|Tail(file)|, [[], line], cut)
  {
    hide Tail;
    var ended: seq<Bytes> := [[]];
    EmptyJoin();
    JoinSnoc(ended[..0], []);
    JoinSnoc(ended, line);
    assert ended[..0] + [[]] == ended && ended + [line] == [[], line];
  }

  /** An action leaves a line past the bound exactly when there was one, or it did not keep to the bound. */
  lemma ExecKeepsToBound(h: Hash, base: seq<Bytes>, file: Bytes, action: Action)
    requires Good(h, base, file) && IsAction(action)
    ensures AnyOversized(CompleteLines(Exec(h, file, action))) <==>
            AnyOversized(CompleteLines(file)) || !KeepsToBound(file, action)
  {
    hide Good, SplitLines, Join, HeadFor, AnyOversized, LinesFit, IsRecordBody, ValidMembers, RepairOf, BatchLines,
         UnchainedLines, CompleteLines, Tail;
    assert file + CutOff([], action.cut) == file;
    match action
    case ChainedAppend(bodies, locked, mint, cut) =>
      if locked {
        BatchKeepsToBound(h, base, file, bodies, mint, cut);
      } else {
        PlainKeepsToBound(file, bodies, cut);
      }
    case PlainAppend(bodies, cut) => PlainKeepsToBound(file, bodies, cut);
    case RepairEnd(expected, locked, mint, run, at, tool, cut) =>
      if RepairOf(h, locked, file, expected, mint, run, at, tool).Ok? {
        RepairKeepsToBound(h, base, file, expected, locked, mint, run, at, tool, cut);
      }
  }

  lemma PlainKeepsToBound(file: Bytes, bodies: seq<Members>, cut: nat)
    requires forall body | body in bodies :: IsRecordBody(body)
    ensures var lines := UnchainedLines(bodies);
            && AreLines(lines)
            && (bodies == [] ==> Join(lines) == [] && LinesFit(|Tail(file)|, lines, cut))
            && (AnyOversized(CompleteLines(file + CutOff(Join(lines), cut))) <==>
                AnyOversized(CompleteLines(file)) || !LinesFit(|Tail(file)|, lines, cut))
  {
    hide AnyOversized, LinesFit, Join, CompleteLines, Tail, IsBody;
    UnchainedAreLines(bodies);
    WriteKeepsToBound(file, UnchainedLines(bodies), cut);
    NothingFits(|Tail(file)|, cut);
  }

  lemma BatchKeepsToBound(h: Hash, base: seq<Bytes>, file: Bytes, bodies: seq<Members>, mint: Identity, cut: nat)
    requires Good(h, base, file) && forall body | body in bodies :: IsRecordBody(body)
    ensures AnyOversized(CompleteLines(Exec(h, file, ChainedAppend(bodies, true, mint, cut)))) <==>
            AnyOversized(CompleteLines(file))
  {
    hide Good, SplitLines, Join, HeadFor, AnyOversized, LinesFit, IsRecordBody, BatchLines, UnchainedLines;
    assert file + CutOff([], cut) == file;
    if HeadFor(h, file, mint).Ok? && bodies != [] {
      var lines := BatchLines(h, HeadFor(h, file, mint).value, bodies);
      HeadNeedsAnEnd(h, file, mint);
      TidyOf(h, base, file);
      HeadAgrees(h, file, mint);
      BatchAreLines(h, HeadFor(h, file, mint).value, bodies);
      if !AnyOversized(lines) {
        MeasuredFit(lines, cut);
        WriteKeepsToBound(file, lines, cut);
      }
    }
  }

  lemma RepairKeepsToBound(h: Hash, base: seq<Bytes>, file: Bytes, expected: Option<DamagedTail>, locked: bool,
                           mint: Identity, run: Bytes, at: Bytes, tool: Members, cut: nat)
    requires Good(h, base, file) && AllPlain(run) && AllPlain(at) && IsTool(tool)
    requires RepairOf(h, locked, file, expected, mint, run, at, tool).Ok?
    ensures AnyOversized(CompleteLines(file +
              CutOff(RepairOf(h, locked, file, expected, mint, run, at, tool).value.data, cut))) <==>
            AnyOversized(CompleteLines(file))
  {
    hide Good, SplitLines, Join, HeadFor, AnyOversized, LinesFit, RecordLine, DiscontinuityBody, Oversized, ValidMembers,
         IsDigest, IsIdentity, HeadBefore, LastTrail, OfDiscontinuityKind, IsBody, Tidy;
    var lines, tail := CompleteLines(file), Tail(file);
    TidyOf(h, base, file);
    KeptLines(file);
    var head := HeadFor(h, Join(lines), mint).value;
    HeadAgrees(h, Join(lines), mint);
    var damage := DamageAfter(h, head, tail);
    var line := DiscontinuityLine(head, damage, run, at, tool);
    DiscontinuityReads(run, at, tool, damage);
    RecordReads(Some(Link(head.trail, damage.line + 1, head.previous)), DiscontinuityBody(run, at, tool, damage));
    RepairFits(file, line, cut);
    WriteKeepsToBound(file, [[], line], cut);
  }

  /** A run leaves a line past the bound exactly when there was one, or some action of it did not keep to the bound. */
  lemma {:induction false} RunKeepsToBound(h: Hash, base: seq<Bytes>, file: Bytes, actions: seq<Action>)
    requires Good(h, base, file) && AreActions(actions)
    ensures AnyOversized(CompleteLines(Run(h, file, actions))) <==>
            AnyOversized(CompleteLines(file)) || !AllKeepToBound(h, file, actions)
  {
    hide Good, Exec, IsAction, KeepsToBound, AnyOversized, CompleteLines;
    if actions != [] {
      var n := |actions| - 1;
      var front := actions[..n];
      RunKeepsToBound(h, base, file, front);
      RunKeeps(h, base, file, front);
      ExecKeepsToBound(h, base, Run(h, file, front), actions[n]);
      forall i | 0 <= i < n
        ensures KeepsToBound(Run(h, file, actions[..i]), actions[i]) ==
                KeepsToBound(Run(h, file, front[..i]), front[i])
      {
        assert actions[..i] == front[..i];
      }
      if AllKeepToBound(h, file, front) && KeepsToBound(Run(h, file, front), actions[n]) {
        forall i | 0 <= i <= n
          ensures KeepsToBound(Run(h, file, actions[..i]), actions[i])
        {
          if i < n {
            assert KeepsToBound(Run(h, file, front[..i]), front[i]);
          }
        }
      }
      if AllKeepToBound(h, file, actions) {
        assert KeepsToBound(Run(h, file, actions[..n]), actions[n]);
        forall i | 0 <= i < n
          ensures KeepsToBound(Run(h, file, front[..i]), front[i])
        {
          assert KeepsToBound(Run(h, file, actions[..i]), actions[i]);
        }
      }
    }
  }
}
