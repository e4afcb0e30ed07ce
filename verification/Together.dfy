/**
 One reading of a trail with everything that is read beside it. As each line settles, the stamps' intervals take its
 record and the sidecar gives up the items that belong with it; neither file is held, and nothing is read twice.
 */
module Together {
  import opened Octets
  import opened Chain
  import opened Coverage
  import opened Sidecar
  import opened Signatures
  import opened SignatureReader
  import opened Verifier
  import opened Listings
  import opened OneList
  import Report
  import Stamps

  /** A record's own word for its time, when it has one that can be read: for a parser of times to say. */
  type Clock = Bytes -> Option<int>

  function AtOf(clock: Clock, line: Bytes): Option<int> { clock(line) }

  /** The undamaged chained lines among the first n, each with its time. */
  function RecordsOf(clock: Clock, lines: seq<Bytes>, n: nat): seq<Stamps.Record>
    requires n <= |lines|
  {
    if n == 0 then []
    else
      RecordsOf(clock, lines, n - 1)
      + if ClassOf(lines, n - 1).ChainedLine? then [Stamps.Record(n, AtOf(clock, lines[n - 1]))] else []
  }

  lemma {:induction false} RecordsArePositive(clock: Clock, lines: seq<Bytes>, n: nat)
    requires n <= |lines|
    ensures forall r | r in RecordsOf(clock, lines, n) :: r.sequence > 0
  {
    hide ClassOf;
    if n > 0 {
      RecordsArePositive(clock, lines, n - 1);
    }
  }

  // ----- What is settled does not change -----

  /** Some lines of a trail are read, and either more of them than these many, or all there are. */
  ghost predicate SettledOf(lines: seq<Bytes>, n: nat, all: seq<Bytes>) {
    n <= |lines| && lines <= all && (n < |lines| || lines == all)
  }

  lemma SettledLifts(h: Hash, lines: seq<Bytes>, n: nat, all: seq<Bytes>)
    requires SettledOf(lines, n, all)
    ensures Reported(h, all, n) == Reported(h, lines, n)
    ensures n > 0 ==> SettledLine(h, all, n - 1) == SettledLine(h, lines, n - 1)
  {
    hide Reported, Seen, Damaged;
    if n < |lines| {
      var more := all[|lines|..];
      assert all == lines + more;
      ReportedPrefix(h, lines, more, n);
      if n > 0 {
        SeenPrefix(h, lines, more, n - 1);
        ExcusesPrefix(lines, more, n - 1);
      }
    }
  }

  lemma ReadIsPrefix(contents: Bytes, offset: nat, whole: Bytes, read: seq<Bytes>)
    requires StreamHolds(contents, offset, whole, read)
    ensures read <= CompleteLines(contents)
  {
    hide SplitLines, Join;
    assert contents == contents[..offset] + contents[offset..];
    SplitOfJoin(read, []);
    assert Join(read) + [] == Join(read);
    SplitAppend(Join(read), contents[offset..]);
  }

  class Pass {
    const trail: TrailVerifier
    const sidecar: SignatureChecker
    const stamps: Stamps.StampChecker
    const clock: Clock

    /** The time of the line kept until the next is read. */
    var at: Option<int>
    /** What the trail and the sidecar have recorded. */
    var log: FindingLog

    constructor (trail: TrailVerifier, sidecar: SignatureChecker, stamps: Stamps.StampChecker, clock: Clock)
      requires sidecar.trail == CompleteLines(trail.contents) && sidecar.h == trail.h
      requires trail.AtLine() && trail.read == []
      requires sidecar.Stands() && sidecar.lastTrail == [] && sidecar.lastPlace == 0 && sidecar.taken == 0
      requires stamps.Valid() && stamps.settled == []
      ensures this.trail == trail && this.sidecar == sidecar && this.stamps == stamps && this.clock == clock
      ensures InStep()
    {
      hide CompleteLines, TrailVerifier.AtLine, SignatureChecker.Stands, Stamps.StampChecker.Valid, ItemsOf;
      this.trail, this.sidecar, this.stamps, this.clock := trail, sidecar, stamps, clock;
      at, log := None, FindingLog([], 0);
      new;
      NothingThrough(sidecar.trail);
      sidecar.FoundSoFar();
      assert RecordsOf(clock, sidecar.trail, 0) == [] && Settling(0) == [] && TakenBy(ItemsOf(sidecar.sidecar), 0) == 0;
    }

    /** The sidecar is read beside this trail's own lines. */
    ghost predicate Beside() { sidecar.trail == CompleteLines(trail.contents) && sidecar.h == trail.h }

    /** What is recorded while the first n lines settle. */
    ghost function Settling(n: nat): seq<AnyFinding>
      requires n <= |sidecar.trail| && sidecar.options.keys != []
    {
      SettledFindings(sidecar.Besides(), sidecar.options, ItemsOf(sidecar.sidecar), n)
    }

    /** Sidecar and stamps have come as far as n settled lines. */
    ghost predicate BesideTo(n: nat)
      reads sidecar, stamps, stamps.intervals
    {
      && n <= |sidecar.trail| && sidecar.Stands() && stamps.Valid()
      && sidecar.taken == TakenBy(ItemsOf(sidecar.sidecar), n)
      && sidecar.lastTrail == TrailThrough(sidecar.trail, n)
      && sidecar.lastPlace <= 2 * n + 1 && BeginsAt(ItemsOf(sidecar.sidecar), sidecar.taken, n + 1)
      && stamps.settled == RecordsOf(clock, sidecar.trail, n)
    }

    /** And so has the one list. */
    ghost predicate CameTo(n: nat)
      reads `log, sidecar, stamps, stamps.intervals
    {
      BesideTo(n) && sidecar.options.keys != [] && log == Logged(Settling(n))
    }

    /** The readings beside have come to the line that is kept. */
    ghost predicate BesideKept()
      reads this, trail, sidecar, stamps, stamps.intervals
    {
      && Beside() && CameTo(Behind(|trail.read|))
      && (trail.read != [] ==> at == AtOf(clock, trail.read[|trail.read| - 1]))
    }

    /** At the end, every line is settled and the rest is recorded; the sidecar may hold items that are not taken. */
    ghost predicate AllRead()
      reads this, trail, sidecar, stamps, stamps.intervals
    {
      && Beside() && trail.AtEnd() && BesideTo(|sidecar.trail|) && sidecar.options.keys != []
      && log == Logged(Settling(|sidecar.trail|) + Trails(WithTail([], Tail(trail.contents), |sidecar.trail| + 1)))
    }

    /** Between two lines, all three readings are in step. */
    ghost predicate InStep()
      reads this, trail, sidecar, stamps, stamps.intervals
    {
      trail.AtLine() && BesideKept()
    }

    /** Records a settled line's findings. */
    method LogLine(settled: SeenLine, ghost n: nat)
      requires Beside() && 0 < n <= |sidecar.trail| && settled == SettledLine(trail.h, sidecar.trail, n - 1)
      requires sidecar.options.keys != [] && log == Logged(Settling(n - 1))
      modifies `log
      ensures log == Logged(Settling(n - 1) + Trails(ReportedOf(trail.h, sidecar.trail, n - 1)))
    {
      hide SettledFindings, LineFindings, MemberFindings, HeadBefore, LinkOf, Excuses, OfDiscontinuityKind,
           CompleteLines, ItemsOf;
      var found := if settled.damaged then [] else settled.findings + settled.memberFindings;
      log := Append(log, Trails(found), Settling(n - 1));
    }

    /** Records what was found of the items taken since so many findings were made. */
    method LogItems(found: nat, ghost from: nat, ghost all: seq<AnyFinding>)
      requires sidecar.Stands() && from <= sidecar.taken && log == Logged(all)
      requires found == |After(sidecar.Besides(), sidecar.options, ItemsOf(sidecar.sidecar), from).found|
      modifies `log
      ensures log == Logged(all + Sidecars(FoundBetween(sidecar.Besides(), sidecar.options, ItemsOf(sidecar.sidecar),
                                                        from, sidecar.taken)))
    {
      hide After, ItemsOf, ReaderAt;
      FoundGrows(sidecar.Besides(), sidecar.options, ItemsOf(sidecar.sidecar), from, sidecar.taken);
      log := Append(log, Sidecars(sidecar.reported[found..]), all);
    }

    /** One settled line's effect beside the trail. */
    method SettleBeside(settled: SeenLine, ghost n: nat)
      requires Beside() && 0 < n <= |sidecar.trail| && settled == SettledLine(trail.h, sidecar.trail, n - 1)
      requires trail.earliestFinding == Earliest(Reported(trail.h, sidecar.trail, n))
      requires CameTo(n - 1) && at == AtOf(clock, sidecar.trail[n - 1])
      modifies `log, sidecar, stamps, stamps.intervals
      ensures CameTo(n)
    {
      hide SettledLine, Reported, ReportedOf, TrailThrough, BeginsAt, ItemsOf, CompleteLines, Earliest,
           Stamps.StampChecker.Valid, After, ReaderAt, Damaged, LinkOf, Chained, SignatureChecker.Stands;
      SettledClass(trail.h, sidecar.trail, n - 1);
      LogLine(settled, n);
      if !settled.damaged && settled.link.Some? {
        stamps.Settle(Stamps.Record(settled.number, at));
      }
      sidecar.FoundSoFar();
      var found := |sidecar.reported|;
      ghost var from := sidecar.taken;
      sidecar.Settle(settled, trail.earliestFinding);
      LogItems(found, from, Settling(n - 1) + Trails(ReportedOf(trail.h, sidecar.trail, n - 1)));
    }

    /** Settles the kept line in the trail, then beside it. */
    method Commit(ghost lines: seq<Bytes>, ghost n: nat)
      requires Beside() && SettledOf(lines, n, sidecar.trail)
      requires trail.previous == if n == 0 then None else Some(SettledLine(trail.h, lines, n - 1))
      requires trail.SettledTo(lines, Behind(n))
      requires CameTo(Behind(n)) && (n > 0 ==> at == AtOf(clock, lines[n - 1]))
      modifies trail`findings, trail`findingsTotal, trail`earliestFinding
      modifies trail`pendingUnchained, trail`firstChained, trail`coverage, trail`head, trail`chainedAt
      modifies trail`listed, trail`more
      modifies `log, sidecar, stamps, stamps.intervals
      ensures trail.SettledTo(lines, n) && CameTo(n)
    {
      hide LogOf, TallyOf, SettledLine, Reported, TrailThrough, BeginsAt, ItemsOf, CompleteLines, Earliest;
      trail.Commit(lines, n);
      if trail.previous.Some? {
        SettledLifts(trail.h, lines, n, sidecar.trail);
        Report.EarliestLogged(Reported(trail.h, lines, n));
        SettleBeside(trail.previous.value, n);
      }
    }

    /** Checks the complete line just read, with the time it gives itself, and settles the line before it. */
    method TakeLine(text: Bytes, line: Bytes, length: nat, oversized: bool, before: Option<Head>)
      requires BesideKept()
      requires trail.CameTo(trail.read + [text]) && trail.Checked() && trail.SettledTo(trail.read, Behind(|trail.read|))
      requires before == HeadBefore(trail.h, trail.read, |trail.read|)
      requires length == |text| && oversized == Oversized(text) && (!oversized ==> line == text)
      modifies this, trail, sidecar, stamps, stamps.intervals
      ensures InStep() && trail.offset == old(trail.offset)
    {
      hide StreamHolds, Oversized, HeadBefore, SettledLine, CompleteLines, Pass.CameTo, TrailVerifier.Checked,
           TrailVerifier.CheckedNext, TrailVerifier.SettledTo, TrailVerifier.AtLine;
      ReadIsPrefix(trail.contents, trail.offset, trail.whole, trail.read + [text]);
      var seen := trail.CheckNext(text, line, length, oversized, before);
      trail.ReadyToCommit(seen, text);
      Commit(trail.read + [text], |trail.read|);
      trail.Advance(seen, text);
      at := AtOf(clock, text);
    }

    /** At the end the kept line is settled, and the rest is noted. */
    method End(text: Bytes, length: nat)
      requires BesideKept() && trail.Checked() && trail.SettledTo(trail.read, Behind(|trail.read|))
      requires trail.read == CompleteLines(trail.contents) && text == Tail(trail.contents) && length == |text|
      requires trail.lines == |trail.read| && trail.incomplete == None
      modifies this, trail, sidecar, stamps, stamps.intervals
      ensures AllRead() && trail.offset == old(trail.offset)
    {
      hide CompleteLines, Tail, SettledLine, Logged, Pass.BesideTo, Pass.Settling, TrailVerifier.Checked,
           TrailVerifier.SettledTo, TrailVerifier.AllSettled, TrailVerifier.AtEnd;
      trail.KeptAtEnd();
      Commit(trail.read, |trail.read|);
      trail.AllAreSettled();
      trail.NoteTail(text, length);
      var rest := if length > 0 then [Finding(IncompleteLastLine, trail.lines + 1)] else [];
      assert rest == WithTail([], text, |sidecar.trail| + 1);
      log := Append(log, Trails(rest), Settling(|sidecar.trail|));
    }

    /** One turn of the reading, beside everything that is read with it. */
    method ReadLine() returns (ended: bool)
      requires InStep()
      modifies this, trail, sidecar, stamps, stamps.intervals
      ensures !ended ==> InStep() && old(trail.offset) < trail.offset
      ensures ended ==> AllRead()
      ensures trail.offset <= |trail.contents|
    {
      hide CompleteLines, Tail, Oversized, StreamHolds, HeadBefore, TrailVerifier.Checked, TrailVerifier.SettledTo,
           Pass.CameTo, Pass.AllRead;
      var text, line, length, oversized, terminated, before := trail.NextLine();
      if terminated {
        TakeLine(text, line, length, oversized, before);
        ended := false;
      } else {
        End(text, length);
        ended := true;
      }
    }
  }

  /** Reads a trail with its sidecar and its stamps' intervals beside it, once, from the first byte to the last. */
  method ReadTogether(h: Hash, contents: Bytes, wanted: set<nat>, asked: Option<ListRequest>, s: Scheme,
                      options: SignatureOptions, sidecar: Bytes, sequences: seq<nat>, clock: Clock)
    returns (trail: TrailVerifier, checker: SignatureChecker, stamps: Stamps.StampChecker, log: FindingLog)
    requires options.keys != [] && Stamps.Ascending(sequences)
    ensures fresh(trail) && trail.AtEnd() && trail.h == h && trail.contents == contents
    ensures trail.wanted == wanted && trail.asked == asked
    ensures fresh(checker) && Finished(checker) && checker.Besides() == Beside(s, h, CompleteLines(contents))
    ensures checker.options == options && checker.sidecar == sidecar
    ensures fresh(stamps) && fresh(stamps.intervals) && stamps.Valid() && stamps.sequences == sequences
    ensures stamps.settled == RecordsOf(clock, CompleteLines(contents), |CompleteLines(contents)|)
    ensures log == Logged(ReadFindings(Beside(s, h, CompleteLines(contents)), options, sidecar, Tail(contents)))
  {
    hide ItemsOf, ReaderAt, CompleteLines, Tail, TrailVerifier.AtLine, TrailVerifier.AtEnd, Stamps.StampChecker.Valid,
         Pass.InStep, SignatureChecker.Stands, TrailThrough, BeginsAt, SettledFindings, After, Logged, FoundBetween,
         RecordsOf, TakenBy, WithTail, Trails;
    trail := new TrailVerifier(h, contents, wanted, asked);
    checker := new SignatureChecker(s, h, options, sidecar, CompleteLines(contents));
    stamps := new Stamps.StampChecker(sequences);
    var pass := new Pass(trail, checker, stamps, clock);
    var ended := false;
    while !ended
      invariant fresh(pass) && fresh(trail) && fresh(checker) && fresh(stamps) && fresh(stamps.intervals)
      invariant trail.offset <= |contents|
      invariant if ended then pass.AllRead() else pass.InStep()
      decreases !ended, |contents| - trail.offset
    {
      ended := pass.ReadLine();
    }
    checker.FoundSoFar();
    var found := |checker.reported|;
    ghost var from, n := checker.taken, |checker.trail|;
    ghost var all := pass.Settling(n) + Trails(WithTail([], Tail(contents), n + 1));
    checker.Finish();
    pass.LogItems(found, from, all);
    log := pass.log;
    ReadIs(checker);
  }

  /** Once every item is taken, the checker's fields are the reading of the whole sidecar. */
  lemma ReadIs(checker: SignatureChecker)
    requires checker.Stands() && checker.taken == |ItemsOf(checker.sidecar)|
    ensures Finished(checker)
  {
    hide ItemsOf, After, ReaderAt;
  }
}
