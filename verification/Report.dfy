/**
 The verification from its first byte to its report: a trail is read through, compared with every checkpoint
 supplied for it, and summed up.
 */
module Report {
  import opened Octets
  import opened Chain
  import opened Coverage
  import opened Checkpoints
  import opened Verifier
  import opened Listings

  /** The checkpoints of a witness's statements that verified, credited only when no statement had a finding. */
  datatype Statements = Statements(verified: seq<Checkpoint>, clean: bool)

  /** What a verification holds the trail to, besides its own chain. */
  datatype Options = Options(held: seq<Checkpoint>, statements: Option<Statements>, stamped: seq<Checkpoint>,
                             requireThrough: nat, asked: Option<ListRequest>) {
    predicate Supplied() { held != [] || statements.Some? }

    predicate Valid() {
      && (forall c | c in held :: c.sequence > 0)
      && (statements.Some? ==> forall c | c in statements.value.verified :: c.sequence > 0)
      && (forall c | c in stamped :: c.sequence > 0)
    }

    function Verified(): seq<Checkpoint> { if statements.Some? then statements.value.verified else [] }

    function Credited(): seq<Checkpoint> {
      if statements.Some? && statements.value.clean then statements.value.verified else []
    }
  }

  datatype Reach = NotSupplied | NotReached | Reached(through: nat)

  datatype Requirement = NotRequired | Met | Unmet

  datatype Status = Invalid | Segmented | Valid

  datatype HeldSummary = HeldSummary(supplied: nat, matched: nat, failed: nat, latest: Option<Checkpoint>, status: bool)

  datatype CoverageReport = CoverageReport(
    legacyPrefix: nat, chained: nat, unchained: nat, damaged: nat, uncovered: nat,
    checkpointed: Reach, witnessed: nat, unwitnessed: nat, countersigned: Option<Checkpoint>)

  datatype ChainReport = ChainReport(
    lines: nat, bytes: nat, head: Option<Checkpoint>, coverage: CoverageReport, held: Option<HeldSummary>,
    segments: seq<Segment>, segmentsTotal: nat, discontinuities: seq<Discontinuity>, discontinuitiesTotal: nat,
    incomplete: Option<(nat, nat, Digest)>, findings: seq<Finding>, findingsTotal: nat,
    required: Requirement, status: Status, checkpoints: CheckpointList)

  // ----- What is reported, over the whole list of lines -----

  /** Every failed check but that of the requirement: coverage is decided once all of them are known. */
  function HeldTo(h: Hash, file: Bytes, options: Options): seq<Finding> {
    var lines := CompleteLines(file);
    HoldEach(h, lines, Sorted(options.Verified()), false,
             HoldEach(h, lines, Sorted(options.held), false, StampedTo(h, file, options)))
  }

  /** What is found before any held checkpoint is looked at: of the chain, and of trusted stamps that do not match. */
  function StampedTo(h: Hash, file: Bytes, options: Options): seq<Finding> {
    HoldEach(h, CompleteLines(file), options.stamped, true, AllFindings(h, file))
  }

  function HeldThrough(h: Hash, file: Bytes, options: Options): Option<Checkpoint> {
    Through(h, CompleteLines(file), options.held, Earliest(HeldTo(h, file, options)))
  }

  function CountersignedThrough(h: Hash, file: Bytes, options: Options): Option<Checkpoint> {
    Through(h, CompleteLines(file), options.Credited(), Earliest(HeldTo(h, file, options)))
  }

  function SequenceOf(through: Option<Checkpoint>): nat { if through.Some? then through.value.sequence else 0 }

  /** How far the coverage reaches: the higher of the holder's and the witness's. */
  function ReachOf(h: Hash, file: Bytes, options: Options): nat {
    var held, countersigned :=
      SequenceOf(HeldThrough(h, file, options)), SequenceOf(CountersignedThrough(h, file, options));
    if countersigned > held then countersigned else held
  }

  function Everything(h: Hash, file: Bytes, options: Options): seq<Finding> {
    var recorded := HeldTo(h, file, options);
    if options.requireThrough > 0 && (!options.Supplied() || ReachOf(h, file, options) < options.requireThrough)
    then recorded + [Finding(CheckpointCoverageMissing, options.requireThrough)] else recorded
  }

  lemma {:induction false} HoldEachExtends(h: Hash, lines: seq<Bytes>, held: seq<Checkpoint>, stamped: bool,
                                           recorded: seq<Finding>)
    ensures recorded <= HoldEach(h, lines, held, stamped, recorded)
  {
    hide HeldName;
    if held != [] {
      HoldEachExtends(h, lines, held[..|held| - 1], stamped, recorded);
    }
  }

  lemma EverythingExtends(h: Hash, contents: Bytes, options: Options)
    ensures AllFindings(h, contents) <= StampedTo(h, contents, options) <= Everything(h, contents, options)
  {
    hide AllFindings, CompleteLines, HoldEach, Sorted, ReachOf;
    var lines, matched := CompleteLines(contents), StampedTo(h, contents, options);
    HoldEachExtends(h, lines, options.stamped, true, AllFindings(h, contents));
    HoldEachExtends(h, lines, Sorted(options.held), false, matched);
    HoldEachExtends(h, lines, Sorted(options.Verified()), false,
                    HoldEach(h, lines, Sorted(options.held), false, matched));
  }

  // ----- What the reach means -----

  /** It matches, and nothing fails up to its sequence: no line of the chain, and no checkpoint supplied in any way. */
  predicate Attests(h: Hash, lines: seq<Bytes>, options: Options, c: Checkpoint) {
    && Matches(h, lines, c) && SoundThrough(h, lines, c.sequence)
    && (forall d | d in options.held + options.Verified() + options.stamped && !Matches(h, lines, d) :: d.sequence > c.sequence)
  }

  lemma InSorted(held: seq<Checkpoint>)
    ensures forall c :: c in Sorted(held) <==> c in held
  {
    hide Sorted;
    SortedKeeps(held);
    forall c: Checkpoint
      ensures c in Sorted(held) <==> c in held
    {
      assert c in multiset(held) <==> c in held;
      assert c in multiset(Sorted(held)) <==> c in Sorted(held);
    }
  }

  /** The lowest line a check failed at decides, for a checkpoint that matches, whether it covers. */
  lemma ClearIsAttested(h: Hash, file: Bytes, options: Options, c: Checkpoint)
    requires options.Valid() && Matches(h, CompleteLines(file), c)
    ensures Clear(Earliest(HeldTo(h, file, options)), c.sequence) <==> Attests(h, CompleteLines(file), options, c)
  {
    hide Matches, HoldEach, Sorted, Clear, Earliest, SoundThrough, AllFindings, CompleteLines;
    var lines := CompleteLines(file);
    assert c.sequence <= |lines| by {
      MatchesOwnLine(h, lines, c);
    }
    InSorted(options.held);
    InSorted(options.Verified());
    ClearIsSound(h, file, c.sequence);
    var recorded := HoldEach(h, lines, Sorted(options.held), false, StampedTo(h, file, options));
    ClearOfHeld(h, lines, options.stamped, true, AllFindings(h, file), c.sequence);
    ClearOfHeld(h, lines, Sorted(options.held), false, StampedTo(h, file, options), c.sequence);
    ClearOfHeld(h, lines, Sorted(options.Verified()), false, recorded, c.sequence);
  }

  /**
   The reach is the highest sequence of a checkpoint that covers: held, or of a credited statement.
   */
  lemma ReachIsHighest(h: Hash, file: Bytes, options: Options)
    requires options.Valid()
    ensures var lines, reach := CompleteLines(file), ReachOf(h, file, options);
            && reach <= |lines|
            && (reach > 0 ==> exists c :: c in options.held + options.Credited() && c.sequence == reach &&
                                           Attests(h, lines, options, c))
            && (forall c | c in options.held + options.Credited() && Attests(h, lines, options, c) ::
                  0 < c.sequence <= reach)
  {
    hide Matches, HeldTo, Sorted, Clear, Earliest, SoundThrough, CompleteLines, Through;
    var lines, earliest := CompleteLines(file), Earliest(HeldTo(h, file, options));
    ThroughIsHighest(h, lines, options.held, earliest);
    ThroughIsHighest(h, lines, options.Credited(), earliest);
    forall c | c in options.held + options.Credited() && Matches(h, lines, c)
      ensures Clear(earliest, c.sequence) <==> Attests(h, lines, options, c)
      ensures 0 < c.sequence <= |lines|
    {
      ClearIsAttested(h, file, options, c);
      MatchesOwnLine(h, lines, c);
    }
  }

  /** Every checkpoint supplied matched, and the highest of them is clear of every failed check. */
  predicate HeldAllMatched(h: Hash, file: Bytes, options: Options) {
    var sorted := Sorted(options.held);
    && |Matching(h, CompleteLines(file), sorted)| == |sorted| > 0
    && SequenceOf(HeldThrough(h, file, options)) == sorted[|sorted| - 1].sequence
  }

  /** That is to say that there is one, and that every one of them covers. */
  lemma AllMatchedIsAllAttest(h: Hash, file: Bytes, options: Options)
    requires options.Valid()
    ensures HeldAllMatched(h, file, options) <==>
            options.held != [] && forall c | c in options.held :: Attests(h, CompleteLines(file), options, c)
  {
    hide Matches, HeldTo, Sorted, Earliest, SoundThrough, CompleteLines, Through, Matching;
    var lines, sorted, earliest :=
      CompleteLines(file), Sorted(options.held), Earliest(HeldTo(h, file, options));
    SortedKeeps(options.held);
    InSorted(options.held);
    AllMatching(h, lines, sorted);
    ThroughIsHighest(h, lines, options.held, earliest);
    assert |sorted| == |multiset(sorted)| == |multiset(options.held)| == |options.held|;
    forall c | c in options.held && Matches(h, lines, c)
      ensures Clear(earliest, c.sequence) <==> Attests(h, lines, options, c)
    {
      ClearIsAttested(h, file, options, c);
    }
    if sorted != [] {
      var highest := sorted[|sorted| - 1];
      assert highest in sorted;
      forall c | c in options.held
        ensures c.sequence <= highest.sequence
      {
        var i :| 0 <= i < |sorted| && sorted[i] == c;
      }
    }
  }

  function SummaryOf(h: Hash, file: Bytes, options: Options): Option<HeldSummary> {
    var lines, sorted := CompleteLines(file), Sorted(options.held);
    AllMatching(h, lines, sorted);
    if sorted == [] then None
    else
      var matched := |Matching(h, lines, sorted)|;
      Some(HeldSummary(|sorted|, matched, |sorted| - matched, HeldThrough(h, file, options),
                       HeldAllMatched(h, file, options)))
  }

  lemma EarliestLogged(recorded: seq<Finding>)
    ensures LogOf(recorded).earliest == Earliest(recorded)
  {
  }

  /** With no statement credited, nothing is matched among none. */
  lemma CreditedMatching(h: Hash, lines: seq<Bytes>, options: Options)
    ensures Matching(h, lines, Sorted(options.Credited())) ==
            if options.statements.Some? && options.statements.value.clean
            then Matching(h, lines, Sorted(options.Verified())) else []
  {
    hide Matches;
  }

  // ----- Holding the trail to checkpoints -----

  /** The check the trail fails when it is held to one checkpoint, by the line kept for it. */
  method HoldAgainst(v: TrailVerifier, expected: Checkpoint) returns (name: Option<FindingName>)
    requires v.Counted() && expected.sequence in v.wanted
    ensures name == HoldCheckpoint(v.h, v.read, expected)
  {
    hide LinkOf, Excuses, HeadBefore, LineFindings, MemberFindings, OfDiscontinuityKind, DigestOf, ListingOf, TallyOf;
    if expected.sequence > v.lines || expected.sequence !in v.heldLines {
      return Some(CheckpointBeyondTrail);
    }
    var named := v.heldLines[expected.sequence];
    if named.damaged || named.link.None? {
      return Some(CheckpointNotChained);
    }
    if named.link.value.trail != expected.trail {
      return Some(CheckpointTrailMismatch);
    }
    if named.digest != expected.digest {
      return Some(CheckpointRecordMismatch);
    }
    return None;
  }

  /** Holds the trail to each of these in turn, recording each that fails, and answers what it recorded. */
  method HoldAll(v: TrailVerifier, held: seq<Checkpoint>, stamped: bool, ghost recorded: seq<Finding>)
    returns (matched: seq<Checkpoint>, failed: seq<Finding>)
    modifies v`findings, v`findingsTotal, v`earliestFinding
    requires v.Counted() && forall c | c in held :: c.sequence in v.wanted
    requires Log(v.findings, v.findingsTotal, v.earliestFinding) == LogOf(recorded)
    ensures v.Counted() && matched == Matching(v.h, v.read, held)
    ensures HoldEach(v.h, v.read, held, stamped, recorded) == recorded + failed
    ensures Log(v.findings, v.findingsTotal, v.earliestFinding) == LogOf(HoldEach(v.h, v.read, held, stamped, recorded))
  {
    hide LogOf, ListingOf, TallyOf, HeldAmong, HoldCheckpoint, CompleteLines, TrailVerifier.Counted;
    matched, failed := [], [];
    assert held[..0] == [] && recorded + failed == recorded;
    var i := 0;
    while i < |held|
      invariant 0 <= i <= |held| && v.Counted()
      invariant matched == Matching(v.h, v.read, held[..i])
      invariant HoldEach(v.h, v.read, held[..i], stamped, recorded) == recorded + failed
      invariant Log(v.findings, v.findingsTotal, v.earliestFinding) == LogOf(recorded + failed)
    {
      assert held[..i + 1][..i] == held[..i];
      var name := HoldAgainst(v, held[i]);
      if name.Some? {
        NameIsOfTheChain(v.h, v.read, held[i], stamped);
        var finding := Finding(if stamped then StampCheckpointMismatch else name.value, held[i].sequence);
        v.Record(finding, recorded + failed);
        failed := failed + [finding];
      } else {
        matched := matched + [held[i]];
      }
      i := i + 1;
    }
    assert held[..i] == held;
  }

  /** The last of these that no failed check is at or before. */
  method LastCovered(earliest: nat, matched: seq<Checkpoint>) returns (through: Option<Checkpoint>)
    ensures through == LastClear(earliest, matched)
  {
    through := None;
    assert matched[..0] == [];
    var i := 0;
    while i < |matched|
      invariant 0 <= i <= |matched|
      invariant through == LastClear(earliest, matched[..i])
    {
      assert matched[..i + 1][..i] == matched[..i];
      if Clear(earliest, matched[i].sequence) {
        through := Some(matched[i]);
      }
      i := i + 1;
    }
    assert matched[..i] == matched;
  }

  /**
   All supplied checkpoints, compared in order of sequence, then the three answers drawn from them; none is drawn
   until the last comparison is in the log.
   */
  method CheckHeld(v: TrailVerifier, options: Options)
    returns (summary: Option<HeldSummary>, reach: nat, countersigned: Option<Checkpoint>, failed: seq<Finding>)
    modifies v`findings, v`findingsTotal, v`earliestFinding
    requires v.Counted() && options.Valid()
    requires Log(v.findings, v.findingsTotal, v.earliestFinding) == LogOf(StampedTo(v.h, v.contents, options))
    requires forall c | c in options.held + options.Verified() :: c.sequence in v.wanted
    ensures v.Counted()
    ensures Log(v.findings, v.findingsTotal, v.earliestFinding) == LogOf(HeldTo(v.h, v.contents, options))
    ensures HeldTo(v.h, v.contents, options) == StampedTo(v.h, v.contents, options) + failed
    ensures reach == ReachOf(v.h, v.contents, options)
    ensures countersigned == CountersignedThrough(v.h, v.contents, options)
    ensures summary == SummaryOf(v.h, v.contents, options)
  {
    hide LogOf, ListingOf, TallyOf, HeldAmong, Matching, Sorted, HoldEach, CompleteLines, LastClear, StampedTo, Earliest,
         HoldCheckpoint, DigestOf, Tail;
    InSorted(options.held);
    InSorted(options.Verified());
    SortedKeeps(options.held);
    ghost var recorded := StampedTo(v.h, v.contents, options);
    var held := Sorted(options.held);
    var matched, missed := HoldAll(v, held, false, recorded);
    recorded := HoldEach(v.h, v.read, held, false, recorded);
    var statements := Sorted(options.Verified());
    var verified, more := HoldAll(v, statements, false, recorded);
    failed := missed + more;
    recorded := HoldEach(v.h, v.read, statements, false, recorded);
    EarliestLogged(recorded);
    var through := LastCovered(v.earliestFinding, matched);
    var credited := if options.statements.Some? && options.statements.value.clean then verified else [];
    CreditedMatching(v.h, v.read, options);
    countersigned := LastCovered(v.earliestFinding, credited);
    reach := if through.Some? then through.value.sequence else 0;
    if countersigned.Some? && countersigned.value.sequence > reach {
      reach := countersigned.value.sequence;
    }
    summary := None;
    if |held| > 0 {
      AllMatching(v.h, v.read, held);
      var all := |matched| == |held| && through.Some? && through.value.sequence == held[|held| - 1].sequence;
      summary := Some(HeldSummary(|held|, |matched|, |held| - |matched|, through, all));
    }
  }

  // ----- The whole verification -----

  /** Reads every line of a trail. */
  method ReadAll(h: Hash, contents: Bytes, wanted: set<nat>, asked: Option<ListRequest>) returns (v: TrailVerifier)
    ensures fresh(v) && v.AtEnd() && v.h == h && v.contents == contents && v.wanted == wanted && v.asked == asked
  {
    v := new TrailVerifier(h, contents, wanted, asked);
    var ended := false;
    while !ended
      invariant fresh(v) && v.h == h && v.contents == contents && v.wanted == wanted && v.asked == asked
      invariant if ended then v.AtEnd() else v.AtLine()
      decreases !ended, |contents| - v.offset
    {
      ended := v.ReadLine();
    }
  }

  /** Adds a finding when a required sequence is out of the reach. */
  method CheckRequirement(v: TrailVerifier, options: Options, reach: nat) returns (required: Requirement)
    modifies v`findings, v`findingsTotal, v`earliestFinding
    requires v.Counted() && reach == ReachOf(v.h, v.contents, options)
    requires Log(v.findings, v.findingsTotal, v.earliestFinding) == LogOf(HeldTo(v.h, v.contents, options))
    ensures v.Counted()
    ensures Log(v.findings, v.findingsTotal, v.earliestFinding) == LogOf(Everything(v.h, v.contents, options))
    ensures required == RequirementOf(v.h, v.contents, options)
  {
    hide LogOf, HeldTo, ReachOf, ListingOf, TallyOf, HeldAmong, CompleteLines;
    if options.requireThrough == 0 {
      return NotRequired;
    }
    if options.Supplied() && reach >= options.requireThrough {
      return Met;
    }
    v.Record(Finding(CheckpointCoverageMissing, options.requireThrough), HeldTo(v.h, v.contents, options));
    return Unmet;
  }

  function RequirementOf(h: Hash, file: Bytes, options: Options): Requirement {
    if options.requireThrough == 0 then NotRequired
    else if options.Supplied() && ReachOf(h, file, options) >= options.requireThrough then Met
    else Unmet
  }

  /** What the trail is, from what was read and found. */
  method Compose(v: TrailVerifier, options: Options, summary: Option<HeldSummary>, reach: nat,
                 countersigned: Option<Checkpoint>, required: Requirement)
    returns (r: ChainReport)
    modifies v`segments, v`segmentsTotal
    requires v.Counted() && options.Valid() && reach == ReachOf(v.h, v.contents, options)
    requires forall c | c in options.held + options.Credited() :: c.sequence in v.wanted
    ensures r.lines == |v.read| && r.bytes == |v.contents| && r.head == HeadOf(v.h, v.read)
    ensures CountedIn(r.coverage, v.read)
    ensures r.coverage.checkpointed == if !options.Supplied() then NotSupplied else if reach == 0 then NotReached else Reached(reach)
    ensures reach <= |v.read| && r.coverage.witnessed == ChainedUpTo(v.read, reach)
    ensures r.coverage.countersigned == countersigned
    ensures r.coverage.witnessed + r.coverage.unwitnessed == r.coverage.chained
    ensures Listing(r.discontinuities, r.discontinuitiesTotal, r.segments, r.segmentsTotal, 0) == ClosedListing(v.read)
    ensures r.held == summary && r.required == required && r.incomplete == v.incomplete
    ensures r.findings == v.findings && r.findingsTotal == v.findingsTotal
    ensures r.checkpoints == CheckpointList(v.listed, v.more)
    ensures r.status == if v.findingsTotal > 0 then Invalid else if r.discontinuitiesTotal > 0 then Segmented else Valid
  {
    hide Matches, CutAfter, Repairs, Classes, Covers, Count, ChainHead, SettledLine, Seen, HeldTo, Through, Attests,
         CompleteLines, ReachOf, DiscontinuitiesOf, ClassOf, CloseSegment;
    var witnessed := Witnessed(v, options, reach);
    var head := HeadCheckpoint(v);
    v.EndSegment(v.lines, CutAfter(Repairs(v.read, |v.read|)).segments);
    InChainCounted(v.read, |v.read|);
    ChainedGrows(v.read, reach, |v.read|);
    var coverage := CoverageReport(
      v.coverage.legacyPrefix, v.coverage.chained, v.coverage.unchained, v.coverage.damaged, v.pendingUnchained,
      if !options.Supplied() then NotSupplied else if reach == 0 then NotReached else Reached(reach),
      witnessed, v.coverage.chained - witnessed, countersigned);
    r := ChainReport(
      v.lines, |v.contents|, head, coverage, summary, v.segments, v.segmentsTotal,
      v.discontinuities, v.discontinuitiesTotal, v.incomplete, v.findings, v.findingsTotal, required,
      if v.findingsTotal > 0 then Invalid else if v.discontinuitiesTotal > 0 then Segmented else Valid,
      CheckpointList(v.listed, v.more));
  }

  /** How many chained records the checkpoint the coverage reaches commits to. */
  method Witnessed(v: TrailVerifier, options: Options, reach: nat) returns (witnessed: nat)
    requires v.Counted() && options.Valid() && reach == ReachOf(v.h, v.contents, options)
    requires forall c | c in options.held + options.Credited() :: c.sequence in v.wanted
    ensures reach <= |v.read| && witnessed == ChainedUpTo(v.read, reach)
  {
    hide ChainHead, CompleteLines, ReachOf, ListingOf, HeldAmong, CountsOf, ChainedAmong, ClassOf, ListedOf;
    ReachIsCounted(v.wanted, v.h, v.contents, options);
    if reach == 0 {
      return 0;
    }
    witnessed := v.chainedAt[reach];
  }

  /** Where the coverage reaches a line, the chained records up to it were counted. */
  lemma ReachIsCounted(wanted: set<nat>, h: Hash, file: Bytes, options: Options)
    requires options.Valid() && forall c | c in options.held + options.Credited() :: c.sequence in wanted
    ensures var lines, reach := CompleteLines(file), ReachOf(h, file, options);
            var counted := ChainedAmong(wanted, lines, |lines|);
            reach <= |lines| && (reach > 0 ==> reach in counted && counted[reach] == ChainedUpTo(lines, reach))
  {
    hide ReachOf, CompleteLines, ClassOf, Count, Covers, Classes, ChainedUpTo;
    if ReachOf(h, file, options) > 0 {
      ReachIsKept(h, file, options);
      InChainCounted(CompleteLines(file), ReachOf(h, file, options));
    }
  }

  lemma ReachIsKept(h: Hash, file: Bytes, options: Options)
    requires options.Valid() && ReachOf(h, file, options) > 0
    ensures var lines, reach := CompleteLines(file), ReachOf(h, file, options);
            && reach <= |lines| && ClassOf(lines, reach - 1).ChainedLine?
            && exists c :: c in options.held + options.Credited() && c.sequence == reach
  {
    hide ReachOf, CompleteLines, SoundThrough, Damaged, LinkOf;
    ReachIsHighest(h, file, options);
    var lines, reach := CompleteLines(file), ReachOf(h, file, options);
    var c :| c in options.held + options.Credited() && c.sequence == reach && Attests(h, lines, options, c);
    MatchesOwnLine(h, lines, c);
  }

  /** The head of the report, from the one settled line kept for it. */
  method HeadCheckpoint(v: TrailVerifier) returns (head: Option<Checkpoint>)
    requires v.Counted()
    ensures head == HeadOf(v.h, v.read)
  {
    hide CutAfter, Repairs, CountsOf, ChainedAmong, ListingOf, LogOf, HeldAmong, LinkOf, Excuses, CompleteLines;
    HeadIsLinked(v.h, v.read, |v.read|);
    if v.head.None? {
      return None;
    }
    return Some(Checkpoint(v.head.value.link.value.trail, v.head.value.number, v.head.value.digest));
  }

  /** The index of the last chained record that is not damaged, among the first k lines. */
  function HeadIndex(lines: seq<Bytes>, k: nat): (i: Option<nat>)
    requires k <= |lines|
    ensures i.Some? ==> i.value < k && ClassOf(lines, i.value).ChainedLine?
    ensures forall j: nat | j < k && ClassOf(lines, j).ChainedLine? :: i.Some? && j <= i.value
  {
    if k == 0 then None else if ClassOf(lines, k - 1).ChainedLine? then Some(k - 1) else HeadIndex(lines, k - 1)
  }

  function HeadOf(h: Hash, lines: seq<Bytes>): Option<Checkpoint> {
    match HeadIndex(lines, |lines|)
    case None => None
    case Some(i) => Some(CheckpointOf(h, lines, i))
  }

  lemma {:induction false} HeadIsLinked(h: Hash, lines: seq<Bytes>, k: nat)
    requires k <= |lines|
    ensures match HeadIndex(lines, k)
            case None => ChainHead(h, lines, k) == None
            case Some(i) => ChainHead(h, lines, k) == Some(Seen(h, lines, i)) && LinkOf(lines[i]).Some?
  {
    hide Seen, LinkOf, Damaged;
    if k > 0 && !ClassOf(lines, k - 1).ChainedLine? {
      HeadIsLinked(h, lines, k - 1);
    }
  }

  /** Each count is of the lines covered so. */
  predicate CountedIn(coverage: CoverageReport, lines: seq<Bytes>) {
    var covers := Covers(Classes(lines, |lines|));
    && coverage.legacyPrefix == Count(covers, InLegacyPrefix) && coverage.chained == Count(covers, InChain)
    && coverage.unchained == Count(covers, BetweenChained) && coverage.damaged == Count(covers, AsDamaged)
    && coverage.uncovered == Count(covers, Uncovered)
  }

  /** What is listed once the last segment is closed. */
  function ClosedListing(lines: seq<Bytes>): Listing {
    var found, segments := DiscontinuitiesOf(lines, |lines|), Segments(Repairs(lines, |lines|));
    Listing(First(MAX_LISTED, found), |found|, First(MAX_LISTED, segments), |segments|, 0)
  }

  /** As many discontinuities are listed or counted as lines are damaged. */
  lemma {:induction false} DiscontinuitiesCounted(lines: seq<Bytes>, n: nat)
    requires n <= |lines|
    ensures |DiscontinuitiesOf(lines, n)| == CountRepairs(Repairs(lines, n))
  {
    hide Excuses, CountRepairs;
    if n == 0 {
      NoRepairs();
    } else {
      DiscontinuitiesCounted(lines, n - 1);
      RepairsSnoc(lines, n - 1);
    }
  }

  lemma NoRepairs()
    ensures CountRepairs([]) == 0
  {
  }

  lemma Conserved(coverage: CoverageReport, lines: seq<Bytes>)
    requires CountedIn(coverage, lines)
    ensures coverage.legacyPrefix + coverage.chained + coverage.unchained + coverage.uncovered + coverage.damaged ==
            |lines|
    ensures coverage.damaged == |DiscontinuitiesOf(lines, |lines|)|
  {
    hide Repairs, Count, Covers, Classes, CountRepairs, DiscontinuitiesOf;
    EachLineCountedOnce(Covers(Classes(lines, |lines|)));
    DamagedAreExcused(lines, |lines|);
    DiscontinuitiesCounted(lines, |lines|);
  }

  /** A report says of a trail what the whole list of its lines and the checkpoints supplied say. */
  ghost predicate Reports(h: Hash, contents: Bytes, options: Options, r: ChainReport) {
    var lines, recorded := CompleteLines(contents), Everything(h, contents, options);
    && r.lines == |lines| && r.bytes == |contents| && r.head == HeadOf(h, lines)
    && r.incomplete == IncompleteOf(h, contents) && r.checkpoints == ListedOf(h, options.asked, lines, |lines|)
    && r.findings == First(MAX_FINDINGS, recorded) && r.findingsTotal == |recorded|
    && r.status == (if recorded != [] then Invalid else if r.discontinuitiesTotal > 0 then Segmented else Valid)
    && CountedIn(r.coverage, lines)
    && Listing(r.discontinuities, r.discontinuitiesTotal, r.segments, r.segmentsTotal, 0) == ClosedListing(lines)
    && ReachOf(h, contents, options) <= r.lines
    && r.coverage.witnessed == ChainedUpTo(lines, ReachOf(h, contents, options))
    && r.coverage.countersigned == CountersignedThrough(h, contents, options)
    && r.held == SummaryOf(h, contents, options) && r.required == RequirementOf(h, contents, options)
    && r.coverage.checkpointed == (if !options.Supplied() then NotSupplied
                                   else if ReachOf(h, contents, options) == 0 then NotReached
                                   else Reached(ReachOf(h, contents, options)))
  }

  /** Whatever the trail, what is counted adds up. */
  predicate AddsUp(contents: Bytes, r: ChainReport) {
    && r.coverage.legacyPrefix + r.coverage.chained + r.coverage.unchained + r.coverage.uncovered + r.coverage.damaged ==
       r.lines
    && r.coverage.damaged == r.discontinuitiesTotal
    && r.coverage.witnessed + r.coverage.unwitnessed == r.coverage.chained
    && (r.incomplete.Some? <==> contents != [] && contents[|contents| - 1] != '\n')
  }

  /** The report of a trail that is read through; limit is the earliest line found wrong before any requirement. */
  method ReportRead(v: TrailVerifier, options: Options) returns (r: ChainReport, limit: nat, failed: seq<Finding>)
    modifies v
    requires v.Counted() && options.Valid() && v.incomplete == IncompleteOf(v.h, v.contents) && v.asked == options.asked
    requires Log(v.findings, v.findingsTotal, v.earliestFinding) == LogOf(StampedTo(v.h, v.contents, options))
    requires forall c | c in options.held + options.Verified() :: c.sequence in v.wanted
    ensures Reports(v.h, v.contents, options, r) && AddsUp(v.contents, r)
    ensures limit == Earliest(HeldTo(v.h, v.contents, options))
    ensures Everything(v.h, v.contents, options) == StampedTo(v.h, v.contents, options) + failed
  {
    hide LogOf, ClosedListing, CountedIn, HeldTo, Everything, ReachOf, CompleteLines, HeadOf, SummaryOf, RequirementOf,
         CountersignedThrough, ChainedUpTo, DigestOf, Tail, Sorted, First, StampedTo, Earliest, ListedOf, ListingOf,
         TallyOf, HeldAmong, DiscontinuitiesOf;
    TailAfterNewline(v.contents);
    var summary, reach, countersigned;
    summary, reach, countersigned, failed := CheckHeld(v, options);
    EarliestLogged(HeldTo(v.h, v.contents, options));
    limit := v.earliestFinding;
    var required := CheckRequirement(v, options, reach);
    RequiredLast(v.h, v.contents, options, failed);
    if required.Unmet? {
      failed := failed + [Finding(CheckpointCoverageMissing, options.requireThrough)];
    }
    EverythingLogged(Everything(v.h, v.contents, options));
    r := Compose(v, options, summary, reach, countersigned, required);
    Conserved(r.coverage, v.read);
    ListedAll(v.read);
  }

  /** Verifies a trail, with the checkpoints supplied for it. */
  method Verify(h: Hash, contents: Bytes, options: Options) returns (r: ChainReport)
    requires options.Valid()
    ensures Reports(h, contents, options, r) && AddsUp(contents, r)
  {
    hide Reports, AddsUp, AllFindings, HoldEach, LogOf, DigestOf, CompleteLines, Tail;
    var wanted := set c | c in options.held + options.Verified() + options.stamped :: c.sequence;
    var v := ReadAll(h, contents, wanted, options.asked);
    var trusted, mismatched := HoldAll(v, options.stamped, true, AllFindings(h, contents));
    var limit, failed;
    r, limit, failed := ReportRead(v, options);
  }

  lemma RequiredLast(h: Hash, file: Bytes, options: Options, failed: seq<Finding>)
    requires HeldTo(h, file, options) == StampedTo(h, file, options) + failed
    ensures var more := if RequirementOf(h, file, options).Unmet?
                        then failed + [Finding(CheckpointCoverageMissing, options.requireThrough)] else failed;
            Everything(h, file, options) == StampedTo(h, file, options) + more
  {
    hide StampedTo, HeldTo, ReachOf;
  }

  lemma EverythingLogged(recorded: seq<Finding>)
    ensures LogOf(recorded).findings == First(MAX_FINDINGS, recorded) && LogOf(recorded).total == |recorded|
  {
  }

  lemma ListedAll(lines: seq<Bytes>)
    ensures ClosedListing(lines).discontinuitiesTotal == |DiscontinuitiesOf(lines, |lines|)|
  {
  }
}
