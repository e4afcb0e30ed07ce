/**
 A verification with all it may be given: the trail is read once, with its sidecar and its stamps' intervals beside it;
 then trusted stamps, a witness's statements and held checkpoints are compared with what was read, and each coverage is
 drawn from the same failed checks.
 */
module Verification {
  import opened Octets
  import opened Chain
  import opened Coverage
  import opened Sidecar
  import opened Signatures
  import opened SignatureReader
  import opened Verifier
  import opened Listings
  import opened Checkpoints
  import opened Report
  import opened Together
  import opened OneList
  import Stamps
  import Witness
  import WitnessReader

  /** A stamp whose token is trusted: the checkpoint it is kept with, and the time it attests. */
  datatype TrustedStamp = TrustedStamp(checkpoint: Checkpoint, existedBy: int)

  /** A witness's statements, and the sequence they are required to countersign through, 0 being none. */
  datatype WitnessInput = WitnessInput(reader: Witness.Reader, supplied: Witness.Supplied, requireThrough: nat)

  datatype Inputs = Inputs(
    held: seq<Checkpoint>, requireThrough: nat, asked: Option<ListRequest>,
    scheme: Scheme, signatures: SignatureOptions, sidecar: Bytes, requireSigned: nat,
    stamps: seq<TrustedStamp>, untrusted: seq<TokenFinding>, clock: Clock, requireStamped: nat,
    witnessed: Option<WitnessInput>) {

    predicate Valid() {
      && signatures.keys != []
      && (forall c | c in held :: c.sequence > 0)
      && (forall t | t in stamps :: t.checkpoint.sequence > 0)
      && (witnessed.Some? ==> witnessed.value.supplied.Valid())
    }
  }

  datatype WholeReport = WholeReport(chain: ChainReport, reading: Option<WitnessReader.WitnessReading>,
                                     signed: SignedCoverage, lag: Stamps.Lag, stamped: nat,
                                     findings: seq<AnyFinding>, findingsTotal: nat, status: Status,
                                     continuation: Option<Witness.Continuation>)

  // ----- What is drawn from what -----

  function CheckpointsOf(stamps: seq<TrustedStamp>): seq<Checkpoint> {
    seq(|stamps|, i requires 0 <= i < |stamps| => stamps[i].checkpoint)
  }

  function StatedCheckpoints(statements: seq<Witness.Statement>): seq<Checkpoint> {
    seq(|statements|, i requires 0 <= i < |statements| => statements[i].checkpoint)
  }

  /** Each stamp with whether its checkpoint is one of the trail's. */
  function CandidatesOf(h: Hash, lines: seq<Bytes>, stamps: seq<TrustedStamp>): seq<Stamps.Candidate> {
    seq(|stamps|, i requires 0 <= i < |stamps| => CandidateOf(stamps[i], Matches(h, lines, stamps[i].checkpoint)))
  }

  function CandidateOf(stamp: TrustedStamp, matches: bool): Stamps.Candidate {
    Stamps.Candidate(stamp.checkpoint.sequence, stamp.existedBy, matches)
  }

  /** What the trail is held to, once the witness's statements are read. */
  function OptionsOf(inputs: Inputs, reading: Option<WitnessReader.WitnessReading>): Options {
    Options(inputs.held,
            if reading.Some? then Some(Statements(StatedCheckpoints(reading.value.verified), reading.value.clean))
            else None,
            CheckpointsOf(inputs.stamps), inputs.requireThrough, inputs.asked)
  }

  /** The identity statements are read against: that of the last undamaged chained line. */
  function TrailOf(h: Hash, lines: seq<Bytes>): Bytes {
    match HeadOf(h, lines)
    case None => []
    case Some(head) => head.trail
  }

  /** The statements are read as their set decides, against the trail's own identity. */
  ghost predicate ReadingIs(input: WitnessInput, trail: Bytes, reading: WitnessReader.WitnessReading) {
    var r, supplied := input.reader, input.supplied;
    var statements, resume, head :=
      Witness.StatementsOf(r, supplied), Witness.ResumedFrom(supplied), Witness.HeadOf(r, supplied);
    && (reading.clean <==> Witness.WellFormed(r, supplied) && Witness.Clean(r, trail, statements, resume, head))
    && (reading.clean <==> reading.findings == [])
    && (reading.clean ==> reading.ending == Witness.EndingOf(statements, resume) && reading.head == head)
    && (forall st :: st in reading.verified <==>
          st in statements && Witness.Passes(r, trail, st) && st.kind.CheckpointKind?)
  }

  /** The highest stamp that attests is how far the trail is stamped. */
  ghost predicate StampedThrough(h: Hash, lines: seq<Bytes>, options: Options, stamps: seq<TrustedStamp>, through: nat) {
    && (through > 0 ==>
          exists t :: t in stamps && t.checkpoint.sequence == through && Attests(h, lines, options, t.checkpoint))
    && (forall t | t in stamps && Attests(h, lines, options, t.checkpoint) :: t.checkpoint.sequence <= through)
  }

  // ----- Stamps -----

  lemma OneMoreStamp(h: Hash, lines: seq<Bytes>, stamps: seq<TrustedStamp>, i: nat, recorded: seq<Finding>)
    requires i < |stamps|
    ensures var c, before := stamps[i].checkpoint, HoldEach(h, lines, CheckpointsOf(stamps[..i]), true, recorded);
            && CandidatesOf(h, lines, stamps[..i + 1]) ==
               CandidatesOf(h, lines, stamps[..i]) + [CandidateOf(stamps[i], Matches(h, lines, c))]
            && HoldEach(h, lines, CheckpointsOf(stamps[..i + 1]), true, recorded) ==
               if Matches(h, lines, c) then before else before + [Finding(StampCheckpointMismatch, c.sequence)]
  {
    hide HoldCheckpoint;
    assert stamps[..i + 1] == stamps[..i] + [stamps[i]];
    assert CheckpointsOf(stamps[..i + 1]) == CheckpointsOf(stamps[..i]) + [stamps[i].checkpoint];
    assert CheckpointsOf(stamps[..i + 1])[..i] == CheckpointsOf(stamps[..i]);
  }

  /** Compares every trusted stamp's checkpoint with the trail; one that is not the trail's is a finding. */
  method MatchStamps(v: TrailVerifier, stamps: seq<TrustedStamp>, ghost recorded: seq<Finding>)
    returns (candidates: seq<Stamps.Candidate>, failed: seq<Finding>)
    modifies v`findings, v`findingsTotal, v`earliestFinding
    requires v.Counted() && forall t | t in stamps :: t.checkpoint.sequence in v.wanted
    requires Log(v.findings, v.findingsTotal, v.earliestFinding) == LogOf(recorded)
    ensures v.Counted() && candidates == CandidatesOf(v.h, v.read, stamps)
    ensures HoldEach(v.h, v.read, CheckpointsOf(stamps), true, recorded) == recorded + failed
    ensures Log(v.findings, v.findingsTotal, v.earliestFinding) ==
            LogOf(HoldEach(v.h, v.read, CheckpointsOf(stamps), true, recorded))
  {
    hide LogOf, HoldCheckpoint, CandidatesOf, HoldEach, CheckpointsOf, TrailVerifier.Counted;
    candidates, failed := [], [];
    NoStamps(v.h, v.read, recorded);
    var i := 0;
    while i < |stamps|
      invariant 0 <= i <= |stamps| && v.Counted()
      invariant candidates == CandidatesOf(v.h, v.read, stamps[..i])
      invariant HoldEach(v.h, v.read, CheckpointsOf(stamps[..i]), true, recorded) == recorded + failed
      invariant Log(v.findings, v.findingsTotal, v.earliestFinding) == LogOf(recorded + failed)
    {
      OneMoreStamp(v.h, v.read, stamps, i, recorded);
      var c := stamps[i].checkpoint;
      var name := HoldAgainst(v, c);
      if name.Some? {
        v.Record(Finding(StampCheckpointMismatch, c.sequence), recorded + failed);
        failed := failed + [Finding(StampCheckpointMismatch, c.sequence)];
      }
      candidates := candidates + [CandidateOf(stamps[i], name.None?)];
      i := i + 1;
    }
    assert stamps[..i] == stamps;
  }

  lemma NoStamps(h: Hash, lines: seq<Bytes>, recorded: seq<Finding>)
    ensures CandidatesOf(h, lines, []) == [] && HoldEach(h, lines, CheckpointsOf([]), true, recorded) == recorded
    ensures recorded + [] == recorded
  {
  }

  /** A stamp lends its time exactly when its checkpoint attests, with the limit that the held checks leave. */
  lemma LendsIsAttests(h: Hash, file: Bytes, options: Options, stamp: TrustedStamp)
    requires options.Valid() && stamp.checkpoint.sequence > 0
    ensures var lines := CompleteLines(file);
            Stamps.Lends(CandidateOf(stamp, Matches(h, lines, stamp.checkpoint)), Earliest(HeldTo(h, file, options))) <==>
            Attests(h, lines, options, stamp.checkpoint)
  {
    hide Matches, HeldTo, Earliest, SoundThrough, CompleteLines;
    if Matches(h, CompleteLines(file), stamp.checkpoint) {
      ClearIsAttested(h, file, options, stamp.checkpoint);
    }
  }

  lemma LentIsStamped(h: Hash, file: Bytes, options: Options, stamps: seq<TrustedStamp>, through: nat)
    requires options.Valid() && forall t | t in stamps :: t.checkpoint.sequence > 0
    requires var candidates, limit := CandidatesOf(h, CompleteLines(file), stamps), Earliest(HeldTo(h, file, options));
             && (forall c | c in candidates && Stamps.Lends(c, limit) :: c.sequence <= through)
             && (through > 0 ==> exists c :: c in candidates && Stamps.Lends(c, limit) && c.sequence == through)
    ensures StampedThrough(h, CompleteLines(file), options, stamps, through)
  {
    hide Matches, HeldTo, Earliest, CompleteLines, Attests, Stamps.Lends;
    var lines, limit := CompleteLines(file), Earliest(HeldTo(h, file, options));
    var candidates := CandidatesOf(h, lines, stamps);
    forall i | 0 <= i < |stamps|
      ensures Stamps.Lends(candidates[i], limit) <==> Attests(h, lines, options, stamps[i].checkpoint)
      ensures candidates[i].sequence == stamps[i].checkpoint.sequence
    {
      LendsIsAttests(h, file, options, stamps[i]);
    }
    forall t | t in stamps && Attests(h, lines, options, t.checkpoint)
      ensures t.checkpoint.sequence <= through
    {
      var i :| 0 <= i < |stamps| && stamps[i] == t;
      assert candidates[i] in candidates;
    }
    if through > 0 {
      var c :| c in candidates && Stamps.Lends(c, limit) && c.sequence == through;
      var i :| 0 <= i < |candidates| && candidates[i] == c;
      assert stamps[i] in stamps;
    }
  }

  // ----- A witness -----

  /** Every number some checkpoint supplied names, whether or not it will count. */
  function Wanted(inputs: Inputs): set<nat> {
    (set c | c in inputs.held :: c.sequence) + (set t | t in inputs.stamps :: t.checkpoint.sequence)
    + match inputs.witnessed
      case None => {}
      case Some(w) => set st | st in Witness.StatementsOf(w.reader, w.supplied) :: st.checkpoint.sequence
  }

  /** What is drawn from valid inputs is valid, and everything it names is kept while the trail is read. */
  lemma DrawnIsKept(inputs: Inputs, trail: Bytes, reading: Option<WitnessReader.WitnessReading>)
    requires inputs.Valid()
    requires reading.Some? ==> inputs.witnessed.Some? && ReadingIs(inputs.witnessed.value, trail, reading.value)
    ensures var options := OptionsOf(inputs, reading);
            && options.Valid()
            && forall c | c in options.held + options.Verified() :: c.sequence in Wanted(inputs)
    ensures forall t | t in inputs.stamps :: t.checkpoint.sequence in Wanted(inputs)
  {
    hide Witness.Passes, Witness.Clean, Witness.WellFormed;
    var options := OptionsOf(inputs, reading);
    if reading.Some? {
      var w, verified := inputs.witnessed.value, reading.value.verified;
      forall i | 0 <= i < |verified|
        ensures verified[i].checkpoint.sequence > 0 && verified[i].checkpoint.sequence in Wanted(inputs)
      {
        assert verified[i] in verified;
        StatementIsPositive(w, verified[i]);
      }
    }
  }

  lemma StatementIsPositive(w: WitnessInput, st: Witness.Statement)
    requires w.supplied.Valid() && st in Witness.StatementsOf(w.reader, w.supplied)
    ensures st.checkpoint.sequence > 0
  {
  }

  /**
   The countersigned coverage, from the statements supplied: it is there only when their set reads clean, and then it
   is the highest checkpoint statement whose checkpoint attests.
   */
  lemma CountersignedIs(h: Hash, file: Bytes, inputs: Inputs, reading: WitnessReader.WitnessReading)
    requires inputs.Valid() && inputs.witnessed.Some?
    requires ReadingIs(inputs.witnessed.value, TrailOf(h, CompleteLines(file)), reading)
    ensures var w, lines, options := inputs.witnessed.value, CompleteLines(file), OptionsOf(inputs, Some(reading));
            var countersigned := CountersignedThrough(h, file, options);
            && (countersigned.Some? ==>
                  && reading.clean && Attests(h, lines, options, countersigned.value)
                  && exists st :: st in Witness.StatementsOf(w.reader, w.supplied) && st.kind.CheckpointKind?
                                  && st.checkpoint == countersigned.value && !WitnessReader.Forged(w.reader, st))
            && (forall st | reading.clean && st in Witness.StatementsOf(w.reader, w.supplied) && st.kind.CheckpointKind?
                            && Attests(h, lines, options, st.checkpoint) ::
                  countersigned.Some? && st.checkpoint.sequence <= countersigned.value.sequence)
  {
    hide Matches, HeldTo, Earliest, CompleteLines, SoundThrough, Through, Witness.StatementsOf, Witness.Passes,
         WitnessReader.Forged;
    var w, options := inputs.witnessed.value, OptionsOf(inputs, Some(reading));
    var lines, limit := CompleteLines(file), Earliest(HeldTo(h, file, options));
    DrawnIsKept(inputs, TrailOf(h, lines), Some(reading));
    ThroughIsHighest(h, lines, options.Credited(), limit);
    forall st {
      WitnessReader.PassesIs(w.reader, TrailOf(h, lines), st);
    }
    forall i | 0 <= i < |reading.verified|
      ensures options.Verified()[i] == reading.verified[i].checkpoint && options.Verified()[i] in options.Verified()
      ensures reading.verified[i] in reading.verified
      ensures Matches(h, lines, reading.verified[i].checkpoint) ==>
                (Clear(limit, reading.verified[i].checkpoint.sequence) <==>
                 Attests(h, lines, options, reading.verified[i].checkpoint))
    {
      if Matches(h, lines, reading.verified[i].checkpoint) {
        ClearIsAttested(h, file, options, reading.verified[i].checkpoint);
      }
    }
  }

  /** How late the stamps attest the records read, and how far the trail is stamped. */
  method CoverStamps(h: Hash, contents: Bytes, inputs: Inputs, options: Options, gathered: Stamps.StampChecker,
                     candidates: seq<Stamps.Candidate>, limit: nat)
    returns (lag: Stamps.Lag, stamped: nat)
    requires inputs.Valid() && options.Valid() && limit == Earliest(HeldTo(h, contents, options))
    requires candidates == CandidatesOf(h, CompleteLines(contents), inputs.stamps)
    requires gathered.Valid() && Stamps.SequencesOf(gathered.sequences, candidates)
    requires gathered.settled == RecordsOf(inputs.clock, CompleteLines(contents), |CompleteLines(contents)|)
    ensures Stamps.IsLag(candidates, limit, gathered.settled, lag)
    ensures Stamps.LagsUpTo(candidates, limit, gathered.settled, stamped)
    ensures StampedThrough(h, CompleteLines(contents), options, inputs.stamps, stamped)
  {
    hide CompleteLines, Stamps.IsLag, Stamps.SequencesOf, Stamps.StampChecker.Valid, HeldTo, Earliest, StampedThrough,
         Stamps.Lends, Stamps.LagsUpTo, Matches, RecordsOf;
    lag := gathered.Coverage(candidates, limit);
    stamped := Stamps.Through(candidates, limit);
    LentIsStamped(h, contents, options, inputs.stamps, stamped);
    RecordsArePositive(inputs.clock, CompleteLines(contents), |CompleteLines(contents)|);
    Stamps.LagsUpToHighest(candidates, limit, gathered.settled, stamped);
  }

  // ----- The one list -----

  /** What follows the first n of these. */
  function Since<T>(all: seq<T>, n: nat): seq<T> { if n <= |all| then all[n..] else [] }

  function Required(required: nat, through: nat, name: CoverageName): seq<AnyFinding> {
    if required > 0 && through < required then [OfCoverage(name, required)] else []
  }

  function WitnessFindings(reading: Option<WitnessReader.WitnessReading>): seq<AnyFinding> {
    if reading.Some? then Witnesses(reading.value.findings) else []
  }

  function CountersignedMissing(inputs: Inputs, countersigned: nat): seq<AnyFinding> {
    if inputs.witnessed.None? then []
    else Required(inputs.witnessed.value.requireThrough, countersigned, CountersignedCoverageMissing)
  }

  /**
   What is recorded once trail and sidecar are read: stamps that do not match, what is wrong with the statements, held
   checkpoints that fail and their requirement, what is required of countersigning and of signatures, the stamps whose
   tokens are not trusted, and what is required of stamps.
   */
  function RestOf(inputs: Inputs, reading: Option<WitnessReader.WitnessReading>, unmatched: seq<Finding>,
                  failed: seq<Finding>, countersigned: nat, signedMet: bool, stamped: nat): seq<AnyFinding>
  {
    Trails(unmatched) + WitnessFindings(reading) + Trails(failed) + CountersignedMissing(inputs, countersigned)
    + Sidecars(if signedMet then [] else [SignatureFinding(SignatureMissing, inputs.requireSigned)])
    + Tokens(inputs.untrusted) + Required(inputs.requireStamped, stamped, StampCoverageMissing)
  }

  /** Everything found, in the order it is recorded. */
  ghost function WholeList(h: Hash, contents: Bytes, inputs: Inputs, r: WholeReport): seq<AnyFinding>
    requires inputs.Valid()
  {
    var options := OptionsOf(inputs, r.reading);
    var read, matched := AllFindings(h, contents), StampedTo(h, contents, options);
    var all := Everything(h, contents, options);
    ReadFindings(Beside(inputs.scheme, h, CompleteLines(contents)), inputs.signatures, inputs.sidecar, Tail(contents))
    + RestOf(inputs, r.reading, Since(matched, |read|), Since(all, |matched|),
             SequenceOf(CountersignedThrough(h, contents, options)), r.signed.requirementMet, r.stamped)
  }

  lemma SinceAll<T>(before: seq<T>, more: seq<T>, all: seq<T>)
    requires all == before + more
    ensures Since(all, |before|) == more
  {
  }

  /** What a later reading of the statements goes on from: it is there only when nothing at all was found. */
  function Continued(reading: Option<WitnessReader.WitnessReading>, found: nat): Option<Witness.Continuation> {
    if reading.None? || !reading.value.clean || found > 0 then None
    else
      match (reading.value.ending.last, reading.value.ending.latest)
      case (Some(last), Some(latest)) => Some(Witness.Continuation(last, latest))
      case _ => None
  }

  /** The report's one list, its status and what it lets a later reading go on from are drawn from everything found. */
  ghost predicate ListsAll(h: Hash, contents: Bytes, inputs: Inputs, r: WholeReport)
    requires inputs.Valid()
  {
    var all := WholeList(h, contents, inputs, r);
    && FindingLog(r.findings, r.findingsTotal) == Logged(all)
    && r.status == (if all != [] then Invalid else if r.chain.discontinuitiesTotal > 0 then Segmented else Valid)
    && r.continuation == Continued(r.reading, |all|)
  }

  method RecordRest(log: FindingLog, inputs: Inputs, reading: Option<WitnessReader.WitnessReading>,
                    unmatched: seq<Finding>, failed: seq<Finding>, countersigned: nat, signedMet: bool, stamped: nat,
                    ghost read: seq<AnyFinding>)
    returns (now: FindingLog)
    requires log == Logged(read)
    ensures now == Logged(read + RestOf(inputs, reading, unmatched, failed, countersigned, signedMet, stamped))
  {
    hide Logged;
    ghost var all := read;
    now := log;
    var parts := [Trails(unmatched), WitnessFindings(reading), Trails(failed),
                  CountersignedMissing(inputs, countersigned),
                  Sidecars(if signedMet then [] else [SignatureFinding(SignatureMissing, inputs.requireSigned)]),
                  Tokens(inputs.untrusted), Required(inputs.requireStamped, stamped, StampCoverageMissing)];
    now := Append(now, parts[0], all);
    now := Append(now, parts[1], all + parts[0]);
    now := Append(now, parts[2], all + parts[0] + parts[1]);
    now := Append(now, parts[3], all + parts[0] + parts[1] + parts[2]);
    now := Append(now, parts[4], all + parts[0] + parts[1] + parts[2] + parts[3]);
    now := Append(now, parts[5], all + parts[0] + parts[1] + parts[2] + parts[3] + parts[4]);
    now := Append(now, parts[6], all + parts[0] + parts[1] + parts[2] + parts[3] + parts[4] + parts[5]);
    assert all + parts[0] + parts[1] + parts[2] + parts[3] + parts[4] + parts[5] + parts[6] ==
           read + (parts[0] + parts[1] + parts[2] + parts[3] + parts[4] + parts[5] + parts[6]);
  }

  /** The whole report, with what is left recorded. */
  method Conclude(h: Hash, contents: Bytes, inputs: Inputs, chain: ChainReport,
                  reading: Option<WitnessReader.WitnessReading>, signed: SignedCoverage, lag: Stamps.Lag, stamped: nat, log: FindingLog, unmatched: seq<Finding>,
                  failed: seq<Finding>)
    returns (r: WholeReport)
    requires inputs.Valid()
    requires log == Logged(ReadFindings(Beside(inputs.scheme, h, CompleteLines(contents)), inputs.signatures,
                                        inputs.sidecar, Tail(contents)))
    requires StampedTo(h, contents, OptionsOf(inputs, reading)) == AllFindings(h, contents) + unmatched
    requires Everything(h, contents, OptionsOf(inputs, reading)) ==
             StampedTo(h, contents, OptionsOf(inputs, reading)) + failed
    requires chain.coverage.countersigned == CountersignedThrough(h, contents, OptionsOf(inputs, reading))
    ensures r.chain == chain && r.reading == reading && r.signed == signed && r.lag == lag && r.stamped == stamped
    ensures ListsAll(h, contents, inputs, r)
  {
    hide ReadFindings, StampedTo, AllFindings, Everything, CountersignedThrough, RestOf, CompleteLines, Tail;
    SinceAll(AllFindings(h, contents), unmatched, StampedTo(h, contents, OptionsOf(inputs, reading)));
    SinceAll(StampedTo(h, contents, OptionsOf(inputs, reading)), failed,
             Everything(h, contents, OptionsOf(inputs, reading)));
    ghost var read := ReadFindings(Beside(inputs.scheme, h, CompleteLines(contents)), inputs.signatures, inputs.sidecar,
                                   Tail(contents));
    var all := RecordRest(log, inputs, reading, unmatched, failed, SequenceOf(chain.coverage.countersigned),
                          signed.requirementMet, stamped, read);
    r := WholeReport(chain, reading, signed, lag, stamped, all.listed, all.total,
                     if all.total > 0 then Invalid else if chain.discontinuitiesTotal > 0 then Segmented else Valid,
                     Continued(reading, all.total));
  }

  // ----- All of it -----

  /** Each part of a report says what the whole list of lines says, and the one list holds all that was found. */
  ghost predicate Told(h: Hash, contents: Bytes, inputs: Inputs, r: WholeReport) {
    var lines, options := CompleteLines(contents), OptionsOf(inputs, r.reading);
    && inputs.Valid() && (r.reading.Some? <==> inputs.witnessed.Some?)
    && (r.reading.Some? ==> ReadingIs(inputs.witnessed.value, TrailOf(h, lines), r.reading.value))
    && Reports(h, contents, options, r.chain) && AddsUp(contents, r.chain)
    && SignedAsRead(Beside(inputs.scheme, h, lines), inputs.signatures, inputs.sidecar, inputs.requireSigned, r.signed)
    && StampedThrough(h, lines, options, inputs.stamps, r.stamped) && ListsAll(h, contents, inputs, r)
  }

  /**
   Verifies a trail with all that may be supplied for it. Each part of the report says what the whole list of lines
   says, and the coverages agree on what failed: held and countersigned checkpoints, and stamps, count exactly when
   they attest.
   */
  method VerifyAll(h: Hash, contents: Bytes, inputs: Inputs) returns (r: WholeReport)
    requires inputs.Valid()
    ensures Told(h, contents, inputs, r)
    ensures var lines, options := CompleteLines(contents), OptionsOf(inputs, r.reading);
            && Stamps.IsLag(CandidatesOf(h, lines, inputs.stamps), Earliest(HeldTo(h, contents, options)),
                            RecordsOf(inputs.clock, lines, |lines|), r.lag)
            && Stamps.LagsUpTo(CandidatesOf(h, lines, inputs.stamps), Earliest(HeldTo(h, contents, options)),
                               RecordsOf(inputs.clock, lines, |lines|), r.stamped)
  {
    hide Reports, AddsUp, SignedAsRead, ReadingIs, AllFindings, HoldEach, LogOf, DigestOf, CompleteLines, Tail, Wanted,
         HeadOf, Finished, ReadSidecar, Stamps.IsLag, Stamps.SequencesOf, Stamps.StampChecker.Valid, HeldTo, Earliest,
         StampedThrough, Stamps.Lends, Stamps.LagsUpTo, ListingOf, TallyOf, HeldAmong, IncompleteOf, Matches, RecordsOf,
         TrailVerifier.Counted, ReadFindings, Logged, Everything, CountersignedThrough, ListsAll, Stamps.Ascending;
    var unmatched := seq(|inputs.stamps|, i requires 0 <= i < |inputs.stamps| => CandidateOf(inputs.stamps[i], false));
    var sequences := Stamps.StampedSequences(unmatched);
    Stamps.AscendingOf(sequences, unmatched);
    var v, checker, gathered, log :=
      ReadTogether(h, contents, Wanted(inputs), inputs.asked, inputs.scheme, inputs.signatures, inputs.sidecar,
                   sequences, inputs.clock);
    v.CountedAll();
    DrawnIsKept(inputs, [], None);
    var candidates, unmatchedFound := MatchStamps(v, inputs.stamps, AllFindings(h, contents));
    SameSequences(sequences, unmatched, candidates);
    var head := HeadCheckpoint(v);
    var trail := if head.Some? then head.value.trail else [];
    var reading := None;
    if inputs.witnessed.Some? {
      var read := ReadStatements(inputs.witnessed.value, trail);
      reading := Some(read);
    }
    DrawnIsKept(inputs, trail, reading);
    var chain, limit, failed := ReportRead(v, OptionsOf(inputs, reading));
    ChainedIs(h, contents, OptionsOf(inputs, reading), chain);
    var signed := ReportSigned(checker, chain.coverage.chained, inputs.requireSigned);
    var lag, stamped := CoverStamps(h, contents, inputs, OptionsOf(inputs, reading), gathered, candidates, limit);
    r := Conclude(h, contents, inputs, chain, reading, signed, lag, stamped, log, unmatchedFound, failed);
  }

  method ReadStatements(input: WitnessInput, trail: Bytes) returns (reading: WitnessReader.WitnessReading)
    ensures ReadingIs(input, trail, reading)
  {
    hide Witness.StatementsOf, Witness.Passes, Witness.Clean, Witness.WellFormed, Witness.EndingOf, Witness.HeadOf;
    reading := WitnessReader.Read(input.reader, input.supplied, trail);
  }

  lemma SameSequences(sequences: seq<nat>, before: seq<Stamps.Candidate>, after: seq<Stamps.Candidate>)
    requires Stamps.SequencesOf(sequences, before) && |before| == |after|
    requires forall i | 0 <= i < |after| :: after[i].sequence == before[i].sequence
    ensures Stamps.SequencesOf(sequences, after)
  {
    forall c | c in after
      ensures c.sequence in sequences
    {
      var i :| 0 <= i < |after| && after[i] == c;
      assert before[i] in before;
    }
  }

  lemma ChainedIs(h: Hash, contents: Bytes, options: Options, r: ChainReport)
    requires Reports(h, contents, options, r)
    ensures r.coverage.chained == ChainedUpTo(CompleteLines(contents), |CompleteLines(contents)|)
    ensures r.coverage.countersigned == CountersignedThrough(h, contents, options)
  {
    hide Everything, HeadOf, CompleteLines, Count, Covers, Classes, SummaryOf, RequirementOf, CountersignedThrough,
         ReachOf;
    InChainCounted(CompleteLines(contents), |CompleteLines(contents)|);
  }

  // ----- What the one list holds -----

  lemma RestParts(inputs: Inputs, reading: Option<WitnessReader.WitnessReading>, unmatched: seq<Finding>,
                  failed: seq<Finding>, countersigned: nat, signedMet: bool, stamped: nat)
    ensures var rest := RestOf(inputs, reading, unmatched, failed, countersigned, signedMet, stamped);
            && TrailPart(rest) == unmatched + failed
            && SidecarPart(rest) ==
               (if signedMet then [] else [SignatureFinding(SignatureMissing, inputs.requireSigned)])
            && |rest| == |unmatched| + |failed| + |WitnessFindings(reading)|
                         + |CountersignedMissing(inputs, countersigned)| + (if signedMet then 0 else 1) + |inputs.untrusted|
                         + |Required(inputs.requireStamped, stamped, StampCoverageMissing)|
  {
    hide TrailPart, SidecarPart;
    var missing := if signedMet then [] else [SignatureFinding(SignatureMissing, inputs.requireSigned)];
    var a, b, c := Trails(unmatched), WitnessFindings(reading), Trails(failed);
    var d, e, f := CountersignedMissing(inputs, countersigned), Sidecars(missing), Tokens(inputs.untrusted);
    var g := Required(inputs.requireStamped, stamped, StampCoverageMissing);
    PartsOfTrails(unmatched);
    PartsOfTrails(failed);
    PartsOfSidecars(missing);
    PartsOfOthers(b);
    PartsOfOthers(d);
    PartsOfOthers(f);
    PartsOfOthers(g);
    PartsConcat(a, b);
    PartsConcat(a + b, c);
    PartsConcat(a + b + c, d);
    PartsConcat(a + b + c + d, e);
    PartsConcat(a + b + c + d + e, f);
    PartsConcat(a + b + c + d + e + f, g);
  }

  /**
   The one list holds what each reader found, in that reader's own order, and nothing else: the trail's findings with
   those of checkpoints and stamps held against it, the sidecar's, the witness's, the tokens', and coverage required and
   missing.
   */
  lemma ListHoldsEach(h: Hash, contents: Bytes, inputs: Inputs, r: WholeReport)
    requires inputs.Valid()
    requires SignedAsRead(Beside(inputs.scheme, h, CompleteLines(contents)), inputs.signatures, inputs.sidecar,
                          inputs.requireSigned, r.signed)
    ensures var all, options := WholeList(h, contents, inputs, r), OptionsOf(inputs, r.reading);
            var countersigned := SequenceOf(CountersignedThrough(h, contents, options));
            && TrailPart(all) == Everything(h, contents, options) && SidecarPart(all) == r.signed.found
            && |all| == |Everything(h, contents, options)| + |r.signed.found| + |WitnessFindings(r.reading)|
                        + |inputs.untrusted| + |CountersignedMissing(inputs, countersigned)|
                        + |Required(inputs.requireStamped, r.stamped, StampCoverageMissing)|
  {
    hide TrailPart, SidecarPart, ReadFindings, RestOf, StampedTo, Everything, CountersignedThrough, CompleteLines, Tail,
         ReadSidecar, Reported, IsThrough, OfRecords, ChainedUpTo, Required, WithTail, WitnessFindings,
         CountersignedMissing, Above;
    var options, b := OptionsOf(inputs, r.reading), Beside(inputs.scheme, h, CompleteLines(contents));
    var read, matched := AllFindings(h, contents), StampedTo(h, contents, options);
    var all := Everything(h, contents, options);
    EverythingExtends(h, contents, options);
    ReadParts(b, inputs.signatures, inputs.sidecar, Tail(contents));
    RestParts(inputs, r.reading, Since(matched, |read|), Since(all, |matched|),
              SequenceOf(CountersignedThrough(h, contents, options)), r.signed.requirementMet, r.stamped);
    PartsConcat(ReadFindings(b, inputs.signatures, inputs.sidecar, Tail(contents)),
                RestOf(inputs, r.reading, Since(matched, |read|), Since(all, |matched|),
                       SequenceOf(CountersignedThrough(h, contents, options)), r.signed.requirementMet, r.stamped));
    assert all == read + Since(matched, |read|) + Since(all, |matched|);
  }
}
