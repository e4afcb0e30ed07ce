/**
 What it takes for a whole verification to find nothing: of the trail's lines, of the checkpoints, signatures, stamps and
 statements supplied beside it, and of the coverage required; and, of one that finds something, what each finding says.
 */
module Accepted {
  import opened Octets
  import opened Chain
  import opened Coverage
  import opened Checkpoints
  import opened Evidence
  import opened Sidecar
  import opened Signatures
  import opened SignatureReader
  import opened Verifier
  import opened Soundness
  import opened Attested
  import opened OneList
  import opened Verification
  import Report
  import Legality
  import opened Together
  import Stamps
  import Witness
  import opened WitnessReader

  // ----- What is in the one list -----

  lemma {:induction false} InParts(all: seq<AnyFinding>, f: AnyFinding)
    ensures f in all && f.OfTrail? <==> f.OfTrail? && f.trail in TrailPart(all)
    ensures f in all && f.OfSidecar? <==> f.OfSidecar? && f.signature in SidecarPart(all)
  {
    if all != [] {
      var front, last := all[..|all| - 1], all[|all| - 1];
      assert all == front + [last];
      InParts(front, f);
    }
  }

  lemma {:induction false} ReadersOnly(b: Beside, options: SignatureOptions, items: seq<Item>, n: nat)
    requires n <= |b.lines| && options.keys != []
    ensures forall f | f in SettledFindings(b, options, items, n) :: f.OfTrail? || f.OfSidecar?
  {
    hide ReportedOf, FoundBetween;
    if n > 0 {
      ReadersOnly(b, options, items, n - 1);
    }
  }

  lemma ReadOnly(b: Beside, options: SignatureOptions, sidecar: Bytes, tail: Bytes, f: AnyFinding)
    requires options.keys != [] && f in ReadFindings(b, options, sidecar, tail)
    ensures f.OfTrail? || f.OfSidecar?
  {
    hide SettledFindings, FoundBetween, ItemsOf, WithTail;
    ReadersOnly(b, options, ItemsOf(sidecar), |b.lines|);
  }

  /** When a finding that is neither the trail's nor the sidecar's is recorded. */
  ghost predicate Besides(h: Hash, contents: Bytes, inputs: Inputs, r: WholeReport, f: AnyFinding) {
    match f
    case OfTrail(_) => false
    case OfSidecar(_) => false
    case OfWitness(name) => r.reading.Some? && name in r.reading.value.findings
    case OfToken(token) => token in inputs.untrusted
    case OfCoverage(CountersignedCoverageMissing, n) =>
      var countersigned := CountersignedOf(h, contents, inputs, r);
      inputs.witnessed.Some? && 0 < n == inputs.witnessed.value.requireThrough
      && (countersigned.Some? ==> countersigned.value.sequence < n)
    case OfCoverage(StampCoverageMissing, n) => 0 < n == inputs.requireStamped && r.stamped < n
  }

  function CountersignedOf(h: Hash, contents: Bytes, inputs: Inputs, r: WholeReport): Option<Checkpoint> {
    Report.CountersignedThrough(h, contents, OptionsOf(inputs, r.reading))
  }

  lemma BesidesIs(h: Hash, contents: Bytes, inputs: Inputs, r: WholeReport, unmatched: seq<Finding>, failed: seq<Finding>,
                  f: AnyFinding)
    requires !f.OfTrail? && !f.OfSidecar?
    ensures var countersigned := Report.SequenceOf(CountersignedOf(h, contents, inputs, r));
            f in RestOf(inputs, r.reading, unmatched, failed, countersigned, r.signed.requirementMet, r.stamped) <==>
            Besides(h, contents, inputs, r, f)
  {
    hide Report.CountersignedThrough, Trails, Sidecars, Witnesses, Tokens;
    var found := if r.reading.Some? then r.reading.value.findings else [];
    InOthers(found, inputs.untrusted, f);
    InReaders(unmatched, [], f);
    InReaders(failed, if r.signed.requirementMet then [] else [SignatureFinding(SignatureMissing, inputs.requireSigned)], f);
    assert f in WitnessFindings(r.reading) <==> f in Witnesses(found);
  }

  lemma InOthers(found: seq<WitnessFindingName>, untrusted: seq<TokenFinding>, f: AnyFinding)
    ensures f in Witnesses(found) <==> f.OfWitness? && f.statement in found
    ensures f in Tokens(untrusted) <==> f.OfToken? && f.token in untrusted
  {
    if f.OfWitness? && f.statement in found {
      var i :| 0 <= i < |found| && found[i] == f.statement;
      assert Witnesses(found)[i] == f;
    }
    if f.OfToken? && f.token in untrusted {
      var i :| 0 <= i < |untrusted| && untrusted[i] == f.token;
      assert Tokens(untrusted)[i] == f;
    }
  }

  lemma InReaders(trail: seq<Finding>, sidecar: seq<SignatureFinding>, f: AnyFinding)
    ensures f in Trails(trail) ==> f.OfTrail?
    ensures f in Sidecars(sidecar) ==> f.OfSidecar?
  {
  }

  /** The one list holds a finding exactly when a reader made it, or what is required is missing. */
  lemma ListIs(h: Hash, contents: Bytes, inputs: Inputs, r: WholeReport, f: AnyFinding)
    requires Told(h, contents, inputs, r)
    ensures f in WholeList(h, contents, inputs, r) <==>
            if f.OfTrail? then f.trail in Report.Everything(h, contents, OptionsOf(inputs, r.reading))
            else if f.OfSidecar? then f.signature in r.signed.found
            else Besides(h, contents, inputs, r, f)
  {
    hide RestOf, ReadFindings, TrailPart, SidecarPart, Report.Everything, Report.StampedTo, AllFindings, CompleteLines,
         Tail, Report.CountersignedThrough, SignedAsRead, ListsAll, StampedThrough, ReadingIs, Besides;
    ListHoldsEach(h, contents, inputs, r);
    InParts(WholeList(h, contents, inputs, r), f);
    if !f.OfTrail? && !f.OfSidecar? {
      var options, b := OptionsOf(inputs, r.reading), Beside(inputs.scheme, h, CompleteLines(contents));
      var matched := Report.StampedTo(h, contents, options);
      BesidesIs(h, contents, inputs, r, Since(matched, |AllFindings(h, contents)|),
                Since(Report.Everything(h, contents, options), |matched|), f);
      if f in ReadFindings(b, inputs.signatures, inputs.sidecar, Tail(contents)) {
        ReadOnly(b, inputs.signatures, inputs.sidecar, Tail(contents), f);
      }
    }
  }

  // ----- Nothing of the trail -----

  /** The trail ends in a newline and no line of it that is not named damaged deserves a finding. */
  ghost predicate TrailFlawless(h: Hash, contents: Bytes) {
    var lines := CompleteLines(contents);
    && (contents == [] || contents[|contents| - 1] == '\n')
    && forall i, name | 0 <= i < |lines| && !Damaged(lines, i) :: !Deserves(h, lines, i, name)
  }

  ghost predicate AllMatch(h: Hash, lines: seq<Bytes>, held: seq<Checkpoint>) {
    forall c | c in held :: OfTrailItself(h, lines, c)
  }

  lemma {:induction false} NothingHeldIs(h: Hash, lines: seq<Bytes>, held: seq<Checkpoint>, stamped: bool,
                                         recorded: seq<Finding>)
    ensures HoldEach(h, lines, held, stamped, recorded) == [] <==> recorded == [] && AllMatch(h, lines, held)
  {
    hide HoldCheckpoint, Fails, OfTrailItself;
    if held != [] {
      var front, last := held[..|held| - 1], held[|held| - 1];
      assert held == front + [last];
      NothingHeldIs(h, lines, front, stamped, recorded);
      MatchesIs(h, lines, last);
    }
  }

  /** Nothing is found of the trail, its requirement aside, exactly when it and all checkpoints are flawless. */
  lemma NothingOfTrail(h: Hash, contents: Bytes, options: Report.Options)
    ensures var lines := CompleteLines(contents);
            Report.HeldTo(h, contents, options) == [] <==>
            && TrailFlawless(h, contents) && AllMatch(h, lines, options.held)
            && AllMatch(h, lines, options.Verified()) && AllMatch(h, lines, options.stamped)
  {
    hide AllFindings, CompleteLines, Sorted, TrailFlawless, OfTrailItself;
    var lines := CompleteLines(contents);
    FlawlessIs(h, contents);
    NothingHeldIs(h, lines, options.stamped, true, AllFindings(h, contents));
    NothingHeldIs(h, lines, Sorted(options.held), false, Report.StampedTo(h, contents, options));
    NothingHeldIs(h, lines, Sorted(options.Verified()), false,
                  HoldEach(h, lines, Sorted(options.held), false, Report.StampedTo(h, contents, options)));
    Report.InSorted(options.held);
    Report.InSorted(options.Verified());
  }

  lemma FlawlessIs(h: Hash, contents: Bytes)
    ensures AllFindings(h, contents) == [] <==> TrailFlawless(h, contents)
  {
    hide AllFindings, CompleteLines, Damaged, Deserves;
    NothingFoundIs(h, contents);
  }

  /** Where nothing is found, every checkpoint supplied attests. */
  lemma EachAttests(h: Hash, contents: Bytes, options: Report.Options, c: Checkpoint)
    requires Report.HeldTo(h, contents, options) == []
    requires c in options.held + options.Verified() + options.stamped
    ensures Report.Attests(h, CompleteLines(contents), options, c)
  {
    hide HoldCheckpoint, AllFindings, CompleteLines, Sorted, TrailFlawless, OfTrailItself, SoundThrough, Report.HeldTo,
         Damaged, LinkOf;
    var lines := CompleteLines(contents);
    NothingOfTrail(h, contents, options);
    FlawlessIs(h, contents);
    NothingIsSound(h, contents);
    forall d | d in options.held + options.Verified() + options.stamped
      ensures Matches(h, lines, d)
    {
      MatchesIs(h, lines, d);
    }
    MatchesOwnLine(h, lines, c);
    SoundThroughLess(h, lines, c.sequence, |lines|);
  }

  // ----- Nothing of the sidecar -----

  /** No item of the sidecar is wrong. */
  ghost predicate SidecarFlawless(b: Beside, options: SignatureOptions, sidecar: Bytes)
    requires options.keys != []
  {
    forall j, name | 0 <= j < |ItemsOf(sidecar)| :: !Wrong(b, options, ItemsOf(sidecar), j, name)
  }

  lemma NothingOfSidecar(b: Beside, options: SignatureOptions, sidecar: Bytes)
    requires options.keys != []
    ensures ReadSidecar(b, options, sidecar).found == [] <==> SidecarFlawless(b, options, sidecar)
  {
    hide Wrong, ItemsOf, ReadSidecar, SignsNumber;
    var found, items := ReadSidecar(b, options, sidecar).found, ItemsOf(sidecar);
    SidecarMeans(b, options, sidecar);
    if found != [] {
      assert found[0] in found;
    } else {
      forall j: nat, name | j < |items|
        ensures !Wrong(b, options, items, j, name)
      {
        if Wrong(b, options, items, j, name) {
          WrongIsFound(b, options, sidecar, j, name);
        }
      }
    }
  }

  lemma WrongIsFound(b: Beside, options: SignatureOptions, sidecar: Bytes, j: nat, name: SignatureFindingName)
    requires options.keys != [] && j < |ItemsOf(sidecar)| && Wrong(b, options, ItemsOf(sidecar), j, name)
    ensures ReadSidecar(b, options, sidecar).found != []
  {
    hide ItemsOf, ReadSidecar, SignsNumber;
    SidecarMeans(b, options, sidecar);
    assert WrongSo(b, options, ItemsOf(sidecar), j, SignatureFinding(name, NumberOf(ItemsOf(sidecar)[j])));
    assert SignatureFinding(name, NumberOf(ItemsOf(sidecar)[j])) in ReadSidecar(b, options, sidecar).found;
  }

  /** Some record at this sequence or past it is signed. */
  ghost predicate SignedPast(b: Beside, options: SignatureOptions, sidecar: Bytes, sequence: nat)
    requires options.keys != []
  {
    exists j: nat, n: nat :: n >= sequence && SignsNumber(b, options, ItemsOf(sidecar), j, n)
  }

  lemma SignedFarEnough(b: Beside, options: SignatureOptions, sidecar: Bytes, required: nat, signed: SignedCoverage)
    requires options.keys != [] && SignedAsRead(b, options, sidecar, required, signed)
    requires SoundThrough(b.h, b.lines, |b.lines|)
    ensures signed.requirementMet <==> required == 0 || SignedPast(b, options, sidecar, required)
  {
    hide Signs, ItemsOf, ReadSidecar, WrongSo, SoundThrough, ChainedUpTo, Above, Damaged, LinkOf;
    var p := ReadSidecar(b, options, sidecar);
    SidecarMeans(b, options, sidecar);
    if required > 0 && signed.requirementMet {
      assert signed.through in p.signedAt;
      var j: nat :| j < |ItemsOf(sidecar)| && SignsNumber(b, options, ItemsOf(sidecar), j, signed.through);
    }
    if SignedPast(b, options, sidecar, required) {
      var j: nat, n: nat :| n >= required && SignsNumber(b, options, ItemsOf(sidecar), j, n);
      assert n in p.signedAt;
      SoundThroughLess(b.h, b.lines, n, |b.lines|);
    }
  }

  // ----- Nothing at all -----

  /** Some statement supplied commits to this checkpoint. */
  ghost predicate Stated(inputs: Inputs, c: Checkpoint) {
    && inputs.witnessed.Some?
    && exists st :: st in StatementsIn(inputs.witnessed.value) && st.kind.CheckpointKind? && st.checkpoint == c
  }

  function StatementsIn(w: WitnessInput): set<Witness.Statement> { Witness.StatementsOf(w.reader, w.supplied) }

  predicate Stamped(inputs: Inputs, c: Checkpoint) { exists t :: t in inputs.stamps && t.checkpoint == c }

  /** Each line supplied is a statement, each statement is signed and of the trail, and together they hold up. */
  ghost predicate StatementsFlawless(w: WitnessInput, trail: Bytes) {
    var resume, head := Witness.ResumedFrom(w.supplied), Witness.HeadOf(w.reader, w.supplied);
    && Witness.WellFormed(w.reader, w.supplied)
    && (forall st | st in StatementsIn(w) :: !Forged(w.reader, st) && st.checkpoint.trail == trail)
    && (forall a, b | a in StatementsIn(w) && b in StatementsIn(w) && a != b :: a.index != b.index)
    && Legality.HoldsUp(StatementsIn(w), resume)
    && (head.Some? ==>
          !Legality.OlderThan(resume, head.value) && !Legality.Beyond(StatementsIn(w), resume, head.value))
  }

  /** Every checkpoint supplied in any way is one of the trail's own. */
  ghost predicate CheckpointsFlawless(h: Hash, lines: seq<Bytes>, inputs: Inputs) {
    forall c | c in inputs.held || Stamped(inputs, c) || Stated(inputs, c) :: OfTrailItself(h, lines, c)
  }

  ghost predicate HeldPast(inputs: Inputs, sequence: nat) {
    exists c :: (c in inputs.held || Stated(inputs, c)) && c.sequence >= sequence
  }

  ghost predicate StatedPast(inputs: Inputs, sequence: nat) { exists c :: Stated(inputs, c) && c.sequence >= sequence }

  ghost predicate StampedPast(inputs: Inputs, sequence: nat) { exists c :: Stamped(inputs, c) && c.sequence >= sequence }

  /** What is required is reached: by a checkpoint held or stated, by one stated, by a stamp, and by a signature. */
  ghost predicate CoverageFlawless(b: Beside, inputs: Inputs)
    requires inputs.Valid()
  {
    && (inputs.requireThrough > 0 ==> HeldPast(inputs, inputs.requireThrough))
    && (inputs.witnessed.Some? && inputs.witnessed.value.requireThrough > 0 ==>
          StatedPast(inputs, inputs.witnessed.value.requireThrough))
    && (inputs.requireStamped > 0 ==> StampedPast(inputs, inputs.requireStamped))
    && (inputs.requireSigned > 0 ==> SignedPast(b, inputs.signatures, inputs.sidecar, inputs.requireSigned))
  }

  ghost predicate Flawless(h: Hash, contents: Bytes, inputs: Inputs)
    requires inputs.Valid()
  {
    var b := Beside(inputs.scheme, h, CompleteLines(contents));
    && TrailFlawless(h, contents) && CheckpointsFlawless(h, b.lines, inputs)
    && SidecarFlawless(b, inputs.signatures, inputs.sidecar)
    && (inputs.witnessed.Some? ==> StatementsFlawless(inputs.witnessed.value, TrailOf(h, b.lines)))
    && inputs.untrusted == [] && CoverageFlawless(b, inputs)
  }

  /** Nothing is found of the statements exactly when they are flawless. */
  lemma NothingOfStatements(w: WitnessInput, trail: Bytes, reading: WitnessReading)
    requires ReadingIs(w, trail, reading)
    ensures reading.findings == [] <==> StatementsFlawless(w, trail)
  {
    hide Witness.WellFormed, Witness.StatementsOf, Witness.HeadOf, Witness.Clean, Witness.EndingOf, Legality.HoldsUp,
         Forged, Witness.Passes, Legality.Beyond;
    Legality.CleanIs(w.reader, trail, StatementsIn(w), Witness.ResumedFrom(w.supplied), Witness.HeadOf(w.reader, w.supplied));
  }

  /** What the trail is held to, when the statements are flawless or there are none. */
  lemma SuppliedAre(inputs: Inputs, trail: Bytes, reading: Option<WitnessReading>, c: Checkpoint)
    requires inputs.Valid() && (reading.Some? <==> inputs.witnessed.Some?)
    requires reading.Some? ==> ReadingIs(inputs.witnessed.value, trail, reading.value) && reading.value.findings == []
    ensures var options := OptionsOf(inputs, reading);
            && options.Valid() && options.Credited() == options.Verified() && options.held == inputs.held
            && (c in options.Verified() <==> Stated(inputs, c)) && (c in options.stamped <==> Stamped(inputs, c))
  {
    hide Witness.StatementsOf, Witness.WellFormed, Witness.EndingOf, Witness.HeadOf, Witness.Passes;
    DrawnIsKept(inputs, trail, reading);
    if Stamped(inputs, c) {
      var t :| t in inputs.stamps && t.checkpoint == c;
      var i :| 0 <= i < |inputs.stamps| && inputs.stamps[i] == t;
      assert CheckpointsOf(inputs.stamps)[i] == c;
    }
    if reading.Some? {
      var verified := reading.value.verified;
      if c in StatedCheckpoints(verified) {
        var i :| 0 <= i < |verified| && StatedCheckpoints(verified)[i] == c;
        assert verified[i] in verified;
      }
      if Stated(inputs, c) {
        var st :| st in StatementsIn(inputs.witnessed.value) && st.kind.CheckpointKind? && st.checkpoint == c;
        assert st in verified;
        var i :| 0 <= i < |verified| && verified[i] == st;
        assert StatedCheckpoints(verified)[i] == c;
      }
    }
  }

  /** Nothing is wrong with the statements, and nothing with the trail or with a checkpoint. */
  ghost predicate NothingYet(h: Hash, contents: Bytes, inputs: Inputs, r: WholeReport) {
    && Told(h, contents, inputs, r) && (r.reading.Some? ==> r.reading.value.findings == [])
    && Report.HeldTo(h, contents, OptionsOf(inputs, r.reading)) == []
  }

  lemma HeldFarEnough(h: Hash, contents: Bytes, inputs: Inputs, r: WholeReport)
    requires NothingYet(h, contents, inputs, r) && inputs.requireThrough > 0
    ensures Report.RequirementOf(h, contents, OptionsOf(inputs, r.reading)).Met? <==> HeldPast(inputs, inputs.requireThrough)
  {
    hide Report.Attests, Report.ReachOf, Report.HeldTo, CompleteLines, SignedAsRead, ListsAll, StampedThrough, ReadingIs,
         TrailOf, Stated, Stamped;
    var lines, options := CompleteLines(contents), OptionsOf(inputs, r.reading);
    forall c
      ensures c in options.held + options.Credited() <==> c in inputs.held || Stated(inputs, c)
      ensures c in options.held + options.Credited() ==> Report.Attests(h, lines, options, c)
      ensures options.Valid()
    {
      SuppliedAre(inputs, TrailOf(h, lines), r.reading, c);
      if c in options.held + options.Credited() {
        EachAttests(h, contents, options, c);
      }
    }
    RequirementIs(h, contents, options);
  }

  lemma StatedFarEnough(h: Hash, contents: Bytes, inputs: Inputs, r: WholeReport, required: nat)
    requires NothingYet(h, contents, inputs, r) && inputs.witnessed.Some? && required > 0
    ensures var countersigned := CountersignedOf(h, contents, inputs, r);
            countersigned.Some? && countersigned.value.sequence >= required <==> StatedPast(inputs, required)
  {
    hide Report.Attests, Report.CountersignedThrough, Report.HeldTo, CompleteLines, SignedAsRead, ListsAll, StampedThrough,
         ReadingIs, TrailOf, Forged, Witness.StatementsOf;
    var lines, options := CompleteLines(contents), OptionsOf(inputs, r.reading);
    CountersignedIs(h, contents, inputs, r.reading.value);
    CleanOfRead(inputs.witnessed.value, TrailOf(h, lines), r.reading.value);
    forall c | Stated(inputs, c)
      ensures Report.Attests(h, lines, options, c)
    {
      SuppliedAre(inputs, TrailOf(h, lines), r.reading, c);
      EachAttests(h, contents, options, c);
    }
  }

  lemma CleanOfRead(w: WitnessInput, trail: Bytes, reading: WitnessReading)
    requires ReadingIs(w, trail, reading)
    ensures reading.clean <==> reading.findings == []
  {
  }

  lemma StampedFarEnough(h: Hash, contents: Bytes, inputs: Inputs, r: WholeReport, required: nat)
    requires NothingYet(h, contents, inputs, r) && required > 0
    ensures r.stamped >= required <==> StampedPast(inputs, required)
  {
    hide Report.Attests, Report.HeldTo, CompleteLines, SignedAsRead, ListsAll, ReadingIs, TrailOf;
    var lines, options := CompleteLines(contents), OptionsOf(inputs, r.reading);
    forall t | t in inputs.stamps
      ensures Stamped(inputs, t.checkpoint) && Report.Attests(h, lines, options, t.checkpoint)
    {
      SuppliedAre(inputs, TrailOf(h, lines), r.reading, t.checkpoint);
      EachAttests(h, contents, options, t.checkpoint);
    }
  }

  /** The one list is empty exactly when each reader found nothing and nothing required is missing. */
  lemma NothingListed(h: Hash, contents: Bytes, inputs: Inputs, r: WholeReport)
    requires Told(h, contents, inputs, r)
    ensures WholeList(h, contents, inputs, r) == [] <==>
            && Report.Everything(h, contents, OptionsOf(inputs, r.reading)) == [] && r.signed.found == []
            && forall f :: !Besides(h, contents, inputs, r, f)
  {
    hide Besides, WholeList, Report.Everything, OptionsOf, ReadingIs, SignedAsRead, StampedThrough, ListsAll;
    var all := WholeList(h, contents, inputs, r);
    var everything := Report.Everything(h, contents, OptionsOf(inputs, r.reading));
    forall f
      ensures f in all <==> if f.OfTrail? then f.trail in everything else if f.OfSidecar? then f.signature in r.signed.found
                            else Besides(h, contents, inputs, r, f)
      ensures Besides(h, contents, inputs, r, f) ==> !f.OfTrail? && !f.OfSidecar?
    {
      ListIs(h, contents, inputs, r, f);
      BesidesIsOther(h, contents, inputs, r, f);
    }
    if all != [] {
      assert all[0] in all;
    }
    assert everything != [] ==> OfTrail(everything[0]) in all;
    assert r.signed.found != [] ==> OfSidecar(r.signed.found[0]) in all;
  }

  lemma BesidesIsOther(h: Hash, contents: Bytes, inputs: Inputs, r: WholeReport, f: AnyFinding)
    ensures Besides(h, contents, inputs, r, f) ==> !f.OfTrail? && !f.OfSidecar?
  {
  }

  /** What that says of the others. */
  lemma NothingBesides(h: Hash, contents: Bytes, inputs: Inputs, r: WholeReport)
    ensures var countersigned := CountersignedOf(h, contents, inputs, r);
            (forall f :: !Besides(h, contents, inputs, r, f)) <==>
            && (r.reading.Some? ==> r.reading.value.findings == []) && inputs.untrusted == []
            && (inputs.witnessed.Some? && inputs.witnessed.value.requireThrough > 0 ==>
                  countersigned.Some? && countersigned.value.sequence >= inputs.witnessed.value.requireThrough)
            && (inputs.requireStamped > 0 ==> r.stamped >= inputs.requireStamped)
  {
    hide CountersignedOf;
    if r.reading.Some? && r.reading.value.findings != [] {
      assert Besides(h, contents, inputs, r, OfWitness(r.reading.value.findings[0]));
    }
    if inputs.untrusted != [] {
      assert Besides(h, contents, inputs, r, OfToken(inputs.untrusted[0]));
    }
    if inputs.witnessed.Some? {
      var missing := OfCoverage(CountersignedCoverageMissing, inputs.witnessed.value.requireThrough);
      assert Besides(h, contents, inputs, r, missing) <==>
             inputs.witnessed.value.requireThrough > 0 &&
             !(CountersignedOf(h, contents, inputs, r).Some? &&
               CountersignedOf(h, contents, inputs, r).value.sequence >= inputs.witnessed.value.requireThrough);
    }
    assert Besides(h, contents, inputs, r, OfCoverage(StampCoverageMissing, inputs.requireStamped)) <==>
           0 < inputs.requireStamped && r.stamped < inputs.requireStamped;
  }

  /** What is required is reached, as the report has it. */
  ghost predicate CoverageMet(h: Hash, contents: Bytes, inputs: Inputs, r: WholeReport) {
    var countersigned := CountersignedOf(h, contents, inputs, r);
    && (inputs.requireThrough > 0 ==> Report.RequirementOf(h, contents, OptionsOf(inputs, r.reading)).Met?)
    && (inputs.witnessed.Some? && inputs.witnessed.value.requireThrough > 0 ==>
          countersigned.Some? && countersigned.value.sequence >= inputs.witnessed.value.requireThrough)
    && (inputs.requireStamped > 0 ==> r.stamped >= inputs.requireStamped) && r.signed.requirementMet
  }

  lemma NothingOfEverything(h: Hash, contents: Bytes, options: Report.Options)
    ensures Report.Everything(h, contents, options) == [] <==>
            && Report.HeldTo(h, contents, options) == []
            && (options.requireThrough > 0 ==> Report.RequirementOf(h, contents, options).Met?)
  {
    hide Report.HeldTo, Report.ReachOf;
  }

  /** Nothing is found exactly when there is nothing of the trail, nothing of each of the others, and nothing missing. */
  lemma NothingIs(h: Hash, contents: Bytes, inputs: Inputs, r: WholeReport)
    requires Told(h, contents, inputs, r)
    ensures r.findingsTotal == 0 <==>
            && Report.HeldTo(h, contents, OptionsOf(inputs, r.reading)) == []
            && SidecarFlawless(Beside(inputs.scheme, h, CompleteLines(contents)), inputs.signatures, inputs.sidecar)
            && (r.reading.Some? ==> r.reading.value.findings == []) && inputs.untrusted == []
            && CoverageMet(h, contents, inputs, r)
  {
    hide Besides, WholeList, Report.Everything, ReadingIs, StampedThrough, CountersignedOf, Report.RequirementOf,
         Report.HeldTo, SidecarFlawless, CompleteLines, ReadSidecar, IsThrough, OfRecords, ChainedUpTo, Above;
    NothingListed(h, contents, inputs, r);
    NothingBesides(h, contents, inputs, r);
    NothingOfEverything(h, contents, OptionsOf(inputs, r.reading));
    NothingOfSidecar(Beside(inputs.scheme, h, CompleteLines(contents)), inputs.signatures, inputs.sidecar);
  }

  lemma CheckpointsAre(h: Hash, contents: Bytes, inputs: Inputs, r: WholeReport)
    requires Told(h, contents, inputs, r) && (r.reading.Some? ==> r.reading.value.findings == [])
    ensures Report.HeldTo(h, contents, OptionsOf(inputs, r.reading)) == [] <==>
            TrailFlawless(h, contents) && CheckpointsFlawless(h, CompleteLines(contents), inputs)
  {
    hide Report.HeldTo, CompleteLines, TrailFlawless, OfTrailItself, Stated, Stamped, ReadingIs, StampedThrough, SignedAsRead,
         ListsAll, OptionsOf, TrailOf;
    var lines, options := CompleteLines(contents), OptionsOf(inputs, r.reading);
    NothingOfTrail(h, contents, options);
    forall c
      ensures options.held == inputs.held
      ensures (c in options.Verified() <==> Stated(inputs, c)) && (c in options.stamped <==> Stamped(inputs, c))
    {
      SuppliedAre(inputs, TrailOf(h, lines), r.reading, c);
    }
  }

  lemma CoverageIs(h: Hash, contents: Bytes, inputs: Inputs, r: WholeReport)
    requires NothingYet(h, contents, inputs, r)
    ensures CoverageMet(h, contents, inputs, r) <==>
            CoverageFlawless(Beside(inputs.scheme, h, CompleteLines(contents)), inputs)
  {
    hide Report.HeldTo, CompleteLines, Stated, Stamped, ReadingIs, StampedThrough, ListsAll, CountersignedOf,
         Report.RequirementOf, SignedAsRead, SignedPast, SoundThrough, TrailFlawless;
    var options := OptionsOf(inputs, r.reading);
    NothingOfTrail(h, contents, options);
    FlawlessIs(h, contents);
    NothingIsSound(h, contents);
    SignedFarEnough(Beside(inputs.scheme, h, CompleteLines(contents)), inputs.signatures, inputs.sidecar,
                    inputs.requireSigned, r.signed);
    if inputs.requireThrough > 0 {
      HeldFarEnough(h, contents, inputs, r);
    }
    if inputs.witnessed.Some? && inputs.witnessed.value.requireThrough > 0 {
      StatedFarEnough(h, contents, inputs, r, inputs.witnessed.value.requireThrough);
    }
    if inputs.requireStamped > 0 {
      StampedFarEnough(h, contents, inputs, r, inputs.requireStamped);
    }
  }

  /** A whole verification finds nothing exactly when all that it was given is flawless. */
  lemma AcceptedIs(h: Hash, contents: Bytes, inputs: Inputs, r: WholeReport)
    requires Told(h, contents, inputs, r)
    ensures r.findingsTotal == 0 <==> Flawless(h, contents, inputs)
  {
    hide Report.HeldTo, CompleteLines, TrailFlawless, CheckpointsFlawless, SidecarFlawless, StatementsFlawless,
         CoverageFlawless, CoverageMet, ReadingIs, StampedThrough, SignedAsRead, WholeList, TrailOf, OptionsOf;
    NothingIs(h, contents, inputs, r);
    if r.reading.Some? {
      NothingOfStatements(inputs.witnessed.value, TrailOf(h, CompleteLines(contents)), r.reading.value);
    }
    if r.reading.Some? ==> r.reading.value.findings == [] {
      CheckpointsAre(h, contents, inputs, r);
      if Report.HeldTo(h, contents, OptionsOf(inputs, r.reading)) == [] {
        CoverageIs(h, contents, inputs, r);
      }
    }
  }

  lemma NoneDamaged(lines: seq<Bytes>)
    ensures DiscontinuitiesOf(lines, |lines|) == [] <==> forall i | 0 <= i < |lines| :: !Damaged(lines, i)
  {
    hide Excuses, NamedDamage;
    NamedAreDamaged(lines, |lines|);
    forall i: nat | i < |lines| && Damaged(lines, i)
      ensures DiscontinuitiesOf(lines, |lines|) != []
    {
      var j := DamagedAreNamed(lines, |lines|, i);
    }
    if DiscontinuitiesOf(lines, |lines|) != [] {
      assert NamesDamaged(lines, DiscontinuitiesOf(lines, |lines|)[0], |lines|);
    }
  }

  /** What is flawless is whole when no line of the trail is named damaged, and segmented when one is. */
  lemma StatusIs(h: Hash, contents: Bytes, inputs: Inputs, r: WholeReport)
    requires Told(h, contents, inputs, r)
    ensures var lines := CompleteLines(contents);
            var whole := forall i | 0 <= i < |lines| :: !Damaged(lines, i);
            && (r.status == Report.Invalid <==> !Flawless(h, contents, inputs))
            && (r.status == Report.Valid <==> Flawless(h, contents, inputs) && whole)
  {
    hide Report.Everything, CompleteLines, Flawless, ReadingIs, StampedThrough, SignedAsRead, WholeList, TrailOf, OptionsOf,
         DiscontinuitiesOf, Report.SummaryOf, Report.RequirementOf, Report.ReachOf, Report.CountedIn, Damaged,
         Report.CountersignedThrough;
    AcceptedIs(h, contents, inputs, r);
    NoneDamaged(CompleteLines(contents));
  }

  // ----- A trail with no more than checkpoints beside it -----

  /** What is found of a trail and of the checkpoints it is held to decides its status. */
  lemma ChainStatusIs(h: Hash, contents: Bytes, options: Report.Options, r: Report.ChainReport)
    requires options.Valid() && Report.Reports(h, contents, options, r)
    ensures var lines := CompleteLines(contents);
            var flawless := TrailFlawless(h, contents) && AllMatch(h, lines, options.held)
                            && AllMatch(h, lines, options.Verified()) && AllMatch(h, lines, options.stamped)
                            && (options.requireThrough > 0 ==>
                                  exists c :: c in options.held + options.Credited() && c.sequence >= options.requireThrough);
            && (r.status == Report.Invalid <==> !flawless)
            && (r.status == Report.Valid <==> flawless && forall i | 0 <= i < |lines| :: !Damaged(lines, i))
  {
    hide Report.HeldTo, CompleteLines, TrailFlawless, AllMatch, DiscontinuitiesOf, Report.SummaryOf, Report.ReachOf,
         Report.CountedIn, Damaged, Report.CountersignedThrough, Report.Everything, Report.Attests, Report.RequirementOf;
    NothingOfEverything(h, contents, options);
    NothingOfTrail(h, contents, options);
    NoneDamaged(CompleteLines(contents));
    if options.requireThrough > 0 {
      RequirementIs(h, contents, options);
      if Report.HeldTo(h, contents, options) == [] {
        forall c | c in options.held + options.Credited()
          ensures Report.Attests(h, CompleteLines(contents), options, c)
        {
          EachAttests(h, contents, options, c);
        }
      }
    }
  }

  // ----- How late the records are attested -----

  /** A trusted stamp that attests, at this sequence or past it. */
  ghost predicate AttestsTo(h: Hash, contents: Bytes, options: Report.Options, stamp: TrustedStamp, sequence: nat) {
    sequence <= stamp.checkpoint.sequence && Report.Attests(h, CompleteLines(contents), options, stamp.checkpoint)
  }

  /** A record's lag is from its own time to that of the earliest trusted stamp that attests to it. */
  lemma LagMeans(h: Hash, contents: Bytes, options: Report.Options, stamps: seq<TrustedStamp>, record: Stamps.Record)
    requires options.Valid() && forall t | t in stamps :: t.checkpoint.sequence > 0
    ensures var candidates := CandidatesOf(h, CompleteLines(contents), stamps);
            var lag := Stamps.LagOf(candidates, Earliest(Report.HeldTo(h, contents, options)), record);
            && (lag.Some? <==>
                  && record.at.Some?
                  && exists t :: t in stamps && AttestsTo(h, contents, options, t, record.sequence))
            && (lag.Some? ==>
                  var time := record.at.value + lag.value;
                  && (exists t :: t in stamps && AttestsTo(h, contents, options, t, record.sequence) && t.existedBy == time)
                  && (forall t | t in stamps && AttestsTo(h, contents, options, t, record.sequence) :: time <= t.existedBy))
  {
    hide Matches, Report.HeldTo, Earliest, CompleteLines, Report.Attests, Stamps.LagOf;
    var lines, limit := CompleteLines(contents), Earliest(Report.HeldTo(h, contents, options));
    var candidates := CandidatesOf(h, lines, stamps);
    Stamps.LagIs(candidates, limit, record);
    forall i | 0 <= i < |stamps|
      ensures candidates[i] in candidates && stamps[i] in stamps && candidates[i].existedBy == stamps[i].existedBy
      ensures Stamps.LendsTo(candidates[i], limit, record.sequence) <==>
              AttestsTo(h, contents, options, stamps[i], record.sequence)
    {
      LendsIsAttests(h, contents, options, stamps[i]);
    }
  }

  /** The records whose lags are taken are those that stand, each with the time read of its own line. */
  lemma {:induction false} RecordsAre(clock: Clock, lines: seq<Bytes>, n: nat, record: Stamps.Record)
    requires n <= |lines|
    ensures record in RecordsOf(clock, lines, n) <==>
            && 0 < record.sequence <= n && Stands(lines, record.sequence - 1)
            && record.at == clock(lines[record.sequence - 1])
  {
    hide Chained, Damaged;
    if n > 0 {
      RecordsAre(clock, lines, n - 1, record);
    }
  }

  // ----- What a later reading goes on from -----

  lemma {:induction false} SomeLatest(from: Witness.Origin, chain: seq<Witness.Statement>, i: nat)
    requires i <= |chain| && (from.latest.Some? || exists j :: 0 <= j < i && chain[j].kind.CheckpointKind?)
    ensures Witness.LatestBefore(from, chain, i).Some?
  {
    if i > 0 && !chain[i - 1].kind.CheckpointKind? {
      SomeLatest(from, chain, i - 1);
    }
  }

  /** What holds up ends with a last statement and a latest checkpoint statement. */
  lemma EndsSomewhere(statements: set<Witness.Statement>, resume: Option<Witness.Continuation>)
    requires Witness.DistinctIndexes(statements) && Legality.HoldsUp(statements, resume)
    ensures var e := Witness.EndingOf(statements, resume); e.last.Some? && e.latest.Some?
  {
    hide Witness.Listed, Legality.Follows, Witness.DistinctIndexes, Witness.Ascending, Witness.LatestBefore;
    var from := Witness.OriginOf(resume);
    var chain := Witness.Listed(Witness.ChainOf(statements, from.start));
    Legality.ListedIsWalk(statements, resume);
    if resume.None? {
      var st :| st in statements;
      assert Legality.Walked(statements, resume, st);
      assert Legality.KeepsRule(statements, resume, st);
      var q: Witness.Statement :| Legality.Walked(statements, resume, q) && q.kind.CheckpointKind?;
      var i :| 0 <= i < |chain| && chain[i] == q;
    }
    SomeLatest(from, chain, |chain|);
  }

  /** It is saved exactly when there are statements and nothing is found at all, and it is the end of their chain. */
  lemma ContinuationIs(h: Hash, contents: Bytes, inputs: Inputs, r: WholeReport)
    requires Told(h, contents, inputs, r)
    ensures r.continuation.Some? <==> inputs.witnessed.Some? && Flawless(h, contents, inputs)
    ensures r.continuation.Some? ==>
              var statements, resume := StatementsIn(inputs.witnessed.value), Witness.ResumedFrom(inputs.witnessed.value.supplied);
              && Legality.IsLast(statements, resume, r.continuation.value.last)
              && Legality.IsLatestOfAll(statements, resume, r.continuation.value.latest)
  {
    hide CompleteLines, Flawless, StampedThrough, SignedAsRead, WholeList, TrailOf, OptionsOf, Report.Reports, Report.AddsUp,
         Witness.StatementsOf, Witness.WellFormed, Witness.EndingOf, Witness.HeadOf, Witness.Passes, Legality.IsLast,
         Legality.IsLatestOfAll, Legality.HoldsUp;
    AcceptedIs(h, contents, inputs, r);
    if inputs.witnessed.Some? && Flawless(h, contents, inputs) {
      NothingIs(h, contents, inputs, r);
      var w := inputs.witnessed.value;
      NothingOfStatements(w, TrailOf(h, CompleteLines(contents)), r.reading.value);
      EndsSomewhere(StatementsIn(w), Witness.ResumedFrom(w.supplied));
      Legality.EndingIs(StatementsIn(w), Witness.ResumedFrom(w.supplied));
    }
  }
}
