/**
 What it means of a trail that its reading finds nothing, said line by line of what the lines hold: their numbers, the
 digests they follow, the one identity they carry, and the damage that discontinuities name.
 */
module Soundness {
  import opened Octets
  import opened Json
  import opened Chain
  import opened Evidence
  import opened Checkpoints
  import Coverage
  import Report

  /** A chained record that no line after it names damaged. */
  predicate Stands(lines: seq<Bytes>, i: nat)
    requires i < |lines|
  {
    Chained(lines[i]) && !Damaged(lines, i)
  }

  function TrailAt(lines: seq<Bytes>, i: nat): Bytes
    requires i < |lines| && Chained(lines[i])
  {
    LinkOf(lines[i]).value.trail
  }

  /** The last chained line of those before a place. */
  ghost predicate IsLastChained(lines: seq<Bytes>, place: nat, k: nat) {
    && k < place <= |lines| && Chained(lines[k])
    && forall m | k < m < place :: !Chained(lines[m])
  }

  // ----- One identity -----

  lemma {:induction false} LastTrailIsAt(lines: seq<Bytes>, place: nat) returns (k: nat)
    requires place <= |lines| && LastTrail(lines[..place]) != []
    ensures IsLastChained(lines, place, k) && TrailAt(lines, k) == LastTrail(lines[..place])
  {
    hide LinkOf;
    var front := lines[..place];
    assert front[|front| - 1] == lines[place - 1] && front[..|front| - 1] == lines[..place - 1];
    if Chained(lines[place - 1]) {
      k := place - 1;
    } else {
      k := LastTrailIsAt(lines, place - 1);
    }
  }

  lemma {:induction false} SomeTrail(lines: seq<Bytes>, place: nat, j: nat)
    requires j < place <= |lines| && Chained(lines[j])
    ensures LastTrail(lines[..place]) != []
  {
    hide LinkOf;
    var front := lines[..place];
    assert front[|front| - 1] == lines[place - 1] && front[..|front| - 1] == lines[..place - 1];
    if Chained(lines[place - 1]) {
      IdentityIsSome(lines[place - 1]);
    } else {
      SomeTrail(lines, place - 1, j);
    }
  }

  lemma IdentityIsSome(line: Bytes)
    requires Chained(line)
    ensures LinkOf(line).value.trail != []
  {
  }

  /** A record that names the line just before it: that line can be read, and is no discontinuity itself. */
  ghost predicate NamesBefore(lines: seq<Bytes>, i: nat)
    requires i < |lines|
  {
    && i > 0 && Chained(lines[i]) && OfDiscontinuityKind(lines[i])
    && !OfDiscontinuityKind(lines[i - 1]) && |lines[i - 1]| <= MAX_LINE
    && exists bytes: nat, digest: Bytes :: bytes <= MAX_LINE && DamageNamedBy(lines[i]) == Some(Damage(i, bytes, digest))
  }

  lemma ExcusesIs(lines: seq<Bytes>, i: nat)
    requires i < |lines|
    ensures Excuses(lines, i) <==> NamesBefore(lines, i)
  {
    hide Chained, OfDiscontinuityKind, DamageNamedBy;
    if Excuses(lines, i) {
      var named := DamageNamedBy(lines[i]).value;
      assert DamageNamedBy(lines[i]) == Some(Damage(i, named.bytes, named.digest));
    }
  }

  /** Where a record links over: the line it names damaged, if it does, or else its own place. */
  ghost function PlaceOf(lines: seq<Bytes>, i: nat): (place: nat)
    requires i < |lines|
    ensures place == if Excuses(lines, i) then i - 1 else i
  {
    ExcusesIs(lines, i);
    if NamesBefore(lines, i) then i - 1 else i
  }

  /** The last chained line before a record's place is not damaged. */
  lemma LastChainedStands(lines: seq<Bytes>, i: nat, k: nat)
    requires i < |lines| && IsLastChained(lines, PlaceOf(lines, i), k)
    ensures Stands(lines, k)
  {
    hide DamageNamedBy, OfDiscontinuityKind, LinkOf;
  }

  /** The head a record is held to has the identity that the last chained line ahead of its place has. */
  lemma HeadTrail(h: Hash, lines: seq<Bytes>, i: nat)
    requires i < |lines|
    ensures Expected(h, lines, i) == HeadBefore(h, lines, PlaceOf(lines, i))
    ensures Expected(h, lines, i).Some? ==>
              var trail := Expected(h, lines, i).value.trail;
              && (trail == [] ==> forall j | 0 <= j < PlaceOf(lines, i) :: !Chained(lines[j]))
              && (trail != [] ==> exists k :: IsLastChained(lines, PlaceOf(lines, i), k) && TrailAt(lines, k) == trail)
  {
    hide LinkOf, Excuses, LastTrail, Join;
    var place := PlaceOf(lines, i);
    if Expected(h, lines, i).Some? {
      if place > 0 && Chained(lines[place - 1]) {
        IdentityIsSome(lines[place - 1]);
        assert IsLastChained(lines, place, place - 1);
      } else if LastTrail(lines[..place]) != [] {
        var k := LastTrailIsAt(lines, place);
      } else {
        forall j | 0 <= j < place
          ensures !Chained(lines[j])
        {
          if Chained(lines[j]) {
            SomeTrail(lines, place, j);
          }
        }
      }
    }
  }

  /** A sound record carries on the identity of a record before it, if there is one, that is no earlier than this. */
  lemma CarriesOn(h: Hash, lines: seq<Bytes>, i: nat, j: nat) returns (k: nat)
    requires j < i < |lines| && SoundThrough(h, lines, i + 1) && Stands(lines, i) && Stands(lines, j)
    ensures j <= k < i && Stands(lines, k) && TrailAt(lines, k) == TrailAt(lines, i)
  {
    hide LinkOf, OfDiscontinuityKind, DamageNamedBy, HeadBefore;
    SoundLineLinks(h, lines, i);
    HeadTrail(h, lines, i);
    assert LineFindings(h, lines, i) == [];
    assert j < PlaceOf(lines, i);
    k :| IsLastChained(lines, PlaceOf(lines, i), k) && TrailAt(lines, k) == Expected(h, lines, i).value.trail;
    LastChainedStands(lines, i, k);
  }

  /** Of a trail sound through these lines, all the records that stand are of one identity. */
  lemma {:induction false} OneIdentity(h: Hash, lines: seq<Bytes>, n: nat, i: nat, j: nat)
    requires n <= |lines| && SoundThrough(h, lines, n)
    requires i < n && j < n && Stands(lines, i) && Stands(lines, j)
    ensures LinkOf(lines[i]).value.trail == LinkOf(lines[j]).value.trail
    decreases i + j, if i < j then 1 else 0
  {
    hide Chained, LinkOf, Damaged, LineFindings;
    if i < j {
      OneIdentity(h, lines, n, j, i);
    } else if j < i {
      SoundThroughLess(h, lines, i + 1, n);
      var k := CarriesOn(h, lines, i, j);
      OneIdentity(h, lines, n, k, j);
    }
  }

  // ----- Which finding a line makes -----

  /** What the digest is taken of that a record at a place is linked by: the line before, or all lines before. */
  function Preceding(lines: seq<Bytes>, place: nat): Bytes
    requires place <= |lines|
  {
    if place > 0 && Chained(lines[place - 1]) then lines[place - 1] else Join(lines[..place])
  }

  /** The line just before a place is too long to know what a record there follows. */
  predicate Unknowable(lines: seq<Bytes>, place: nat)
    requires place <= |lines|
  {
    place > 0 && |lines[place - 1]| > MAX_LINE
  }

  /** When a finding of this name is made of a line that stands undamaged, in terms of what the lines hold. */
  ghost predicate Deserves(h: Hash, lines: seq<Bytes>, i: nat, name: FindingName)
    requires i < |lines|
  {
    var line, place := lines[i], PlaceOf(lines, i);
    match name
    case LineTooLong => |line| > MAX_LINE
    case BindingIsMalformed => BindingMalformed(line)
    case DiscontinuityMalformed => Chained(line) && OfDiscontinuityKind(line) && !NamesBefore(lines, i)
    case DiscontinuityMismatch =>
      NamesBefore(lines, i) && !(DamageNamedBy(line).value.bytes == |lines[i - 1]|
                             && DamageNamedBy(line).value.digest == DigestOf(h, lines[i - 1]))
    case SequenceMismatch => Chained(line) && LinkOf(line).value.sequence != i + 1
    case PreviousMismatch =>
      Chained(line) && !Unknowable(lines, place)
      && LinkOf(line).value.previous != DigestOf(h, Preceding(lines, place))
    case TrailMismatch =>
      Chained(line) && !Unknowable(lines, place)
      && exists k :: IsLastChained(lines, place, k) && TrailAt(lines, k) != TrailAt(lines, i)
    case _ => false
  }

  lemma HeadIs(h: Hash, lines: seq<Bytes>, i: nat)
    requires i < |lines|
    ensures Expected(h, lines, i).None? <==> Unknowable(lines, PlaceOf(lines, i))
    ensures Expected(h, lines, i).Some? ==>
              Expected(h, lines, i).value.previous == DigestOf(h, Preceding(lines, PlaceOf(lines, i)))
  {
    hide LinkOf, Excuses, LastTrail, Join;
  }

  lemma OneLastChained(lines: seq<Bytes>, place: nat, j: nat, k: nat)
    requires IsLastChained(lines, place, j) && IsLastChained(lines, place, k)
    ensures j == k
  {
    hide LinkOf;
  }

  /** A link's findings, by name. */
  lemma LinkFindingsAre(link: Link, expected: Option<Head>, number: nat, f: Finding)
    ensures f in LinkFindings(link, expected, number) <==>
            && f.line == number
            && (|| (f.name.SequenceMismatch? && link.sequence != number)
                || (f.name.PreviousMismatch? && expected.Some? && link.previous != expected.value.previous)
                || (f.name.TrailMismatch? && expected.Some? && expected.value.trail != []
                    && link.trail != expected.value.trail))
  {
  }

  lemma DiscontinuityFindingsAre(h: Hash, lines: seq<Bytes>, i: nat, f: Finding)
    requires i < |lines| && Chained(lines[i])
    ensures f in DiscontinuityFindings(h, lines, i) <==>
            && f.line == i + 1 && (f.name.DiscontinuityMalformed? || f.name.DiscontinuityMismatch?)
            && Deserves(h, lines, i, f.name)
  {
    hide LinkOf, DamageNamedBy, OfDiscontinuityKind, DigestOf, BindingMalformed, NamesBefore;
    ExcusesIs(lines, i);
  }

  /** Where the head's identity differs from a record's is where the last chained line's does. */
  lemma TrailDiffers(h: Hash, lines: seq<Bytes>, i: nat)
    requires i < |lines| && Chained(lines[i]) && Expected(h, lines, i).Some?
    ensures var trail := Expected(h, lines, i).value.trail;
            trail != [] && LinkOf(lines[i]).value.trail != trail <==> Deserves(h, lines, i, TrailMismatch)
  {
    hide LinkOf, Excuses, HeadBefore, Expected, BindingMalformed, OfDiscontinuityKind, DamageNamedBy, Join;
    HeadTrail(h, lines, i);
    HeadIs(h, lines, i);
    var place, trail := PlaceOf(lines, i), Expected(h, lines, i).value.trail;
    if trail != [] {
      var k :| IsLastChained(lines, place, k) && TrailAt(lines, k) == trail;
      forall j | IsLastChained(lines, place, j)
        ensures j == k
      {
        OneLastChained(lines, place, j, k);
      }
    }
  }

  /** The findings of an undamaged line are exactly those it deserves, each under its own number. */
  lemma FindingsAre(h: Hash, lines: seq<Bytes>, i: nat, f: Finding)
    requires i < |lines| && !Damaged(lines, i)
    ensures f in ReportedOf(h, lines, i) <==> f.line == i + 1 && Deserves(h, lines, i, f.name)
  {
    hide LinkFindings, DiscontinuityFindings, DamageNamedBy, OfDiscontinuityKind, BindingMalformed, Expected, Excuses,
         ReadObject, PlaceOf;
    HeadIs(h, lines, i);
    LongSaysNothing(lines[i]);
    ExcusesIsChained(lines, i);
    if Chained(lines[i]) {
      LinkFindingsAre(LinkOf(lines[i]).value, Expected(h, lines, i), i + 1, f);
      DiscontinuityFindingsAre(h, lines, i, f);
      if Expected(h, lines, i).Some? {
        TrailDiffers(h, lines, i);
      }
    }
  }

  lemma LongSaysNothing(line: Bytes)
    ensures |line| > MAX_LINE ==> !Chained(line) && !BindingMalformed(line)
  {
  }

  lemma ExcusesIsChained(lines: seq<Bytes>, i: nat)
    requires i < |lines|
    ensures Excuses(lines, i) ==> Chained(lines[i])
  {
  }

  // ----- A reading that finds nothing -----

  lemma {:induction false} ReportedNothing(h: Hash, lines: seq<Bytes>, k: nat)
    requires k <= |lines|
    ensures Reported(h, lines, k) == [] <==> forall i | 0 <= i < k :: ReportedOf(h, lines, i) == []
  {
    hide ReportedOf;
    if k > 0 {
      ReportedNothing(h, lines, k - 1);
      assert |Reported(h, lines, k)| == |Reported(h, lines, k - 1)| + |ReportedOf(h, lines, k - 1)|;
    }
  }

  lemma DeservesNothing(h: Hash, lines: seq<Bytes>, i: nat)
    requires i < |lines|
    ensures ReportedOf(h, lines, i) == [] <==> Damaged(lines, i) || forall name :: !Deserves(h, lines, i, name)
  {
    hide Deserves, LineFindings, MemberFindings;
    if !Damaged(lines, i) {
      forall f: Finding
        ensures f in ReportedOf(h, lines, i) <==> f.line == i + 1 && Deserves(h, lines, i, f.name)
      {
        FindingsAre(h, lines, i, f);
      }
      if ReportedOf(h, lines, i) == [] {
        forall name
          ensures !Deserves(h, lines, i, name)
        {
          assert Finding(name, i + 1) !in ReportedOf(h, lines, i);
        }
      } else {
        assert Deserves(h, lines, i, ReportedOf(h, lines, i)[0].name);
      }
    }
  }

  /** Nothing is found of a trail exactly when it ends in a newline and no undamaged line of it deserves a finding. */
  lemma NothingFoundIs(h: Hash, file: Bytes)
    ensures var lines := CompleteLines(file);
            AllFindings(h, file) == [] <==>
            && (file == [] || file[|file| - 1] == '\n')
            && forall i, name | 0 <= i < |lines| && !Damaged(lines, i) :: !Deserves(h, lines, i, name)
  {
    hide Deserves, ReportedOf, CompleteLines, Damaged;
    var lines := CompleteLines(file);
    TailAfterNewline(file);
    ReportedNothing(h, lines, |lines|);
    forall i | 0 <= i < |lines| {
      DeservesNothing(h, lines, i);
    }
  }

  /** In a report with no finding, every record that stands is of the one identity that the head gives. */
  lemma ReportedIdentity(h: Hash, contents: Bytes, options: Report.Options, r: Report.ChainReport, i: nat)
    requires Report.Reports(h, contents, options, r) && r.findingsTotal == 0
    requires i < |CompleteLines(contents)| && Stands(CompleteLines(contents), i)
    ensures r.head.Some? && r.head.value.trail == LinkOf(CompleteLines(contents)[i]).value.trail
  {
    hide CompleteLines, LinkOf, Report.Everything, Report.StampedTo, Report.CountedIn, Report.ClosedListing, Report.ReachOf,
         Report.SummaryOf, Report.RequirementOf, Report.CountersignedThrough, AllFindings, Damaged, SoundThrough;
    var lines := CompleteLines(contents);
    Report.EverythingExtends(h, contents, options);
    NothingIsSound(h, contents);
    assert Coverage.ClassOf(lines, i).ChainedLine?;
    var k := Report.HeadIndex(lines, |lines|).value;
    OneIdentity(h, lines, |lines|, i, k);
  }

  lemma NothingIsSound(h: Hash, file: Bytes)
    requires AllFindings(h, file) == []
    ensures SoundThrough(h, CompleteLines(file), |CompleteLines(file)|)
  {
    hide CompleteLines, Tail, Reported, SoundThrough;
    SoundIsReported(h, CompleteLines(file), |CompleteLines(file)|, |CompleteLines(file)|);
  }

  // ----- What a checkpoint is found for -----

  /** When a checkpoint is found wrong in this way: there is no such line, no such record, or another one. */
  ghost predicate Fails(h: Hash, lines: seq<Bytes>, c: Checkpoint, name: FindingName) {
    var there := 0 < c.sequence <= |lines|;
    var stands := there && Stands(lines, c.sequence - 1);
    match name
    case CheckpointBeyondTrail => !there
    case CheckpointNotChained => there && !stands
    case CheckpointTrailMismatch => stands && TrailAt(lines, c.sequence - 1) != c.trail
    case CheckpointRecordMismatch =>
      stands && TrailAt(lines, c.sequence - 1) == c.trail && h(lines[c.sequence - 1]) != c.digest
    case _ => false
  }

  lemma HoldIs(h: Hash, lines: seq<Bytes>, c: Checkpoint, name: FindingName)
    ensures HoldCheckpoint(h, lines, c) == Some(name) <==> Fails(h, lines, c, name)
    ensures Matches(h, lines, c) <==> forall other :: !Fails(h, lines, c, other)
  {
    hide Damaged, LinkOf;
    var found := HoldCheckpoint(h, lines, c);
    assert found.Some? ==> Fails(h, lines, c, found.value);
  }

  /** The checkpoint is wrong in no way. */
  ghost predicate OfTrailItself(h: Hash, lines: seq<Bytes>, c: Checkpoint) { forall name :: !Fails(h, lines, c, name) }

  lemma MatchesIs(h: Hash, lines: seq<Bytes>, c: Checkpoint)
    ensures Matches(h, lines, c) <==> OfTrailItself(h, lines, c)
  {
    hide HoldCheckpoint, Fails;
    HoldIs(h, lines, c, LineTooLong);
  }

  /** Holding a trail to checkpoints adds a finding for each that fails, and no other; a stamp's has one name for all. */
  lemma {:induction false} HeldFindingsAre(h: Hash, lines: seq<Bytes>, held: seq<Checkpoint>, stamped: bool,
                                           recorded: seq<Finding>, f: Finding)
    ensures f in HoldEach(h, lines, held, stamped, recorded) <==>
            || f in recorded
            || exists c, name :: c in held && Fails(h, lines, c, name)
                                 && f == Finding(if stamped then StampCheckpointMismatch else name, c.sequence)
  {
    hide Fails, HoldCheckpoint;
    if held != [] {
      var front, last := held[..|held| - 1], held[|held| - 1];
      assert held == front + [last];
      HeldFindingsAre(h, lines, front, stamped, recorded, f);
      forall name
        ensures HoldCheckpoint(h, lines, last) == Some(name) <==> Fails(h, lines, last, name)
      {
        HoldIs(h, lines, last, name);
      }
    }
  }

  /** A required coverage is met exactly when a checkpoint that attests, held or credited, is at it or past it. */
  lemma RequirementIs(h: Hash, file: Bytes, options: Report.Options)
    requires options.Valid() && options.requireThrough > 0
    ensures Report.RequirementOf(h, file, options).Met? <==>
            exists c :: c in options.held + options.Credited() && c.sequence >= options.requireThrough
                        && Report.Attests(h, CompleteLines(file), options, c)
    ensures Report.Everything(h, file, options) ==
            Report.HeldTo(h, file, options)
            + (if Report.RequirementOf(h, file, options).Met? then []
               else [Finding(CheckpointCoverageMissing, options.requireThrough)])
  {
    hide Report.Attests, Report.ReachOf, Report.HeldTo, CompleteLines;
    Report.ReachIsHighest(h, file, options);
  }
}
