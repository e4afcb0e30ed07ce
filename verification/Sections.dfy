/**
 What the sections of a report say besides its findings' names: which findings a trail's reading makes in all, the bytes
 left without a newline, the damage that discontinuities name, how many held checkpoints matched, and what is signed.
 */
module Sections {
  import opened Octets
  import opened Chain
  import opened Checkpoints
  import opened Soundness
  import opened Verifier
  import opened Signatures
  import opened SignatureReader
  import opened Attested
  import opened Sidecar
  import opened Coverage
  import Report

  // ----- The findings of a trail -----

  /** The line of this number stands undamaged and deserves the finding. */
  ghost predicate Earned(h: Hash, lines: seq<Bytes>, f: Finding) {
    0 < f.line <= |lines| && !Damaged(lines, f.line - 1) && Deserves(h, lines, f.line - 1, f.name)
  }

  lemma {:induction false} ReportedAre(h: Hash, lines: seq<Bytes>, k: nat, f: Finding)
    requires k <= |lines|
    ensures f in Reported(h, lines, k) <==> f.line <= k && Earned(h, lines, f)
  {
    hide ReportedOf, Deserves, Damaged;
    if k > 0 {
      ReportedAre(h, lines, k - 1, f);
      if Damaged(lines, k - 1) {
        NothingOfDamaged(h, lines, k - 1);
      } else {
        FindingsAre(h, lines, k - 1, f);
      }
    }
  }

  lemma NothingOfDamaged(h: Hash, lines: seq<Bytes>, i: nat)
    requires i < |lines| && Damaged(lines, i)
    ensures ReportedOf(h, lines, i) == []
  {
    hide LineFindings, MemberFindings;
  }

  /** The reading of a trail makes the findings its lines earn, one more for bytes without a newline, and no other. */
  lemma AllFindingsAre(h: Hash, file: Bytes, f: Finding)
    ensures var lines := CompleteLines(file);
            f in AllFindings(h, file) <==>
            || Earned(h, lines, f)
            || (file != [] && file[|file| - 1] != '\n' && f == Finding(IncompleteLastLine, |lines| + 1))
  {
    hide Reported, Earned, CompleteLines, Tail;
    var lines := CompleteLines(file);
    TailAfterNewline(file);
    ReportedAre(h, lines, |lines|, f);
    EarnedInRange(h, lines, f);
  }

  lemma EarnedInRange(h: Hash, lines: seq<Bytes>, f: Finding)
    ensures Earned(h, lines, f) ==> f.line <= |lines|
  {
  }

  // ----- The bytes left over -----

  /** The file's last bytes, so many, are what follows its last newline. */
  predicate LeftOver(file: Bytes, length: nat) {
    && 0 < length <= |file| && '\n' !in file[|file| - length..]
    && (length < |file| ==> file[|file| - length - 1] == '\n')
  }

  lemma LeftOverIs(file: Bytes, length: nat)
    ensures LeftOver(file, length) <==> Tail(file) != [] && length == |Tail(file)|
    ensures LeftOver(file, length) ==> file[|file| - length..] == Tail(file)
  {
    hide CompleteLines, Tail, LeftOver;
    TailAfterNewline(file);
    if Tail(file) == [] {
      NothingLeftOver(file, length);
    } else {
      TailIsLeftOver(file);
      NotLonger(file, length, |Tail(file)|);
      NotLonger(file, |Tail(file)|, length);
    }
  }

  lemma NothingLeftOver(file: Bytes, length: nat)
    requires file == [] || file[|file| - 1] == '\n'
    ensures !LeftOver(file, length)
  {
    if 0 < length <= |file| {
      assert file[|file| - length..][length - 1] == '\n';
    }
  }

  lemma TailIsLeftOver(file: Bytes)
    requires Tail(file) != []
    ensures LeftOver(file, |Tail(file)|) && file[|file| - |Tail(file)|..] == Tail(file)
  {
    hide CompleteLines, Tail, Join;
    JoinOfSplit(file);
    var front := Join(CompleteLines(file));
    JoinEmptyOrEnds(CompleteLines(file));
    assert |file| - |Tail(file)| == |front| && file[|front|..] == Tail(file);
    assert front != [] ==> file[|front| - 1] == front[|front| - 1];
  }

  lemma NotLonger(file: Bytes, short: nat, long: nat)
    ensures LeftOver(file, short) && short < long ==> !LeftOver(file, long)
  {
    if 0 < short < long <= |file| {
      assert file[|file| - long..][long - short - 1] == file[|file| - short - 1];
    }
  }

  /** The incomplete last line is reported with the number it would have, its own length and its own digest. */
  lemma IncompleteIs(h: Hash, file: Bytes, number: nat, length: nat, digest: Digest)
    ensures IncompleteOf(h, file) == Some((number, length, digest)) <==>
            LeftOver(file, length) && number == |CompleteLines(file)| + 1 && digest == h(file[|file| - length..])
  {
    hide CompleteLines, Tail, LeftOver;
    LeftOverIs(file, length);
    if Tail(file) != [] {
      LeftOverIs(file, |Tail(file)|);
    }
  }

  // ----- The damage named -----

  /** It is a record's word, believed, for the line before it. */
  ghost predicate NamedBy(lines: seq<Bytes>, d: Discontinuity) {
    && 0 < d.damaged < |lines| && d.line == d.damaged + 1 && NamesBefore(lines, d.damaged)
    && DamageNamedBy(lines[d.damaged]) == Some(Damage(d.damaged, d.bytes, d.digest))
  }

  lemma {:induction false} DiscontinuitiesAre(lines: seq<Bytes>, n: nat, d: Discontinuity)
    requires n <= |lines|
    ensures d in DiscontinuitiesOf(lines, n) <==> d.line <= n && NamedBy(lines, d)
  {
    hide NamedBy, NamedDamage;
    if n > 0 {
      DiscontinuitiesAre(lines, n - 1, d);
      NamedIs(lines, n - 1, d);
    } else {
      NamedLater(lines, d);
    }
  }

  lemma NamedLater(lines: seq<Bytes>, d: Discontinuity)
    ensures NamedBy(lines, d) ==> d.line > 0
  {
  }

  lemma NamedIs(lines: seq<Bytes>, i: nat, d: Discontinuity)
    requires i < |lines|
    ensures d in NamedDamage(lines, i) <==> d.line == i + 1 && NamedBy(lines, d)
  {
    hide Chained, OfDiscontinuityKind, DamageNamedBy;
    ExcusesIs(lines, i);
  }

  // ----- The checkpoints held -----

  /** Which of these the trail matches. */
  ghost function MatchingAt(h: Hash, lines: seq<Bytes>, held: seq<Checkpoint>): set<nat> {
    set i: nat | i < |held| && OfTrailItself(h, lines, held[i])
  }

  lemma {:induction false} MatchingCounted(h: Hash, lines: seq<Bytes>, held: seq<Checkpoint>)
    ensures |Matching(h, lines, held)| == |MatchingAt(h, lines, held)|
  {
    hide HoldCheckpoint, OfTrailItself;
    if held == [] {
      assert MatchingAt(h, lines, held) == {};
    } else {
      var n := |held| - 1;
      MatchingCounted(h, lines, held[..n]);
      MatchesIs(h, lines, held[n]);
      OneMoreMatching(h, lines, held);
    }
  }

  lemma OneMoreMatching(h: Hash, lines: seq<Bytes>, held: seq<Checkpoint>)
    requires held != []
    ensures var n := |held| - 1;
            |MatchingAt(h, lines, held)| ==
            |MatchingAt(h, lines, held[..n])| + (if OfTrailItself(h, lines, held[n]) then 1 else 0)
  {
    hide OfTrailItself;
    var n := |held| - 1;
    OnePlaceMore(MatchingAt(h, lines, held[..n]), MatchingAt(h, lines, held), n, OfTrailItself(h, lines, held[n]));
  }

  lemma {:induction false} InsertMatching(h: Hash, lines: seq<Bytes>, held: seq<Checkpoint>, more: Checkpoint)
    ensures |Matching(h, lines, Insert(held, more))| ==
            |Matching(h, lines, held)| + (if Matches(h, lines, more) then 1 else 0)
  {
    hide HoldCheckpoint;
    if held == [] || held[|held| - 1].sequence <= more.sequence {
      assert (held + [more])[..|held|] == held;
    } else {
      var front, last := held[..|held| - 1], held[|held| - 1];
      InsertMatching(h, lines, front, more);
      assert (Insert(front, more) + [last])[..|Insert(front, more)|] == Insert(front, more);
    }
  }

  lemma {:induction false} SortedMatching(h: Hash, lines: seq<Bytes>, held: seq<Checkpoint>)
    ensures |Matching(h, lines, Sorted(held))| == |Matching(h, lines, held)|
  {
    hide HoldCheckpoint, Insert;
    if held != [] {
      SortedMatching(h, lines, held[..|held| - 1]);
      InsertMatching(h, lines, Sorted(held[..|held| - 1]), held[|held| - 1]);
    }
  }

  /** Of the checkpoints held: how many there are, how many match, and the highest that attests. */
  lemma SummaryIs(h: Hash, file: Bytes, options: Report.Options)
    requires options.Valid()
    ensures var lines, summary := CompleteLines(file), Report.SummaryOf(h, file, options);
            && (summary.Some? <==> options.held != [])
            && (summary.Some? ==>
                  && summary.value.supplied == |options.held|
                  && summary.value.matched == |MatchingAt(h, lines, options.held)|
                  && summary.value.matched + summary.value.failed == summary.value.supplied
                  && (summary.value.latest.Some? ==>
                        && summary.value.latest.value in options.held
                        && Report.Attests(h, lines, options, summary.value.latest.value))
                  && (forall c | c in options.held && Report.Attests(h, lines, options, c) ::
                        summary.value.latest.Some? && c.sequence <= summary.value.latest.value.sequence))
  {
    hide Matches, Matching, Insert, Sorted, Through, Report.HeldTo, CompleteLines, Earliest, SoundThrough, MatchingAt,
         Report.HeldAllMatched;
    var lines, earliest := CompleteLines(file), Earliest(Report.HeldTo(h, file, options));
    SortedKeeps(options.held);
    assert |Sorted(options.held)| == |multiset(Sorted(options.held))| == |multiset(options.held)| == |options.held|;
    AllMatching(h, lines, Sorted(options.held));
    SortedMatching(h, lines, options.held);
    MatchingCounted(h, lines, options.held);
    ThroughIsHighest(h, lines, options.held, earliest);
    forall c | c in options.held && Matches(h, lines, c)
      ensures Clear(earliest, c.sequence) <==> Report.Attests(h, lines, options, c)
    {
      Report.ClearIsAttested(h, file, options, c);
    }
  }

  // ----- What covers the lines -----

  /** A record that stands is among the lines from one place up to another. */
  ghost predicate StandsBetween(lines: seq<Bytes>, from: nat, to: nat) {
    exists j: nat :: from <= j < to && j < |lines| && Stands(lines, j)
  }

  /** Which lines are neither records of the chain nor named damaged, with records of it before them, and after. */
  ghost function UnchainedAt(lines: seq<Bytes>, before: bool, after: bool): set<nat> {
    set i: nat | i < |lines| && !Chained(lines[i]) && !Damaged(lines, i)
                 && StandsBetween(lines, 0, i) == before && StandsBetween(lines, i + 1, |lines|) == after
  }

  ghost function CoveredSo(lines: seq<Bytes>, cover: Cover): set<nat> {
    match cover
    case InLegacyPrefix => UnchainedAt(lines, false, true)
    case BetweenChained => UnchainedAt(lines, true, true)
    case Uncovered => UnchainedAt(lines, false, false) + UnchainedAt(lines, true, false)
    case InChain => set i: nat | i < |lines| && Stands(lines, i)
    case AsDamaged => set i: nat | i < |lines| && Damaged(lines, i)
  }

  ghost function CountedAt(covers: seq<Cover>, cover: Cover): set<nat> { set i: nat | i < |covers| && covers[i] == cover }

  lemma {:induction false} CountIs(covers: seq<Cover>, cover: Cover)
    ensures Count(covers, cover) == |CountedAt(covers, cover)|
  {
    hide CountedAt;
    if covers == [] {
      NoneCounted(cover);
    } else {
      var n := |covers| - 1;
      CountIs(covers[..n], cover);
      OneMoreCounted(covers, cover);
    }
  }

  lemma NoneCounted(cover: Cover)
    ensures CountedAt([], cover) == {}
  {
  }

  lemma OneMoreCounted(covers: seq<Cover>, cover: Cover)
    requires covers != []
    ensures var n := |covers| - 1;
            |CountedAt(covers, cover)| == |CountedAt(covers[..n], cover)| + (if covers[n] == cover then 1 else 0)
  {
    var n := |covers| - 1;
    OnePlaceMore(CountedAt(covers[..n], cover), CountedAt(covers, cover), n, covers[n] == cover);
  }

  lemma {:induction false} ClassesAre(lines: seq<Bytes>, k: nat)
    requires k <= |lines|
    ensures forall i | 0 <= i < k :: Classes(lines, k)[i] == ClassOf(lines, i)
  {
    hide ClassOf;
    if k > 0 {
      ClassesAre(lines, k - 1);
    }
  }

  lemma CoverIs(lines: seq<Bytes>, i: nat, cover: Cover)
    requires i < |lines|
    ensures CoverOf(Classes(lines, |lines|), i) == cover <==> i in CoveredSo(lines, cover)
  {
    hide Chained, Damaged, Classes;
    var classes := Classes(lines, |lines|);
    ClassesAre(lines, |lines|);
    forall j | 0 <= j < |lines|
      ensures classes[j].ChainedLine? <==> Stands(lines, j)
    {
    }
    assert ChainedBefore(classes, i) <==> StandsBetween(lines, 0, i);
    assert ChainedAfter(classes, i) <==> StandsBetween(lines, i + 1, |lines|);
  }

  /** The coverage of a report counts the lines that are covered so, by the records that stand about them. */
  lemma CoverageIs(coverage: Report.CoverageReport, lines: seq<Bytes>)
    requires Report.CountedIn(coverage, lines)
    ensures coverage.legacyPrefix == |UnchainedAt(lines, false, true)|
    ensures coverage.unchained == |UnchainedAt(lines, true, true)|
    ensures coverage.uncovered == |UnchainedAt(lines, false, false) + UnchainedAt(lines, true, false)|
    ensures coverage.chained == |set i: nat | i < |lines| && Stands(lines, i)|
    ensures coverage.damaged == |set i: nat | i < |lines| && Damaged(lines, i)|
  {
    hide Chained, Damaged, Classes, CoverOf, StandsBetween, Count;
    forall cover: Cover
      ensures Count(Covers(Classes(lines, |lines|)), cover) == |CoveredSo(lines, cover)|
    {
      CountIs(Covers(Classes(lines, |lines|)), cover);
      SoCovered(lines, cover);
    }
  }

  lemma SoCovered(lines: seq<Bytes>, cover: Cover)
    ensures CountedAt(Covers(Classes(lines, |lines|)), cover) == CoveredSo(lines, cover)
  {
    hide Chained, Damaged, Classes, CoverOf, StandsBetween, CoveredSo;
    forall i: nat | i < |lines|
      ensures CoverOf(Classes(lines, |lines|), i) == cover <==> i in CoveredSo(lines, cover)
    {
      CoverIs(lines, i, cover);
    }
    CoveredInRange(lines, cover);
  }

  lemma CoveredInRange(lines: seq<Bytes>, cover: Cover)
    ensures forall i | i in CoveredSo(lines, cover) :: i < |lines|
  {
  }

  // ----- What is signed -----

  /** The sequences of the records that some item signs. */
  ghost function SignedSet(b: Beside, options: SignatureOptions, sidecar: Bytes): set<nat>
    requires options.keys != []
  {
    set n: nat | n <= |b.lines| && SignedBy(b, options, ItemsOf(sidecar), n)
  }

  ghost predicate SignedBy(b: Beside, options: SignatureOptions, items: seq<Item>, n: nat)
    requires options.keys != []
  {
    exists j: nat :: j < |items| && SignsNumber(b, options, items, j, n)
  }

  ghost function Among(sequences: seq<nat>): set<nat> { set n | n in sequences }

  lemma {:induction false} IncreasingCounted(sequences: seq<nat>)
    requires Increasing(sequences)
    ensures |sequences| == |Among(sequences)|
  {
    if sequences != [] {
      var front, last := sequences[..|sequences| - 1], sequences[|sequences| - 1];
      assert sequences == front + [last];
      IncreasingCounted(front);
      AmongMore(front, last);
    } else {
      assert Among(sequences) == {};
    }
  }

  lemma AmongMore(front: seq<nat>, last: nat)
    requires Increasing(front + [last])
    ensures |Among(front + [last])| == |Among(front)| + 1
  {
    var all := front + [last];
    forall i | 0 <= i < |front|
      ensures front[i] < last
    {
      assert all[i] < all[|front|];
    }
    assert Among(all) == Among(front) + {last} && last !in Among(front);
  }

  /** Each record signed is counted once, and so is each past the greatest of them the trail is sound through. */
  lemma SignedCoverageIs(b: Beside, options: SignatureOptions, sidecar: Bytes, required: nat, r: SignedCoverage)
    requires options.keys != [] && SignedAsRead(b, options, sidecar, required, r)
    ensures var signed := SignedSet(b, options, sidecar);
            && r.signedRecords == |signed|
            && r.afterThrough == |set n | n in signed && n > r.through|
            && (r.through > 0 ==> r.through in signed && SoundThrough(b.h, b.lines, r.through))
            && (forall n | n in signed && SoundThrough(b.h, b.lines, n) :: n <= r.through)
  {
    hide Signs, ItemsOf, ReadSidecar, WrongSo, SoundThrough, Chained, Damaged;
    var p, signed := ReadSidecar(b, options, sidecar), SignedSet(b, options, sidecar);
    SidecarMeans(b, options, sidecar);
    ReadCountsWell(b, options, sidecar);
    IncreasingCounted(p.signedAt);
    assert Among(p.signedAt) == signed;
    assert Above(p.signedAt, r.through) == set n | n in signed && n > r.through;
  }
}
