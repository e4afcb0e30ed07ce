/**
 The streaming verifier: one pass over a trail, a line at a time, with a running hash of everything read and
 one line of look-ahead, because the next line may excuse this one as damaged. What it reports is what the
 chain says of the whole list of lines.
 */
module Verifier {
  import opened Octets
  import opened Json
  import opened Chain
  import opened Coverage
  import opened Reading
  import opened Listings
  import Checkpoints

  /** How many findings a report lists; their total counts them all. */
  const MAX_FINDINGS: nat := 100

  /** How many discontinuities and segments a report lists; their totals count them all. */
  const MAX_LISTED: nat := 100

  /** What outlives a line's text: its number, length, digest and link, its findings, and whether it is damaged. */
  datatype SeenLine = SeenLine(
    number: nat, length: nat, digest: Digest, oversized: bool, link: Option<Link>, before: Option<Head>,
    discontinuityKind: bool, findings: seq<Finding>, memberFindings: seq<Finding>, damaged: bool)

  /** The line at index i as the chain describes it, before anything after it is read. */
  function Seen(h: Hash, lines: seq<Bytes>, i: nat): SeenLine
    requires i < |lines|
  {
    SeenLine(i + 1, |lines[i]|, DigestOf(h, lines[i]), Oversized(lines[i]), LinkOf(lines[i]), HeadBefore(h, lines, i),
             OfDiscontinuityKind(lines[i]), LineFindings(h, lines, i), MemberFindings(lines, i), false)
  }

  /** The line at index i once the line after it is read, or nothing more is. */
  function SettledLine(h: Hash, lines: seq<Bytes>, i: nat): SeenLine
    requires i < |lines|
  {
    Seen(h, lines, i).(damaged := Damaged(lines, i))
  }

  function LineNumbered(h: Hash, lines: seq<Bytes>, n: nat): SeenLine
    requires 0 < n <= |lines|
  {
    SettledLine(h, lines, n - 1)
  }

  /** How many lines are settled once n are read: all but the last, which the next may still excuse. */
  function Behind(n: nat): (k: nat)
    ensures k <= n
  {
    if n == 0 then 0 else n - 1
  }

  /** The last undamaged chained line of the first k. */
  function ChainHead(h: Hash, lines: seq<Bytes>, k: nat): Option<SeenLine>
    requires k <= |lines|
  {
    if k == 0 then None
    else if ClassOf(lines, k - 1).ChainedLine? then Some(Seen(h, lines, k - 1))
    else ChainHead(h, lines, k - 1)
  }

  datatype Discontinuity = Discontinuity(line: nat, damaged: nat, bytes: nat, digest: Bytes)

  /** The discontinuities among the first n lines that excuse the line before them. */
  function DiscontinuitiesOf(lines: seq<Bytes>, n: nat): seq<Discontinuity>
    requires n <= |lines|
  {
    if n == 0 then []
    else
      DiscontinuitiesOf(lines, n - 1) + NamedDamage(lines, n - 1)
  }

  function NamedDamage(lines: seq<Bytes>, i: nat): seq<Discontinuity>
    requires i < |lines|
  {
    if Excuses(lines, i) then
      var named := DamageNamedBy(lines[i]).value;
      [Discontinuity(i + 1, i, named.bytes, named.digest)]
    else []
  }

  function CutNext(before: Cut, repair: bool, n: nat): Cut {
    if repair then Cut(CloseSegment(before.segments, before.start, n - 2), n) else before
  }

  lemma {:induction false} DiscontinuitiesOfPrefix(lines: seq<Bytes>, more: seq<Bytes>, n: nat)
    requires n <= |lines|
    ensures DiscontinuitiesOf(lines + more, n) == DiscontinuitiesOf(lines, n)
  {
    if n > 0 {
      DiscontinuitiesOfPrefix(lines, more, n - 1);
      ExcusesPrefix(lines, more, n - 1);
      assert (lines + more)[n - 1] == lines[n - 1];
      assert Excuses(lines, n - 1) ==> DamageNamedBy(lines[n - 1]).Some?;
      hide Excuses, DamageNamedBy;
    }
  }

  /** Each of these names a damaged line ahead of its own, and they name lines in order, none twice. */
  ghost predicate NameDamaged(lines: seq<Bytes>, named: seq<Discontinuity>, n: nat) {
    && (forall j | 0 <= j < |named| :: NamesDamaged(lines, named[j], n))
    && (forall j, k | 0 <= j < k < |named| :: named[j].damaged < named[k].damaged)
  }

  predicate NamesDamaged(lines: seq<Bytes>, d: Discontinuity, n: nat) {
    0 < d.damaged < d.line <= n && d.damaged <= |lines| && Damaged(lines, d.damaged - 1)
  }

  /** Every line that a listed discontinuity names is damaged, and no line is named twice. */
  lemma {:induction false} NamedAreDamaged(lines: seq<Bytes>, n: nat)
    requires n <= |lines|
    ensures NameDamaged(lines, DiscontinuitiesOf(lines, n), n)
  {
    hide Excuses, NamedDamage;
    if n > 0 {
      var before, more := DiscontinuitiesOf(lines, n - 1), NamedDamage(lines, n - 1);
      NamedAreDamaged(lines, n - 1);
      NamedDamageIs(lines, n - 1);
      forall j | 0 <= j < |before|
        ensures NamesDamaged(lines, before[j], n - 1)
      {
      }
      assert DiscontinuitiesOf(lines, n) == before + more;
    }
  }

  /** And every damaged line is named, once the line after it is read. */
  lemma {:induction false} DamagedAreNamed(lines: seq<Bytes>, n: nat, i: nat) returns (j: nat)
    requires i + 1 < n <= |lines| && Damaged(lines, i)
    ensures j < |DiscontinuitiesOf(lines, n)| && DiscontinuitiesOf(lines, n)[j].damaged == i + 1
  {
    hide Excuses, NamedDamage;
    NamedDamageIs(lines, n - 1);
    if i + 2 == n {
      j := |DiscontinuitiesOf(lines, n - 1)|;
    } else {
      j := DamagedAreNamed(lines, n - 1, i);
    }
  }

  lemma NamedDamageIs(lines: seq<Bytes>, i: nat)
    requires i < |lines|
    ensures var more := NamedDamage(lines, i);
            if Excuses(lines, i) then i > 0 && |more| == 1 && more[0].damaged == i && more[0].line == i + 1 else more == []
  {
    hide DamageNamedBy, OfDiscontinuityKind, Chained;
  }

  lemma SeenPrefix(h: Hash, lines: seq<Bytes>, more: seq<Bytes>, i: nat)
    requires i < |lines|
    ensures Seen(h, lines + more, i) == Seen(h, lines, i)
  {
    hide HeadBefore, LineFindings, MemberFindings, OfDiscontinuityKind, LinkOf;
    HeadBeforePrefix(h, lines, more, i);
    LineFindingsPrefix(h, lines, more, i);
    assert (lines + more)[i] == lines[i];
  }

  lemma {:induction false} ChainHeadPrefix(h: Hash, lines: seq<Bytes>, more: seq<Bytes>, k: nat)
    requires k < |lines|
    ensures ChainHead(h, lines + more, k) == ChainHead(h, lines, k)
  {
    hide Seen, ClassOf;
    if k > 0 {
      ChainHeadPrefix(h, lines, more, k - 1);
      SeenPrefix(h, lines, more, k - 1);
      ClassOfPrefix(lines, more, k - 1);
    }
  }

  // ----- What the verifier's fields stand for -----

  /** The running hash has taken everything up to the offset, which is exactly these complete lines. */
  ghost predicate StreamHolds(contents: Bytes, offset: nat, whole: Bytes, lines: seq<Bytes>) {
    && offset <= |contents| && whole == contents[..offset]
    && whole == Join(lines) && AreLines(lines)
  }

  /** All that the next line's checks need of the lines before it. */
  datatype LookAhead = LookAhead(previous: Option<SeenLine>, lastTrail: Bytes)

  function LookAheadOf(h: Hash, lines: seq<Bytes>): LookAhead {
    LookAhead(if lines == [] then None else Some(Seen(h, lines, |lines| - 1)), LastTrail(lines))
  }

  /** The discontinuities and segments listed, with their totals, and where the open segment starts. */
  datatype Listing = Listing(discontinuities: seq<Discontinuity>, discontinuitiesTotal: nat,
                             segments: seq<Segment>, segmentsTotal: nat, segmentStart: nat)

  function ListingOf(lines: seq<Bytes>): Listing {
    var found, cut := DiscontinuitiesOf(lines, |lines|), CutAfter(Repairs(lines, |lines|));
    Listing(First(MAX_LISTED, found), |found|, First(MAX_LISTED, cut.segments), |cut.segments|, cut.start)
  }

  /** The findings listed, how many there are, and the lowest line one of the chain is at. */
  datatype Log = Log(findings: seq<Finding>, total: nat, earliest: nat)

  function LogOf(recorded: seq<Finding>): Log {
    Log(First(MAX_FINDINGS, recorded), |recorded|, Earliest(recorded))
  }

  /** How many lines of each kind, by what covers them. */
  datatype CoverageCounts = CoverageCounts(legacyPrefix: nat, chained: nat, unchained: nat, damaged: nat)

  datatype Counts = Counts(coverage: CoverageCounts, pendingUnchained: nat, firstChained: bool)

  function CountsOf(classes: seq<LineClass>): Counts {
    var covers := Covers(classes);
    Counts(CoverageCounts(Count(covers, InLegacyPrefix), Count(covers, InChain), Count(covers, BetweenChained),
                          Count(covers, AsDamaged)),
           Count(covers, Uncovered), ChainedBefore(classes, |classes|))
  }

  /** The wanted lines among these, each as it stands once the line after it is read. */
  function HeldAmong(h: Hash, wanted: set<nat>, lines: seq<Bytes>): map<nat, SeenLine> {
    map n | n in wanted && 0 < n <= |lines| :: LineNumbered(h, lines, n)
  }

  /** The wanted chained lines among the first k, with how many chained lines there are up to each. */
  function ChainedAmong(wanted: set<nat>, lines: seq<Bytes>, k: nat): map<nat, nat>
    requires k <= |lines|
  {
    map n | n in wanted && 0 < n <= k && ClassOf(lines, n - 1).ChainedLine? ::
      Count(Covers(Classes(lines, n)), InChain)
  }

  /** What the first k lines come to, once they are settled. */
  datatype Tally = Tally(counts: Counts, head: Option<SeenLine>, chainedAt: map<nat, nat>)

  function TallyOf(h: Hash, wanted: set<nat>, lines: seq<Bytes>, k: nat): Tally
    requires k <= |lines|
  {
    Tally(CountsOf(Classes(lines, k)), ChainHead(h, lines, k), ChainedAmong(wanted, lines, k))
  }

  /** The rest without a newline, by the number it would have, its length and its digest. */
  function IncompleteOf(h: Hash, contents: Bytes): Option<(nat, nat, Digest)> {
    var tail := Tail(contents);
    if tail == [] then None else Some((|CompleteLines(contents)| + 1, |tail|, DigestOf(h, tail)))
  }

  class TrailVerifier {
    const h: Hash
    const contents: Bytes
    /** The line numbers a checkpoint names, whose lines are kept. */
    const wanted: set<nat>
    /** The checkpoints asked for. */
    const asked: Option<ListRequest>

    var offset: nat
    /** Everything read so far, as the running hash has taken it. */
    var whole: Bytes

    var lines: nat
    var previous: Option<SeenLine>
    var lastTrail: Bytes
    var incomplete: Option<(nat, nat, Digest)>

    /** For each wanted number: its line, and how many records were chained once it was settled. */
    var heldLines: map<nat, SeenLine>
    var chainedAt: map<nat, nat>
    var head: Option<SeenLine>
    var pendingUnchained: nat
    var firstChained: bool
    var coverage: CoverageCounts

    var findings: seq<Finding>
    var findingsTotal: nat
    var earliestFinding: nat

    var discontinuities: seq<Discontinuity>
    var discontinuitiesTotal: nat
    var segments: seq<Segment>
    var segmentsTotal: nat
    var segmentStart: nat

    var listed: seq<Checkpoints.Checkpoint>
    var more: bool

    /** The complete lines read. */
    ghost var read: seq<Bytes>

    constructor (h: Hash, contents: Bytes, wanted: set<nat>, asked: Option<ListRequest>)
      ensures this.h == h && this.contents == contents && this.wanted == wanted && this.asked == asked
      ensures AtLine() && read == [] && offset == 0
    {
      this.h, this.contents, this.wanted, this.asked := h, contents, wanted, asked;
      heldLines, chainedAt := map[], map[];
      offset, whole := 0, [];
      lines, previous, lastTrail, incomplete := 0, None, [], None;
      head, pendingUnchained, firstChained := None, 0, false;
      coverage := CoverageCounts(0, 0, 0, 0);
      findings, findingsTotal, earliestFinding := [], 0, 0;
      discontinuities, discontinuitiesTotal := [], 0;
      segments, segmentsTotal, segmentStart := [], 0, 1;
      listed, more := [], false;
      read := [];
    }

    /** The stream has come to the end of these lines; as many as were read before them are numbered. */
    ghost predicate CameTo(taken: seq<Bytes>)
      reads `offset, `whole, `lines, `incomplete, `read
    {
      StreamHolds(contents, offset, whole, taken) && lines == |read| && incomplete == None
    }

    /** The last line read is kept; what the lines read cut and excuse is listed, and the wanted ones are held. */
    ghost predicate Checked()
      reads `previous, `lastTrail, `discontinuities, `discontinuitiesTotal, `segments, `segmentsTotal, `segmentStart
      reads `heldLines, `read
    {
      && LookAhead(previous, lastTrail) == LookAheadOf(h, read)
      && Listing(discontinuities, discontinuitiesTotal, segments, segmentsTotal, segmentStart) == ListingOf(read)
      && heldLines == HeldAmong(h, wanted, read)
    }

    /** So it is with one line more, which waits while the line before it is still the one kept. */
    ghost predicate CheckedNext(seen: SeenLine, text: Bytes)
      reads `previous, `lastTrail, `discontinuities, `discontinuitiesTotal, `segments, `segmentsTotal, `segmentStart
      reads `heldLines, `read
    {
      && seen == Seen(h, read + [text], |read|) && lastTrail == LastTrail(read + [text])
      && previous == BeforeLast(h, read + [text])
      && Listing(discontinuities, discontinuitiesTotal, segments, segmentsTotal, segmentStart) == ListingOf(read + [text])
      && heldLines == HeldAmong(h, wanted, read + [text])
    }

    /** So many of these lines are reported and counted. */
    ghost predicate SettledTo(all: seq<Bytes>, n: nat)
      requires n <= |all|
      reads `findings, `findingsTotal, `earliestFinding, `pendingUnchained, `firstChained, `coverage, `head, `chainedAt
      reads `listed, `more
    {
      && Log(findings, findingsTotal, earliestFinding) == LogOf(Reported(h, all, n))
      && Tally(Counts(coverage, pendingUnchained, firstChained), head, chainedAt) == TallyOf(h, wanted, all, n)
      && CheckpointList(listed, more) == ListedOf(h, asked, all, n)
    }

    /** Between two lines: all but the last one read are settled. */
    ghost predicate AtLine()
      reads this
    {
      CameTo(read) && Checked() && SettledTo(read, Behind(|read|))
    }

    /** Every line is read and counted. */
    ghost predicate Counted()
      reads `lines, `read, `discontinuities, `discontinuitiesTotal, `segments, `segmentsTotal, `segmentStart
      reads `heldLines, `pendingUnchained, `firstChained, `coverage, `head, `chainedAt, `listed, `more
    {
      && read == CompleteLines(contents) && lines == |read|
      && Listing(discontinuities, discontinuitiesTotal, segments, segmentsTotal, segmentStart) == ListingOf(read)
      && heldLines == HeldAmong(h, wanted, read)
      && Tally(Counts(coverage, pendingUnchained, firstChained), head, chainedAt) == TallyOf(h, wanted, read, |read|)
      && CheckpointList(listed, more) == ListedOf(h, asked, read, |read|)
    }

    /** Every line is settled. */
    ghost predicate AllSettled()
      reads this
    {
      Counted() && incomplete == None && Log(findings, findingsTotal, earliestFinding) == LogOf(Reported(h, read, |read|))
    }

    /** Nothing is left to read: all lines are settled and the torn bytes, if any, are reported. */
    ghost predicate AtEnd()
      reads this
    {
      && Counted()
      && incomplete == IncompleteOf(h, contents)
      && Log(findings, findingsTotal, earliestFinding) == LogOf(AllFindings(h, contents))
    }

    lemma CountedAll()
      requires Counted()
      ensures read == CompleteLines(contents) && lines == |read|
    {
    }

    // ----- Findings -----

    method RecordSidecar(finding: Finding, ghost recorded: seq<Finding>)
      modifies `findings, `findingsTotal
      requires findings == First(MAX_FINDINGS, recorded) && findingsTotal == |recorded|
      ensures findings == First(MAX_FINDINGS, recorded + [finding]) && findingsTotal == |recorded| + 1
    {
      findingsTotal := findingsTotal + 1;
      if |findings| < MAX_FINDINGS {
        findings := findings + [finding];
      }
    }

    method Record(finding: Finding, ghost recorded: seq<Finding>)
      modifies `findings, `findingsTotal, `earliestFinding
      requires OfTheChain(finding) && Log(findings, findingsTotal, earliestFinding) == LogOf(recorded)
      ensures Log(findings, findingsTotal, earliestFinding) == LogOf(recorded + [finding])
    {
      EarliestSnoc(recorded, finding);
      if earliestFinding == 0 || finding.line < earliestFinding {
        earliestFinding := finding.line;
      }
      RecordSidecar(finding, recorded);
    }

    // ----- Settling a line -----

    /** Reports a settled line's findings. */
    method ReportLine(settled: SeenLine, ghost recorded: seq<Finding>)
      modifies `findings, `findingsTotal, `earliestFinding
      requires Log(findings, findingsTotal, earliestFinding) == LogOf(recorded)
      requires AllOfTheChain(settled.findings) && NoneOfTheChain(settled.memberFindings)
      ensures Log(findings, findingsTotal, earliestFinding) == LogOf(recorded + (settled.findings + settled.memberFindings))
    {
      hide First;
      assert recorded + settled.findings[..0] == recorded;
      var i := 0;
      while i < |settled.findings|
        invariant 0 <= i <= |settled.findings|
        invariant Log(findings, findingsTotal, earliestFinding) == LogOf(recorded + settled.findings[..i])
      {
        assert settled.findings[i] in settled.findings;
        assert recorded + settled.findings[..i + 1] == recorded + settled.findings[..i] + [settled.findings[i]];
        Record(settled.findings[i], recorded + settled.findings[..i]);
        i := i + 1;
      }
      assert settled.findings[..i] == settled.findings;
      ghost var before := recorded + settled.findings;
      assert before + settled.memberFindings[..0] == before;
      i := 0;
      while i < |settled.memberFindings|
        invariant 0 <= i <= |settled.memberFindings|
        invariant Log(findings, findingsTotal, earliestFinding) == LogOf(before + settled.memberFindings[..i])
      {
        assert settled.memberFindings[i] in settled.memberFindings;
        assert before + settled.memberFindings[..i + 1] ==
               before + settled.memberFindings[..i] + [settled.memberFindings[i]];
        EarliestSnoc(before + settled.memberFindings[..i], settled.memberFindings[i]);
        RecordSidecar(settled.memberFindings[i], before + settled.memberFindings[..i]);
        i := i + 1;
      }
      assert settled.memberFindings[..i] == settled.memberFindings;
      Regroup3(recorded, settled.findings, settled.memberFindings);
    }

    method CountDamaged(ghost classes: seq<LineClass>)
      modifies `coverage
      requires Counts(coverage, pendingUnchained, firstChained) == CountsOf(classes)
      ensures Counts(coverage, pendingUnchained, firstChained) == CountsOf(classes + [DamagedLine])
    {
      AllCountsSnoc(classes, DamagedLine);
      coverage := coverage.(damaged := coverage.damaged + 1);
    }

    /** Counts a settled line that is not damaged. */
    method CountLine(settled: SeenLine, ghost classes: seq<LineClass>)
      modifies `pendingUnchained, `firstChained, `coverage, `head, `chainedAt
      requires Counts(coverage, pendingUnchained, firstChained) == CountsOf(classes)
      ensures Counts(coverage, pendingUnchained, firstChained) == CountsOf(classes + [KeptClass(settled)])
      ensures head == if settled.link.Some? then Some(settled) else old(head)
      ensures chainedAt == if settled.link.Some? && settled.number in wanted
                           then old(chainedAt)[settled.number := coverage.chained] else old(chainedAt)
    {
      AllCountsSnoc(classes, KeptClass(settled));
      if settled.link.None? {
        pendingUnchained := pendingUnchained + 1;
        return;
      }
      coverage := coverage.(chained := coverage.chained + 1);
      if firstChained {
        coverage := coverage.(unchained := coverage.unchained + pendingUnchained);
      } else {
        coverage := coverage.(legacyPrefix := coverage.legacyPrefix + pendingUnchained);
        firstChained := true;
      }
      pendingUnchained := 0;
      head := Some(settled);
      if settled.number in wanted {
        chainedAt := chainedAt[settled.number := coverage.chained];
      }
    }

    /** Lists a settled record's checkpoint, when it is asked for and there is room. */
    method ListLine(settled: SeenLine, ghost all: seq<Bytes>, ghost k: nat)
      modifies `listed, `more
      requires k < |all| && settled == SettledLine(h, all, k) && !settled.damaged
      requires CheckpointList(listed, more) == ListedOf(h, asked, all, k)
      ensures CheckpointList(listed, more) == ListedOf(h, asked, all, k + 1)
    {
      ListedSnoc(h, asked, all, k);
      hide HeadBefore, LineFindings, MemberFindings, LinkOf, Excuses, OfDiscontinuityKind, DigestOf, ListedOf;
      if settled.link.Some? && asked.Some? && settled.number > asked.value.after {
        if |listed| < asked.value.limit {
          listed := listed + [Checkpoints.Checkpoint(settled.link.value.trail, settled.number, settled.digest)];
        } else {
          more := true;
        }
      }
    }

    /**
     One settled line's effect on the log, the counts, the head, the wanted sums and the list; none of a damaged one but
     its count.
     */
    method Settle(settled: SeenLine, ghost all: seq<Bytes>, ghost k: nat)
      modifies `findings, `findingsTotal, `earliestFinding
      modifies `pendingUnchained, `firstChained, `coverage, `head, `chainedAt, `listed, `more
      requires k < |all| && SettledTo(all, k) && settled == SettledLine(h, all, k)
      ensures SettledTo(all, k + 1)
    {
      hide SettledLine, Reported, Classes, ChainHead, LogOf, KeptClass, ChainedAmong, ClassOf, Covers, Count,
           ChainedBefore, ListedOf;
      SettledLineFindings(h, all, k);
      ghost var reported, classes := Reported(h, all, k), Classes(all, k);
      if settled.damaged {
        CountDamaged(classes);
        DamagedUnlisted(h, asked, all, k);
      } else {
        ReportLine(settled, reported);
        CountLine(settled, classes);
        ListLine(settled, all, k);
      }
      ChainedNext(h, wanted, all, k);
    }

    /** Settles the line kept until the next one was read, when there is one. */
    method Commit(ghost all: seq<Bytes>, ghost n: nat)
      modifies `findings, `findingsTotal, `earliestFinding
      modifies `pendingUnchained, `firstChained, `coverage, `head, `chainedAt, `listed, `more
      requires n <= |all| && previous == if n == 0 then None else Some(SettledLine(h, all, n - 1))
      requires SettledTo(all, Behind(n))
      ensures SettledTo(all, n)
    {
      hide LogOf, TallyOf, SettledLine, Reported, ListedOf;
      if previous.Some? {
        Settle(previous.value, all, n - 1);
      }
    }

    // ----- Checking a line -----

    /** A segment up to this line, unless it would be empty. */
    method EndSegment(last: int, ghost all: seq<Segment>)
      modifies `segments, `segmentsTotal
      requires segments == First(MAX_LISTED, all) && segmentsTotal == |all|
      ensures var closed := CloseSegment(all, segmentStart, last);
              segments == First(MAX_LISTED, closed) && segmentsTotal == |closed|
    {
      if last < segmentStart {
        return;
      }
      segmentsTotal := segmentsTotal + 1;
      if |segments| < MAX_LISTED {
        segments := segments + [Segment(segmentStart, last)];
      }
    }

    /**
     Decides, for a chained discontinuity, whether the line before becomes damaged. Answers what is wrong with it and
     the head its link is compared with.
     */
    method CheckDiscontinuity(number: nat, named: Option<Damage>, before: Option<Head>, ghost line: Bytes)
      returns (found: seq<Finding>, expected: Option<Head>)
      modifies `previous, `discontinuities, `discontinuitiesTotal, `segments, `segmentsTotal, `segmentStart
      requires LookAhead(previous, lastTrail) == LookAheadOf(h, read) && number == |read| + 1
      requires Listing(discontinuities, discontinuitiesTotal, segments, segmentsTotal, segmentStart) == ListingOf(read)
      requires Chained(line) && OfDiscontinuityKind(line) && named == DamageNamedBy(line)
      requires before == HeadBefore(h, read, |read|)
      ensures var lines := read + [line];
              && found == DiscontinuityFindings(h, lines, |read|)
              && expected == Expected(h, lines, |read|)
              && Listing(discontinuities, discontinuitiesTotal, segments, segmentsTotal, segmentStart) == ListingOf(lines)
              && previous == BeforeLast(h, lines)
    {
      ghost var lines := read + [line];
      Extends(h, read, line);
      hide HeadBefore, LineFindings, MemberFindings, LinkOf, DiscontinuitiesOf, Repairs, CutAfter, LastTrail,
           OfDiscontinuityKind, DamageNamedBy, CloseSegment;
      if named.None? || previous.None? || named.value.line != previous.value.number ||
         previous.value.oversized || named.value.bytes > MAX_LINE || previous.value.discontinuityKind
      {
        return [Finding(DiscontinuityMalformed, number)], before;
      }
      var damagedLine, damage := previous.value, named.value;
      previous := Some(damagedLine.(damaged := true));
      found := if damagedLine.length != damage.bytes || damagedLine.digest != damage.digest
               then [Finding(DiscontinuityMismatch, number)] else [];
      discontinuitiesTotal := discontinuitiesTotal + 1;
      if |discontinuities| < MAX_LISTED {
        discontinuities := discontinuities + [Discontinuity(number, damagedLine.number, damage.bytes, damage.digest)];
      }
      EndSegment(damagedLine.number - 1, CutAfter(Repairs(read, |read|)).segments);
      segmentStart := number;
      expected := damagedLine.before;
    }

    /**
     The head for the next line, from the kept line where that is enough and from the digest of all bytes otherwise.
     */
    method HeadOfNext(prefix: Digest) returns (before: Option<Head>)
      requires LookAhead(previous, lastTrail) == LookAheadOf(h, read) && prefix == DigestOf(h, Join(read))
      ensures before == HeadBefore(h, read, |read|)
    {
      hide LineFindings, MemberFindings, Join, LastTrail, OfDiscontinuityKind, LinkOf;
      assert read[..|read|] == read;
      if previous.Some? && previous.value.oversized {
        return None;
      }
      if previous.Some? && previous.value.link.Some? {
        return Some(Head(previous.value.link.value.trail, previous.value.digest));
      }
      return Some(Head(lastTrail, prefix));
    }

    /** Holds a chained line's link to its line number and to what it is expected to follow. */
    method CheckLink(number: nat, link: Link, expected: Option<Head>, found: seq<Finding>)
      returns (findings: seq<Finding>)
      ensures findings == found + LinkFindings(link, expected, number)
    {
      findings := found;
      if link.sequence != number {
        findings := findings + [Finding(SequenceMismatch, number)];
      }
      if expected.Some? {
        if link.previous != expected.value.previous {
          findings := findings + [Finding(PreviousMismatch, number)];
        }
        if expected.value.trail != [] && link.trail != expected.value.trail {
          findings := findings + [Finding(TrailMismatch, number)];
        }
      }
    }

    /** Makes the checks of a chained line. */
    method CheckChained(seen0: SeenLine, link: Link, named: Option<Damage>, ghost text: Bytes)
      returns (seen: SeenLine)
      modifies `lastTrail, `previous,
               `discontinuities, `discontinuitiesTotal, `segments, `segmentsTotal, `segmentStart
      requires LookAhead(previous, lastTrail) == LookAheadOf(h, read)
      requires Listing(discontinuities, discontinuitiesTotal, segments, segmentsTotal, segmentStart) == ListingOf(read)
      requires LinkOf(text) == Some(link) && named == DamageNamedBy(text)
      requires seen0 == SeenLine(|read| + 1, |text|, DigestOf(h, text), false, None, HeadBefore(h, read, |read|),
                                 OfDiscontinuityKind(text), [], MemberFindings(read + [text], |read|), false)
      ensures seen == Seen(h, read + [text], |read|) && lastTrail == LastTrail(read + [text])
      ensures Listing(discontinuities, discontinuitiesTotal, segments, segmentsTotal, segmentStart) == ListingOf(read + [text])
      ensures previous == BeforeLast(h, read + [text])
    {
      ChainedLineSeen(h, read, text);
      LastTrailSnoc(read, text);
      hide HeadBefore, Seen, MemberFindings, LinkOf, LookAheadOf, ListingOf, OfDiscontinuityKind, LastTrail,
           DiscontinuityFindings, LinkFindings, Expected, DamageNamedBy, BeforeLast;
      var found, expected := [], seen0.before;
      if seen0.discontinuityKind {
        found, expected := CheckDiscontinuity(seen0.number, named, seen0.before, text);
      } else {
        PlainLine(h, read, text);
        NothingExcused(h, read, text, previous, lastTrail,
                       discontinuities, discontinuitiesTotal, segments, segmentsTotal, segmentStart);
      }
      found := CheckLink(seen0.number, link, expected, found);
      seen := seen0.(link := Some(link), findings := found);
      lastTrail := link.trail;
    }

    /** Classifies the line after those read and makes its checks; line is nothing when it is oversized. */
    method Check(number: nat, line: Bytes, oversized: bool, length: nat, digest: Digest, before: Option<Head>,
                 ghost text: Bytes)
      returns (seen: SeenLine)
      modifies `lastTrail, `previous,
               `discontinuities, `discontinuitiesTotal, `segments, `segmentsTotal, `segmentStart
      requires LookAhead(previous, lastTrail) == LookAheadOf(h, read) && number == |read| + 1
      requires Listing(discontinuities, discontinuitiesTotal, segments, segmentsTotal, segmentStart) == ListingOf(read)
      requires before == HeadBefore(h, read, |read|)
      requires oversized == Oversized(text) && (!oversized ==> line == text)
      requires length == |text| && digest == DigestOf(h, text)
      ensures seen == Seen(h, read + [text], |read|) && lastTrail == LastTrail(read + [text])
      ensures Listing(discontinuities, discontinuitiesTotal, segments, segmentsTotal, segmentStart) == ListingOf(read + [text])
      ensures previous == BeforeLast(h, read + [text])
    {
      ReadingOf(text);
      PlainLine(h, read, text);
      LastTrailSnoc(read, text);
      LastTrailIs(h, previous, lastTrail, read);
      if !Chained(text) {
        PlainLineSeen(h, read, text);
        NothingExcused(h, read, text, previous, lastTrail,
                       discontinuities, discontinuitiesTotal, segments, segmentsTotal, segmentStart);
      }
      hide HeadBefore, LineFindings, MemberFindings, LinkOf, LookAheadOf, ListingOf, Excuses, Seen, LastTrail,
           OfDiscontinuityKind, DamageNamedBy, BindingMalformed, BindingWellFormed, MembersOf, ReadObject,
           DiscontinuityFindings, LinkFindings, Expected, BeforeLast;
      seen := SeenLine(number, length, digest, oversized, None, before, false, [], [], false);
      if oversized {
        seen := seen.(findings := [Finding(LineTooLong, number)]);
        return;
      }
      var members := ReadObject(line);
      if members.None? {
        return;
      }
      seen := seen.(discontinuityKind := TextAt(members.value, KIND) == Some(DISCONTINUITY));
      if !BindingWellFormed(members.value) {
        seen := seen.(memberFindings := [Finding(BindingIsMalformed, number)]);
      }
      var link := LinkIn(members.value);
      if link.Some? {
        seen := CheckChained(seen, link.value, DamageIn(members.value), text);
      }
    }

    // ----- Reading -----

    /**
     The bytes up to the next newline or the end, taken a piece at a time: text is what the line's own hash
     takes, and line what is kept of it, which is nothing once it is over the bound.
     */
    method ReadPieces() returns (text: Bytes, line: Bytes, length: nat, oversized: bool, terminated: bool)
      modifies `offset, `whole
      requires offset <= |contents| && whole == contents[..offset]
      ensures old(offset) <= offset <= |contents| && whole == contents[..offset]
      ensures '\n' !in text && whole == old(whole) + text + (if terminated then ['\n'] else [])
      ensures if terminated then offset > old(offset) else offset == |contents|
      ensures length == |text| && oversized == Oversized(text) && (!oversized ==> line == text)
      ensures oversized ==> line == []
    {
      text, line, length, oversized, terminated := [], [], 0, false, false;
      var full := true;
      while full
        invariant old(offset) <= offset <= |contents| && whole == contents[..offset]
        invariant '\n' !in text && whole == old(whole) + text + (if terminated then ['\n'] else [])
        invariant full ==> !terminated
        invariant !full && !terminated ==> offset == |contents|
        invariant length == |text| && oversized == Oversized(text) && (!oversized ==> line == text)
        invariant oversized ==> line == []
        decreases |contents| - offset, full
      {
        var piece;
        piece, full, offset := ReadSlice(contents, offset);
        whole := whole + piece;
        var body := piece;
        if body != [] && body[|body| - 1] == '\n' {
          body, terminated := body[..|body| - 1], true;
        }
        text := text + body;
        length := length + |body|;
        if !oversized {
          if length > MAX_LINE {
            oversized, line := true, [];
          } else {
            line := line + body;
          }
        }
      }
    }

    /** Keeps the lines a checkpoint names: the one just read, and the one before it as it now stands. */
    method HoldLines(seen: SeenLine, ghost text: Bytes)
      modifies `heldLines
      requires heldLines == HeldAmong(h, wanted, read)
      requires seen == Seen(h, read + [text], |read|) && previous == BeforeLast(h, read + [text])
      ensures heldLines == HeldAmong(h, wanted, read + [text])
    {
      HeldSnoc(h, wanted, read, text);
      NumberedAtEnd(h, read + [text]);
      hide HeldAmong, LineNumbered, Seen, SettledLine;
      if previous.Some? && previous.value.number in heldLines {
        heldLines := heldLines[previous.value.number := previous.value];
      }
      if seen.number in wanted {
        heldLines := heldLines[seen.number := seen];
      }
    }

    /** A rest without a newline is one finding at the end, with its length and digest. */
    method NoteTail(text: Bytes, length: nat)
      modifies `findings, `findingsTotal, `earliestFinding, `incomplete
      requires AllSettled() && text == Tail(contents) && length == |text|
      ensures AtEnd()
    {
      hide ListingOf, HeldAmong, TallyOf, LogOf, Reported, CompleteLines, Tail;
      if length > 0 {
        incomplete := Some((lines + 1, length, DigestOf(h, text)));
        Record(Finding(IncompleteLastLine, lines + 1), Reported(h, read, |read|));
      }
    }

    /** Checks the line after those read, and holds it if it is wanted. */
    method CheckNext(text: Bytes, line: Bytes, length: nat, oversized: bool, before: Option<Head>)
      returns (seen: SeenLine)
      modifies `lastTrail, `previous,
               `discontinuities, `discontinuitiesTotal, `segments, `segmentsTotal, `segmentStart, `heldLines
      requires Checked() && lines == |read| && before == HeadBefore(h, read, |read|)
      requires length == |text| && oversized == Oversized(text) && (!oversized ==> line == text)
      ensures CheckedNext(seen, text)
    {
      hide LookAheadOf, ListingOf, HeldAmong, Seen, LastTrail, BeforeLast, Oversized, HeadBefore, DigestOf;
      seen := Check(lines + 1, line, oversized, length, DigestOf(h, text), before, text);
      HoldLines(seen, text);
    }

    /** Goes on to the next line, keeping the one just checked until that is read. */
    method Advance(seen: SeenLine, ghost text: Bytes)
      modifies `lines, `previous, `read
      requires CameTo(read + [text]) && CheckedNext(seen, text) && SettledTo(read + [text], |read|)
      ensures AtLine() && read == old(read) + [text]
    {
      hide LookAheadOf, ListingOf, HeldAmong, TallyOf, LogOf, Reported, StreamHolds, Seen, LastTrail, ListedOf;
      LookAheadMoves(h, read, text);
      lines := lines + 1;
      previous := Some(seen);
      read := read + [text];
    }

    /** What is settled, and the line that is settled next, are the same in the lines read with one line more. */
    lemma ReadyToCommit(seen: SeenLine, text: Bytes)
      requires SettledTo(read, Behind(|read|)) && CheckedNext(seen, text)
      ensures SettledTo(read + [text], Behind(|read|))
      ensures previous == if |read| == 0 then None else Some(SettledLine(h, read + [text], |read| - 1))
    {
      hide LookAheadOf, ListingOf, HeldAmong, TallyOf, LogOf, Reported, Seen, LastTrail, BeforeLast, SettledLine,
           ListedOf;
      SettledStays(h, wanted, read, text);
      ListedKeeps(h, asked, read, text);
      BeforeLastIs(h, read, text);
    }

    /** Checks the complete line just read, and settles the line before it. */
    method TakeLine(text: Bytes, line: Bytes, length: nat, oversized: bool, before: Option<Head>)
      modifies this
      requires CameTo(read + [text]) && Checked() && SettledTo(read, Behind(|read|))
      requires before == HeadBefore(h, read, |read|)
      requires length == |text| && oversized == Oversized(text) && (!oversized ==> line == text)
      ensures AtLine() && offset == old(offset)
    {
      hide StreamHolds, Oversized, HeadBefore, SettledLine, Checked, CheckedNext, SettledTo, AtLine;
      var seen := CheckNext(text, line, length, oversized, before);
      ReadyToCommit(seen, text);
      Commit(read + [text], |read|);
      Advance(seen, text);
    }

    /** At the end there is no look-ahead to wait for: the line kept stands as it is. */
    lemma KeptAtEnd()
      requires Checked()
      ensures previous == if |read| == 0 then None else Some(SettledLine(h, read, |read| - 1))
    {
      hide LookAheadOf, ListingOf, HeldAmong, SettledLine;
      PreviousAtEnd(h, previous, lastTrail, read);
    }

    lemma AllAreSettled()
      requires read == CompleteLines(contents) && lines == |read| && incomplete == None
      requires Checked() && SettledTo(read, |read|)
      ensures AllSettled()
    {
      hide LookAheadOf, ListingOf, HeldAmong, TallyOf, LogOf, Reported, CompleteLines, ListedOf;
    }

    method SettleLast()
      modifies this
      requires read == CompleteLines(contents) && lines == |read| && incomplete == None
      requires Checked() && SettledTo(read, Behind(|read|))
      ensures AllSettled()
    {
      hide CompleteLines, SettledLine, Checked, SettledTo, AllSettled;
      KeptAtEnd();
      Commit(read, |read|);
      AllAreSettled();
    }

    /**
     Reads on to the end of the next line, or of the bytes, with the head for that line taken before its bytes are: then
     either the stream has come to one line more, or every line was read and what is left is the rest.
     */
    method NextLine()
      returns (text: Bytes, line: Bytes, length: nat, oversized: bool, terminated: bool, before: Option<Head>)
      modifies `offset, `whole
      requires AtLine()
      ensures before == HeadBefore(h, read, |read|)
      ensures length == |text| && oversized == Oversized(text) && (!oversized ==> line == text)
      ensures offset <= |contents| && (terminated ==> CameTo(read + [text]) && offset > old(offset))
      ensures !terminated ==> read == CompleteLines(contents) && text == Tail(contents)
    {
      hide LookAheadOf, ListingOf, HeldAmong, LogOf, TallyOf, HeadBefore, Join, CompleteLines, Tail, Oversized,
           StreamHolds, AreLines, DigestOf, Reported;
      StreamStands(contents, offset, whole, read);
      var prefix := DigestOf(h, whole);
      before := HeadOfNext(prefix);
      text, line, length, oversized, terminated := ReadPieces();
      StreamMoves(contents, offset, whole, read, old(whole), text);
      assert !terminated ==> whole == old(whole) + text;
    }

    /** One turn of the reading: a complete line more, or the end. */
    method ReadLine() returns (ended: bool)
      modifies this
      requires AtLine()
      ensures !ended ==> AtLine() && offset > old(offset)
      ensures ended ==> AtEnd()
    {
      hide CompleteLines, Tail, Oversized, StreamHolds, HeadBefore, Checked, SettledTo;
      var text, line, length, oversized, terminated, before := NextLine();
      if terminated {
        TakeLine(text, line, length, oversized, before);
        ended := false;
      } else {
        SettleLast();
        NoteTail(text, length);
        ended := true;
      }
    }
  }

  lemma DamagedUnlisted(h: Hash, asked: Option<ListRequest>, all: seq<Bytes>, k: nat)
    requires k < |all| && SettledLine(h, all, k).damaged
    ensures ListedOf(h, asked, all, k + 1) == ListedOf(h, asked, all, k)
  {
    hide HeadBefore, LineFindings, MemberFindings, LinkOf, Excuses, OfDiscontinuityKind, DigestOf;
    ListedSnoc(h, asked, all, k);
  }

  /** The line before the last one, as it stands once the last one is checked. */
  function BeforeLast(h: Hash, lines: seq<Bytes>): Option<SeenLine> {
    if |lines| < 2 then None else Some(SettledLine(h, lines, |lines| - 2))
  }

  lemma ChainedNext(h: Hash, wanted: set<nat>, lines: seq<Bytes>, k: nat)
    requires k < |lines|
    ensures var settled, before := SettledLine(h, lines, k), ChainedAmong(wanted, lines, k);
            && settled.number == k + 1
            && ChainedAmong(wanted, lines, k + 1) ==
               (if !settled.damaged && settled.link.Some? && k + 1 in wanted
                then before[k + 1 := Count(Covers(Classes(lines, k + 1)), InChain)] else before)
  {
    hide SettledLine, ClassOf, Classes, Covers, Count;
    SettledClass(h, lines, k);
  }

  /** What is settled stays as it is when one more line is read. */
  lemma SettledKeeps(h: Hash, wanted: set<nat>, lines: seq<Bytes>, text: Bytes)
    ensures var more, k := lines + [text], Behind(|lines|);
            && Reported(h, more, k) == Reported(h, lines, k)
            && Classes(more, k) == Classes(lines, k)
            && ChainHead(h, more, k) == ChainHead(h, lines, k)
            && ChainedAmong(wanted, more, k) == ChainedAmong(wanted, lines, k)
  {
    if lines != [] {
      var k := |lines| - 1;
      ReportedPrefix(h, lines, [text], k);
      ClassesPrefix(lines, [text], k);
      ChainHeadPrefix(h, lines, [text], k);
      ChainedKeeps(wanted, lines, text);
      hide Reported, Classes, ChainHead, ChainedAmong;
    }
  }

  lemma SettledStays(h: Hash, wanted: set<nat>, lines: seq<Bytes>, text: Bytes)
    ensures var more, k := lines + [text], Behind(|lines|);
            Reported(h, more, k) == Reported(h, lines, k) && TallyOf(h, wanted, more, k) == TallyOf(h, wanted, lines, k)
  {
    hide Reported, Classes, ChainHead, ChainedAmong, CountsOf, Behind;
    SettledKeeps(h, wanted, lines, text);
  }

  lemma ChainedKeeps(wanted: set<nat>, lines: seq<Bytes>, text: Bytes)
    requires lines != []
    ensures ChainedAmong(wanted, lines + [text], |lines| - 1) == ChainedAmong(wanted, lines, |lines| - 1)
  {
    hide ClassOf, Classes, Covers, Count;
    forall n: nat | 0 < n < |lines|
      ensures ClassOf(lines + [text], n - 1) == ClassOf(lines, n - 1)
      ensures Classes(lines + [text], n) == Classes(lines, n)
    {
      ClassesPrefix(lines, [text], n);
      ClassOfPrefix(lines, [text], n - 1);
    }
  }

  lemma StreamStands(contents: Bytes, offset: nat, whole: Bytes, lines: seq<Bytes>)
    requires StreamHolds(contents, offset, whole, lines)
    ensures offset <= |contents| && whole == contents[..offset] && whole == Join(lines) && AreLines(lines)
  {
  }

  lemma StreamMoves(contents: Bytes, offset: nat, whole: Bytes, read: seq<Bytes>, before: Bytes, text: Bytes)
    requires before == Join(read) && AreLines(read) && '\n' !in text
    requires offset <= |contents| && whole == contents[..offset]
    ensures whole == before + text + ['\n'] ==> StreamHolds(contents, offset, whole, read + [text])
    ensures whole == before + text && offset == |contents| ==>
              CompleteLines(contents) == read && Tail(contents) == text
  {
    hide Join, SplitLines;
    JoinSnoc(read, text);
    SplitOfJoin(read, text);
    if offset == |contents| {
      assert whole == contents;
    }
  }

  lemma NumberedKeeps(h: Hash, lines: seq<Bytes>, text: Bytes, n: nat)
    requires 0 < n < |lines|
    ensures LineNumbered(h, lines + [text], n) == LineNumbered(h, lines, n)
  {
    hide Seen, Damaged;
    SeenPrefix(h, lines, [text], n - 1);
    ExcusesPrefix(lines, [text], n - 1);
  }

  /** One more line settles the line before it, and is kept as it was read. */
  lemma HeldSnoc(h: Hash, wanted: set<nat>, lines: seq<Bytes>, text: Bytes)
    ensures var more, held := lines + [text], HeldAmong(h, wanted, lines);
            var settled := if lines != [] && |lines| in held
                           then held[|lines| := SettledLine(h, more, |lines| - 1)] else held;
            HeldAmong(h, wanted, more) ==
              if |lines| + 1 in wanted then settled[|lines| + 1 := Seen(h, more, |lines|)] else settled
  {
    hide Seen, SettledLine, LineNumbered;
    var more := lines + [text];
    forall n: nat | 0 < n < |lines| {
      NumberedKeeps(h, lines, text, n);
    }
    NumberedAtEnd(h, more);
  }

  lemma PreviousAtEnd(h: Hash, previous: Option<SeenLine>, lastTrail: Bytes, read: seq<Bytes>)
    requires LookAhead(previous, lastTrail) == LookAheadOf(h, read)
    ensures previous == if read == [] then None else Some(SettledLine(h, read, |read| - 1))
  {
    NumberedAtEnd(h, read);
    hide Seen, SettledLine, LineNumbered, LastTrail;
  }

  lemma BeforeLastIs(h: Hash, read: seq<Bytes>, text: Bytes)
    ensures BeforeLast(h, read + [text]) ==
            if |read| == 0 then None else Some(SettledLine(h, read + [text], |read| - 1))
  {
    hide SettledLine;
  }

  lemma LookAheadMoves(h: Hash, read: seq<Bytes>, text: Bytes)
    ensures var lines := read + [text];
            LookAhead(Some(Seen(h, lines, |read|)), LastTrail(lines)) == LookAheadOf(h, lines)
  {
    hide Seen, LastTrail;
  }

  lemma LastTrailIs(h: Hash, previous: Option<SeenLine>, lastTrail: Bytes, read: seq<Bytes>)
    requires LookAhead(previous, lastTrail) == LookAheadOf(h, read)
    ensures lastTrail == LastTrail(read)
  {
    hide Seen;
  }

  /** A line that excuses nothing moves no cut, and leaves the line before it as it was. */
  lemma NothingExcused(h: Hash, read: seq<Bytes>, text: Bytes, previous: Option<SeenLine>, lastTrail: Bytes,
                       discontinuities: seq<Discontinuity>, discontinuitiesTotal: nat,
                       segments: seq<Segment>, segmentsTotal: nat, segmentStart: nat)
    requires LookAhead(previous, lastTrail) == LookAheadOf(h, read) && !Excuses(read + [text], |read|)
    requires Listing(discontinuities, discontinuitiesTotal, segments, segmentsTotal, segmentStart) == ListingOf(read)
    ensures Listing(discontinuities, discontinuitiesTotal, segments, segmentsTotal, segmentStart) == ListingOf(read + [text])
    ensures previous == BeforeLast(h, read + [text])
  {
    Extends(h, read, text);
    hide Excuses, HeadBefore, LineFindings, MemberFindings, LinkOf, OfDiscontinuityKind, DiscontinuitiesOf, Repairs,
         CutAfter, DamageNamedBy, LastTrail;
  }

  lemma PlainLineSeen(h: Hash, read: seq<Bytes>, text: Bytes)
    requires !Chained(text)
    ensures Seen(h, read + [text], |read|) ==
            SeenLine(|read| + 1, |text|, DigestOf(h, text), Oversized(text), None, HeadBefore(h, read, |read|),
                     OfDiscontinuityKind(text),
                     if Oversized(text) then [Finding(LineTooLong, |read| + 1)] else [],
                     MemberFindings(read + [text], |read|), false)
  {
    PlainLine(h, read, text);
    HeadBeforePrefix(h, read, [text], |read|);
    hide HeadBefore, LineFindings, MemberFindings, LinkOf, OfDiscontinuityKind;
  }

  lemma ChainedLineSeen(h: Hash, read: seq<Bytes>, text: Bytes)
    requires Chained(text)
    ensures Seen(h, read + [text], |read|) ==
            SeenLine(|read| + 1, |text|, DigestOf(h, text), false, LinkOf(text), HeadBefore(h, read, |read|),
                     OfDiscontinuityKind(text),
                     DiscontinuityFindings(h, read + [text], |read|) +
                     LinkFindings(LinkOf(text).value, Expected(h, read + [text], |read|), |read| + 1),
                     MemberFindings(read + [text], |read|), false)
  {
    PlainLine(h, read, text);
    HeadBeforePrefix(h, read, [text], |read|);
    assert !Oversized(text);
    hide HeadBefore, LineFindings, MemberFindings, LinkOf, OfDiscontinuityKind, DiscontinuityFindings, LinkFindings,
         Expected, Oversized;
  }

  /** What one more line adds to what is known of the lines before it. */
  lemma Extends(h: Hash, read: seq<Bytes>, line: Bytes)
    ensures var lines := read + [line];
            && HeadBefore(h, lines, |read|) == HeadBefore(h, read, |read|)
            && (|read| > 0 ==> HeadBefore(h, lines, |read| - 1) == HeadBefore(h, read, |read| - 1))
            && (|read| > 0 ==> Seen(h, lines, |read| - 1) == Seen(h, read, |read| - 1))
            && DiscontinuitiesOf(lines, |lines|) == DiscontinuitiesOf(read, |read|) + NamedDamage(lines, |read|)
            && CutAfter(Repairs(lines, |lines|)) ==
               CutNext(CutAfter(Repairs(read, |read|)), Excuses(lines, |read|), |lines|)
            && (read == [] ==> !Excuses(lines, |read|))
  {
    hide Excuses, Seen, HeadBefore, Repairs, OfDiscontinuityKind, DamageNamedBy;
    HeadBeforePrefix(h, read, [line], |read|);
    if |read| > 0 {
      HeadBeforePrefix(h, read, [line], |read| - 1);
      SeenPrefix(h, read, [line], |read| - 1);
    }
    DiscontinuitiesOfPrefix(read, [line], |read|);
    RepairsPrefix(read, [line], |read|);
    RepairsSnoc(read + [line], |read|);
    assert (Repairs(read, |read|) + [Excuses(read + [line], |read|)])[..|read|] == Repairs(read, |read|);
    FirstExcusesNothing(read + [line]);
  }

  lemma LastTrailSnoc(read: seq<Bytes>, line: Bytes)
    ensures LastTrail(read + [line]) == if Chained(line) then LinkOf(line).value.trail else LastTrail(read)
  {
    hide LinkOf;
    assert (read + [line])[..|read|] == read;
  }

  /** How a line is read, in terms of its members. */
  lemma ReadingOf(text: Bytes)
    ensures MembersOf(text) == if Oversized(text) then None else ReadObject(text)
    ensures match MembersOf(text)
            case None =>
              LinkOf(text) == None && !OfDiscontinuityKind(text) && !BindingMalformed(text)
            case Some(ms) =>
              && LinkOf(text) == LinkIn(ms) && DamageNamedBy(text) == DamageIn(ms)
              && OfDiscontinuityKind(text) == (TextAt(ms, KIND) == Some(DISCONTINUITY))
              && BindingMalformed(text) == !BindingWellFormed(ms)
  {
    hide ReadObject, LinkIn, DamageIn, TextAt, BindingWellFormed;
  }

  /** What the checks of a line come to, by what kind of line it is. */
  lemma PlainLine(h: Hash, read: seq<Bytes>, text: Bytes)
    ensures var lines, i := read + [text], |read|;
            && MemberFindings(lines, i) ==
               (if BindingMalformed(text) then [Finding(BindingIsMalformed, i + 1)] else [])
            && (!Chained(text) || !OfDiscontinuityKind(text) ==> !Excuses(lines, i) && NamedDamage(lines, i) == [])
            && (!Chained(text) ==>
                  LineFindings(h, lines, i) == if Oversized(text) then [Finding(LineTooLong, i + 1)] else [])
            && (Chained(text) ==>
                  && LineFindings(h, lines, i) ==
                     DiscontinuityFindings(h, lines, i) + LinkFindings(LinkOf(text).value, Expected(h, lines, i), i + 1)
                  && (!OfDiscontinuityKind(text) ==>
                        DiscontinuityFindings(h, lines, i) == [] &&
                        Expected(h, lines, i) == HeadBefore(h, read, i)))
  {
    HeadBeforePrefix(h, read, [text], |read|);
    hide ReadObject, HeadBefore, LinkFindings, BindingMalformed;
  }

  lemma FirstExcusesNothing(lines: seq<Bytes>)
    requires lines != []
    ensures !Excuses(lines, 0)
  {
  }

  lemma Regroup3<T>(a: seq<T>, b: seq<T>, c: seq<T>)
    ensures a + b + c == a + (b + c)
  {
  }

  lemma AllCountsSnoc(classes: seq<LineClass>, last: LineClass)
    ensures forall cover: Cover {:trigger Count(Covers(classes + [last]), cover)} ::
              Count(Covers(classes + [last]), cover) ==
              (match last
               case DamagedLine => Count(Covers(classes), cover) + (if cover.AsDamaged? then 1 else 0)
               case UnchainedLine => Count(Covers(classes), cover) + (if cover.Uncovered? then 1 else 0)
               case ChainedLine =>
                 var committed := if ChainedBefore(classes, |classes|) then BetweenChained else InLegacyPrefix;
                 if cover.Uncovered? then 0
                 else Count(Covers(classes), cover) + (if cover.InChain? then 1 else 0) +
                      (if cover == committed then Count(Covers(classes), Uncovered) else 0))
    ensures ChainedBefore(classes + [last], |classes| + 1) == (ChainedBefore(classes, |classes|) || last.ChainedLine?)
  {
    forall cover: Cover {
      CountsSnoc(classes, last, cover);
    }
    var more := classes + [last];
    if ChainedBefore(classes, |classes|) {
      var j: nat :| j < |classes| && classes[j].ChainedLine?;
      assert more[j].ChainedLine?;
    }
    if last.ChainedLine? {
      assert more[|classes|].ChainedLine?;
    }
  }

  function KeptClass(line: SeenLine): LineClass { if line.link.Some? then ChainedLine else UnchainedLine }

  /** What settling a line adds to what is reported and counted. */
  lemma SettledLineFindings(h: Hash, lines: seq<Bytes>, k: nat)
    requires k < |lines|
    ensures var settled := SettledLine(h, lines, k);
            && Reported(h, lines, k + 1) ==
               (if settled.damaged then Reported(h, lines, k)
                else Reported(h, lines, k) + (settled.findings + settled.memberFindings))
            && Classes(lines, k + 1) ==
               Classes(lines, k) + [if settled.damaged then DamagedLine else KeptClass(settled)]
            && ChainHead(h, lines, k + 1) ==
               (if !settled.damaged && settled.link.Some? then Some(settled) else ChainHead(h, lines, k))
            && AllOfTheChain(settled.findings) && NoneOfTheChain(settled.memberFindings)
  {
    ChainFindingsAreOfTheChain(h, lines, k);
    hide LineFindings, MemberFindings, HeadBefore, LinkOf, Excuses, OfDiscontinuityKind;
  }

  lemma SettledClass(h: Hash, lines: seq<Bytes>, k: nat)
    requires k < |lines|
    ensures var settled := SettledLine(h, lines, k);
            && settled.number == k + 1
            && (!settled.damaged && settled.link.Some? <==> ClassOf(lines, k).ChainedLine?)
  {
    hide LineFindings, MemberFindings, HeadBefore, LinkOf, Excuses, OfDiscontinuityKind;
  }

  /** The last line stands as it was read, and the numbers of the last two. */
  lemma NumberedAtEnd(h: Hash, lines: seq<Bytes>)
    ensures lines != [] ==>
              && LineNumbered(h, lines, |lines|) == SettledLine(h, lines, |lines| - 1) == Seen(h, lines, |lines| - 1)
              && Seen(h, lines, |lines| - 1).number == |lines|
    ensures |lines| > 1 ==>
              && LineNumbered(h, lines, |lines| - 1) == SettledLine(h, lines, |lines| - 2)
              && SettledLine(h, lines, |lines| - 2).number == |lines| - 1
  {
    hide LineFindings, MemberFindings, HeadBefore, LinkOf, Excuses, OfDiscontinuityKind;
  }
}
