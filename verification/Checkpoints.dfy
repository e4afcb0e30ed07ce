/** The checkpoints a holder kept: what a trail is held to, and what one that matches covers. */
module Checkpoints {
  import opened Octets
  import opened Chain
  import opened Evidence

  datatype Checkpoint = Checkpoint(trail: Bytes, sequence: nat, digest: Bytes)

  /** The checkpoint of the chained line at index i. */
  function CheckpointOf(h: Hash, lines: seq<Bytes>, i: nat): Checkpoint
    requires i < |lines| && Chained(lines[i])
  {
    Checkpoint(LinkOf(lines[i]).value.trail, i + 1, DigestOf(h, lines[i]))
  }

  /** The check a trail fails when it is held to one checkpoint, if any. */
  function HoldCheckpoint(h: Hash, lines: seq<Bytes>, named: Checkpoint): Option<FindingName> {
    if named.sequence == 0 || named.sequence > |lines| then Some(CheckpointBeyondTrail)
    else
      var i := named.sequence - 1;
      if Damaged(lines, i) || !Chained(lines[i]) then Some(CheckpointNotChained)
      else if LinkOf(lines[i]).value.trail != named.trail then Some(CheckpointTrailMismatch)
      else if DigestOf(h, lines[i]) != named.digest then Some(CheckpointRecordMismatch)
      else None
  }

  predicate Matches(h: Hash, lines: seq<Bytes>, named: Checkpoint) { HoldCheckpoint(h, lines, named).None? }

  /** A checkpoint matches exactly when it is the checkpoint of an undamaged chained line. */
  lemma MatchesOwnLine(h: Hash, lines: seq<Bytes>, named: Checkpoint)
    ensures Matches(h, lines, named) <==>
            && 0 < named.sequence <= |lines|
            && Chained(lines[named.sequence - 1]) && !Damaged(lines, named.sequence - 1)
            && named == CheckpointOf(h, lines, named.sequence - 1)
  {
    hide LinkOf, Excuses, DigestOf;
  }

  /** The finding a checkpoint that does not match makes: one name for all, when it is a trusted stamp's. */
  function HeldName(h: Hash, lines: seq<Bytes>, named: Checkpoint, stamped: bool): Option<FindingName> {
    var name := HoldCheckpoint(h, lines, named);
    if name.Some? && stamped then Some(StampCheckpointMismatch) else name
  }

  /** What is recorded once the trail is held to each of these in turn. */
  function HoldEach(h: Hash, lines: seq<Bytes>, held: seq<Checkpoint>, stamped: bool, recorded: seq<Finding>): seq<Finding> {
    if held == [] then recorded
    else
      var last := held[|held| - 1];
      var before := HoldEach(h, lines, held[..|held| - 1], stamped, recorded);
      match HeldName(h, lines, last, stamped)
      case None => before
      case Some(name) => before + [Finding(name, last.sequence)]
  }

  function Matching(h: Hash, lines: seq<Bytes>, held: seq<Checkpoint>): seq<Checkpoint> {
    if held == [] then []
    else
      var last := held[|held| - 1];
      var before := Matching(h, lines, held[..|held| - 1]);
      if Matches(h, lines, last) then before + [last] else before
  }

  // ----- In sequence order -----

  predicate InOrder(held: seq<Checkpoint>) {
    forall i, j | 0 <= i < j < |held| :: held[i].sequence <= held[j].sequence
  }

  /** After every checkpoint of its sequence or a lower one. */
  function Insert(held: seq<Checkpoint>, more: Checkpoint): seq<Checkpoint> {
    if held == [] || held[|held| - 1].sequence <= more.sequence then held + [more]
    else Insert(held[..|held| - 1], more) + [held[|held| - 1]]
  }

  /** In sequence order, those of one sequence in the order they were supplied in. */
  function Sorted(held: seq<Checkpoint>): seq<Checkpoint> {
    if held == [] then [] else Insert(Sorted(held[..|held| - 1]), held[|held| - 1])
  }

  lemma {:induction false} InsertHolds(held: seq<Checkpoint>, more: Checkpoint)
    ensures multiset(Insert(held, more)) == multiset(held) + multiset{more}
  {
    if held != [] && held[|held| - 1].sequence > more.sequence {
      InsertHolds(held[..|held| - 1], more);
      assert held == held[..|held| - 1] + [held[|held| - 1]];
    }
  }

  predicate NoneAbove(held: seq<Checkpoint>, sequence: nat) {
    forall i | 0 <= i < |held| :: held[i].sequence <= sequence
  }

  lemma {:induction false} InsertInOrder(held: seq<Checkpoint>, more: Checkpoint)
    requires InOrder(held)
    ensures InOrder(Insert(held, more))
    ensures forall n: nat | NoneAbove(held, n) && more.sequence <= n :: NoneAbove(Insert(held, more), n)
  {
    if held != [] && held[|held| - 1].sequence > more.sequence {
      var front, last := held[..|held| - 1], held[|held| - 1];
      InsertInOrder(front, more);
      assert NoneAbove(front, last.sequence);
    }
  }

  /** Sorting loses no checkpoint, doubles none, and leaves sequences that do not fall. */
  lemma {:induction false} SortedKeeps(held: seq<Checkpoint>)
    ensures multiset(Sorted(held)) == multiset(held) && InOrder(Sorted(held))
  {
    hide Insert, InOrder;
    if held == [] {
      EmptyInOrder();
    } else {
      var front, last := held[..|held| - 1], held[|held| - 1];
      SortedKeeps(front);
      InsertHolds(Sorted(front), last);
      InsertInOrder(Sorted(front), last);
      assert held == front + [last];
    }
  }

  lemma EmptyInOrder()
    ensures InOrder([])
  {
  }

  // ----- What is covered -----

  /** No check of the chain failed at or before this sequence, the lowest line one failed at being this. */
  predicate Clear(earliest: nat, sequence: nat) { earliest == 0 || earliest > sequence }

  /** The last of these that no failed check is at or before. */
  function LastClear(earliest: nat, matched: seq<Checkpoint>): Option<Checkpoint> {
    if matched == [] then None
    else if Clear(earliest, matched[|matched| - 1].sequence) then Some(matched[|matched| - 1])
    else LastClear(earliest, matched[..|matched| - 1])
  }

  lemma {:induction false} MatchingAre(h: Hash, lines: seq<Bytes>, held: seq<Checkpoint>)
    ensures forall c :: c in Matching(h, lines, held) <==> c in held && Matches(h, lines, c)
    ensures InOrder(held) ==> InOrder(Matching(h, lines, held))
  {
    hide Matches;
    if held != [] {
      var front, last := held[..|held| - 1], held[|held| - 1];
      MatchingAre(h, lines, front);
      assert held == front + [last];
      var before := Matching(h, lines, front);
      forall i | InOrder(held) && 0 <= i < |before|
        ensures before[i].sequence <= last.sequence
      {
        assert before[i] in before;
        var j :| 0 <= j < |front| && front[j] == before[i];
        assert held[j].sequence <= held[|held| - 1].sequence;
      }
    }
  }

  lemma {:induction false} AllMatching(h: Hash, lines: seq<Bytes>, held: seq<Checkpoint>)
    ensures |Matching(h, lines, held)| <= |held|
    ensures |Matching(h, lines, held)| == |held| <==> forall c | c in held :: Matches(h, lines, c)
  {
    hide Matches;
    if held != [] {
      var front, last := held[..|held| - 1], held[|held| - 1];
      AllMatching(h, lines, front);
      assert held == front + [last];
    }
  }

  /** Among checkpoints in order, the last clear one is the highest clear one. */
  lemma {:induction false} LastClearIsHighest(earliest: nat, matched: seq<Checkpoint>)
    requires InOrder(matched)
    ensures var through := LastClear(earliest, matched);
            && (through.Some? ==> through.value in matched && Clear(earliest, through.value.sequence))
            && (forall c | c in matched && Clear(earliest, c.sequence) ::
                  through.Some? && c.sequence <= through.value.sequence)
  {
    if matched != [] {
      var front, last := matched[..|matched| - 1], matched[|matched| - 1];
      LastClearIsHighest(earliest, front);
      assert matched == front + [last];
    }
  }

  /** The checkpoint the coverage reaches, of those supplied in any order. */
  function Through(h: Hash, lines: seq<Bytes>, held: seq<Checkpoint>, earliest: nat): Option<Checkpoint> {
    LastClear(earliest, Matching(h, lines, Sorted(held)))
  }

  /**
   Through is the highest matching checkpoint clear of the earliest finding, and does not depend on the order of
   held.
   */
  lemma ThroughIsHighest(h: Hash, lines: seq<Bytes>, held: seq<Checkpoint>, earliest: nat)
    ensures var through := Through(h, lines, held, earliest);
            && (through.Some? ==>
                  && through.value in held && Matches(h, lines, through.value)
                  && Clear(earliest, through.value.sequence))
            && (forall c | c in held && Matches(h, lines, c) && Clear(earliest, c.sequence) ::
                  through.Some? && c.sequence <= through.value.sequence)
  {
    hide Matches, Matching, LastClear, Sorted;
    SortedKeeps(held);
    MatchingAre(h, lines, Sorted(held));
    LastClearIsHighest(earliest, Matching(h, lines, Sorted(held)));
    forall c: Checkpoint
      ensures c in Sorted(held) <==> c in held
    {
      assert c in multiset(held) <==> c in held;
      assert c in multiset(Sorted(held)) <==> c in Sorted(held);
    }
  }

  // ----- The lowest failed check -----

  ghost predicate Numbered(findings: seq<Finding>) { forall f | f in findings :: f.line > 0 }

  /** A sequence is clear of the lowest failed check exactly when every failed check is after it. */
  lemma {:induction false} ClearOf(findings: seq<Finding>, n: nat)
    requires Numbered(findings)
    ensures Clear(Earliest(findings), n) <==> forall f | f in findings && OfTheChain(f) :: f.line > n
  {
    if findings != [] {
      var front, last := findings[..|findings| - 1], findings[|findings| - 1];
      assert findings == front + [last];
      ClearOf(front, n);
      EarliestNamesOne(front);
    }
  }

  lemma {:induction false} EarliestNamesOne(findings: seq<Finding>)
    requires Numbered(findings)
    ensures Earliest(findings) == 0 <==> forall f | f in findings :: !OfTheChain(f)
    ensures Earliest(findings) > 0 ==> exists f :: f in findings && OfTheChain(f) && f.line == Earliest(findings)
  {
    if findings != [] {
      var front, last := findings[..|findings| - 1], findings[|findings| - 1];
      assert findings == front + [last];
      EarliestNamesOne(front);
      if OfTheChain(last) {
        assert last in findings;
      }
    }
  }

  ghost predicate AllAt(findings: seq<Finding>, number: nat) { forall f | f in findings :: f.line == number }

  lemma LinkFindingsAreAt(link: Link, expected: Option<Head>, number: nat)
    ensures AllAt(LinkFindings(link, expected, number), number)
  {
  }

  lemma LineFindingsAreAt(h: Hash, lines: seq<Bytes>, i: nat)
    requires i < |lines|
    ensures AllAt(LineFindings(h, lines, i), i + 1) && AllAt(MemberFindings(lines, i), i + 1)
  {
    hide Excuses, Expected, LinkOf, OfDiscontinuityKind, BindingMalformed, DamageNamedBy, LinkFindings, DigestOf;
    if LinkOf(lines[i]).Some? {
      LinkFindingsAreAt(LinkOf(lines[i]).value, Expected(h, lines, i), i + 1);
    }
  }

  lemma ReportedOfIsAt(h: Hash, lines: seq<Bytes>, i: nat)
    requires i < |lines|
    ensures AllAt(ReportedOf(h, lines, i), i + 1)
    ensures (exists f :: f in ReportedOf(h, lines, i) && OfTheChain(f)) <==>
            !(Damaged(lines, i) || LineFindings(h, lines, i) == [])
  {
    hide LineFindings, MemberFindings, Damaged, OfTheChain;
    LineFindingsAreAt(h, lines, i);
    ChainFindingsAreOfTheChain(h, lines, i);
    if LineFindings(h, lines, i) != [] {
      assert LineFindings(h, lines, i)[0] in LineFindings(h, lines, i);
    }
  }

  lemma {:induction false} ReportedLines(h: Hash, lines: seq<Bytes>, k: nat)
    requires k <= |lines|
    ensures forall f | f in Reported(h, lines, k) :: 0 < f.line <= k
  {
    hide ReportedOf;
    if k > 0 {
      ReportedLines(h, lines, k - 1);
      assert AllAt(ReportedOf(h, lines, k - 1), k) by {
        ReportedOfIsAt(h, lines, k - 1);
      }
    }
  }

  /** A trail is sound through a line exactly when every failed check of the chain is after it. */
  lemma {:induction false} SoundIsReported(h: Hash, lines: seq<Bytes>, k: nat, n: nat)
    requires n <= k <= |lines|
    ensures SoundThrough(h, lines, n) <==> forall f | f in Reported(h, lines, k) && OfTheChain(f) :: f.line > n
  {
    hide ReportedOf, LineFindings, Damaged, OfTheChain;
    if k > 0 {
      ReportedOfIsAt(h, lines, k - 1);
      if n < k {
        SoundIsReported(h, lines, k - 1, n);
      } else {
        SoundIsReported(h, lines, k - 1, k - 1);
        ReportedLines(h, lines, k - 1);
        SoundOneMore(h, lines, k);
        ReportedOneMore(h, lines, k);
      }
    }
  }

  lemma SoundOneMore(h: Hash, lines: seq<Bytes>, k: nat)
    requires 0 < k <= |lines|
    ensures SoundThrough(h, lines, k) <==>
            SoundThrough(h, lines, k - 1) && (Damaged(lines, k - 1) || LineFindings(h, lines, k - 1) == [])
  {
    hide LineFindings, Damaged;
  }

  lemma ReportedOneMore(h: Hash, lines: seq<Bytes>, k: nat)
    requires 0 < k <= |lines|
    requires forall f | f in Reported(h, lines, k - 1) :: 0 < f.line <= k - 1
    requires AllAt(ReportedOf(h, lines, k - 1), k)
    ensures (forall f | f in Reported(h, lines, k) && OfTheChain(f) :: f.line > k) <==>
            && (forall f | f in Reported(h, lines, k - 1) && OfTheChain(f) :: f.line > k - 1)
            && !(exists f :: f in ReportedOf(h, lines, k - 1) && OfTheChain(f))
  {
    hide ReportedOf, OfTheChain;
    var before, last := Reported(h, lines, k - 1), ReportedOf(h, lines, k - 1);
    assert forall f :: f in Reported(h, lines, k) <==> f in before || f in last;
  }

  /** The lowest failed check of a trail is after a line exactly when the trail is sound through that line. */
  lemma ClearIsSound(h: Hash, file: Bytes, n: nat)
    requires n <= |CompleteLines(file)|
    ensures Numbered(AllFindings(h, file))
    ensures Clear(Earliest(AllFindings(h, file)), n) <==> SoundThrough(h, CompleteLines(file), n)
  {
    hide Reported, SoundThrough, Clear, Earliest, CompleteLines, Tail;
    var lines := CompleteLines(file);
    ReportedLines(h, lines, |lines|);
    SoundIsReported(h, lines, |lines|, n);
    ClearOf(AllFindings(h, file), n);
  }

  /** A checkpoint that failed voids what is at or after it, exactly as a failed check of its line does. */
  lemma {:induction false} ClearOfHeld(h: Hash, lines: seq<Bytes>, held: seq<Checkpoint>, stamped: bool,
                                       recorded: seq<Finding>, n: nat)
    requires Numbered(recorded) && forall c | c in held :: c.sequence > 0
    ensures Numbered(HoldEach(h, lines, held, stamped, recorded))
    ensures Clear(Earliest(HoldEach(h, lines, held, stamped, recorded)), n) <==>
            && Clear(Earliest(recorded), n)
            && (forall c | c in held && !Matches(h, lines, c) :: c.sequence > n)
  {
    hide HoldCheckpoint, Earliest;
    if held != [] {
      var front, last := held[..|held| - 1], held[|held| - 1];
      assert held == front + [last];
      ClearOfHeld(h, lines, front, stamped, recorded, n);
      var before := HoldEach(h, lines, front, stamped, recorded);
      if !Matches(h, lines, last) {
        EarliestSnoc(before, Finding(HeldName(h, lines, last, stamped).value, last.sequence));
        NameIsOfTheChain(h, lines, last, stamped);
      }
    }
  }

  lemma NameIsOfTheChain(h: Hash, lines: seq<Bytes>, held: Checkpoint, stamped: bool)
    requires !Matches(h, lines, held)
    ensures OfTheChain(Finding(HeldName(h, lines, held, stamped).value, held.sequence))
  {
    hide Damaged, LinkOf, DigestOf;
  }

  // ----- What a held checkpoint proves -----

  /**
   A checkpoint commits to everything before its record. Two trails it matches in, each with no failed check
   up to its sequence, hold the same bytes up to there, or a collision is exhibited.
   */
  lemma CheckpointBinds(h: Hash, a: seq<Bytes>, b: seq<Bytes>, held: Checkpoint)
    requires AreLines(a) && AreLines(b)
    requires Matches(h, a, held) && Matches(h, b, held)
    requires SoundThrough(h, a, held.sequence) && SoundThrough(h, b, held.sequence)
    ensures a[..held.sequence] == b[..held.sequence] || Collide(h, a, b, held.sequence)
  {
    hide LinkOf, Excuses, LineFindings, Collide, Join;
    MatchesOwnLine(h, a, held);
    MatchesOwnLine(h, b, held);
    var n := held.sequence;
    LinesEqualOrCollide(h, a, b, n - 1);
    if !Collide(h, a, b, n) {
      ChainedLineBinds(h, a, b, n, n);
    }
  }
}
