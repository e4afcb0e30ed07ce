/**
 What a clean reading of witness statements means, statement by statement: each is of this trail, signed by one of the
 keys given, follows the one an index before it, and holds to the latest checkpoint statement by the rule of its kind.
 */
module Legality {
  import opened Octets
  import opened Checkpoints
  import opened Sidecar
  import opened Witness
  import opened WitnessReader

  function StartOf(resume: Option<Continuation>): nat { if resume.Some? then resume.value.last.index + 1 else 0 }

  /** It stands where the chain is walked: after the continuation's last statement, if there is one. */
  ghost predicate Walked(statements: set<Statement>, resume: Option<Continuation>, st: Statement) {
    st in statements && st.index >= StartOf(resume)
  }

  /** The latest checkpoint statement ahead of this one, which may be the continuation's. */
  ghost predicate IsLatest(statements: set<Statement>, resume: Option<Continuation>, st: Statement, latest: Statement) {
    || (&& Walked(statements, resume, latest) && latest.kind.CheckpointKind? && latest.index < st.index
        && forall p | Walked(statements, resume, p) && latest.index < p.index < st.index :: !p.kind.CheckpointKind?)
    || (&& resume.Some? && latest == resume.value.latest
        && forall p | Walked(statements, resume, p) && p.index < st.index :: !p.kind.CheckpointKind?)
  }

  /** It names the signature of the statement an index before it, the continuation's last for the first one walked. */
  ghost predicate Follows(statements: set<Statement>, resume: Option<Continuation>, st: Statement) {
    if st.index == StartOf(resume) then st.prev == (if resume.Some? then resume.value.last.signature else [])
    else exists p :: Walked(statements, resume, p) && p.index + 1 == st.index && p.signature == st.prev
  }

  /** A checkpoint goes on past the latest, a conflict does not, and a retirement repeats it and is the last. */
  ghost predicate KeepsRule(statements: set<Statement>, resume: Option<Continuation>, st: Statement) {
    match st.kind
    case CheckpointKind =>
      forall q | IsLatest(statements, resume, st, q) :: q.checkpoint.sequence < st.checkpoint.sequence
    case ConflictKind =>
      exists q :: IsLatest(statements, resume, st, q) && st.checkpoint.sequence <= q.checkpoint.sequence
    case RetirementKind =>
      && (exists q :: IsLatest(statements, resume, st, q) && st.checkpoint == q.checkpoint)
      && forall p | Walked(statements, resume, p) :: p.index <= st.index
  }

  // ----- A legal chain, by its statements -----

  ghost predicate LatestAt(from: Origin, chain: seq<Statement>, i: nat, q: Statement)
    requires i <= |chain|
  {
    || (exists j :: 0 <= j < i && chain[j] == q && q.kind.CheckpointKind?
                    && forall m | j < m < i :: !chain[m].kind.CheckpointKind?)
    || (from.latest == Some(q) && forall m | 0 <= m < i :: !chain[m].kind.CheckpointKind?)
  }

  lemma {:induction false} LatestBeforeIs(from: Origin, chain: seq<Statement>, i: nat, q: Statement)
    requires i <= |chain|
    ensures LatestBefore(from, chain, i) == Some(q) <==> LatestAt(from, chain, i, q)
  {
    if i > 0 {
      LatestBeforeIs(from, chain, i - 1, q);
      if chain[i - 1].kind.CheckpointKind? {
        if LatestAt(from, chain, i, q) {
          if j :| 0 <= j < i && chain[j] == q && forall m | j < m < i :: !chain[m].kind.CheckpointKind? {
            assert j == i - 1;
          }
        }
      } else {
        if LatestAt(from, chain, i - 1, q) && from.latest != Some(q) {
          var j :| 0 <= j < i - 1 && chain[j] == q && forall m | j < m < i - 1 :: !chain[m].kind.CheckpointKind?;
          assert forall m | j < m < i :: !chain[m].kind.CheckpointKind?;
        }
      }
    }
  }

  /** The list of the statements walked: each of them has one place, and places rise with indexes. */
  ghost predicate IsWalk(statements: set<Statement>, resume: Option<Continuation>, chain: seq<Statement>) {
    && Ascending(chain)
    && (forall i | 0 <= i < |chain| :: Walked(statements, resume, chain[i]))
    && (forall st | Walked(statements, resume, st) :: st in chain)
  }

  lemma ListedIsWalk(statements: set<Statement>, resume: Option<Continuation>)
    requires DistinctIndexes(statements)
    ensures IsWalk(statements, resume, Listed(ChainOf(statements, OriginOf(resume).start)))
  {
    hide Listed;
    var set0 := ChainOf(statements, OriginOf(resume).start);
    ListedHolds(set0);
    var chain := Listed(set0);
    forall i | 0 <= i < |chain|
      ensures Walked(statements, resume, chain[i])
    {
      assert chain[i] in SetOf(chain);
    }
    forall st | Walked(statements, resume, st)
      ensures st in chain
    {
      assert st in SetOf(chain);
    }
  }

  lemma PlacesRise(chain: seq<Statement>, i: nat, j: nat)
    requires Ascending(chain) && i < |chain| && j < |chain|
    ensures i < j <==> chain[i].index < chain[j].index
    ensures chain[i] == chain[j] <==> i == j
  {
  }

  /** Where a walk is, its statements stand in the order of their indexes. */
  lemma PlacesAre(statements: set<Statement>, resume: Option<Continuation>, chain: seq<Statement>)
    requires IsWalk(statements, resume, chain)
    ensures forall i: nat, j: nat | i < |chain| && j < |chain| :: i < j <==> chain[i].index < chain[j].index
    ensures forall p | Walked(statements, resume, p) :: exists m :: 0 <= m < |chain| && chain[m] == p
  {
    hide Walked;
    forall i: nat, j: nat | i < |chain| && j < |chain|
      ensures i < j <==> chain[i].index < chain[j].index
    {
      PlacesRise(chain, i, j);
    }
    forall p | Walked(statements, resume, p)
      ensures exists m :: 0 <= m < |chain| && chain[m] == p
    {
      var m :| 0 <= m < |chain| && chain[m] == p;
    }
  }

  lemma LatestHasPlace(statements: set<Statement>, resume: Option<Continuation>, chain: seq<Statement>, i: nat, q: Statement)
    requires IsWalk(statements, resume, chain) && i < |chain| && IsLatest(statements, resume, chain[i], q)
    ensures LatestAt(OriginOf(resume), chain, i, q)
  {
    hide Ascending, Walked;
    PlacesAre(statements, resume, chain);
    if !(resume.Some? && q == resume.value.latest
         && forall p | Walked(statements, resume, p) && p.index < chain[i].index :: !p.kind.CheckpointKind?) {
      var j: nat :| j < |chain| && chain[j] == q;
      assert j < i && forall m | j < m < i :: !chain[m].kind.CheckpointKind?;
    }
  }

  lemma LatestAgrees(statements: set<Statement>, resume: Option<Continuation>, chain: seq<Statement>, i: nat, q: Statement)
    requires IsWalk(statements, resume, chain) && i < |chain|
    ensures IsLatest(statements, resume, chain[i], q) <==> LatestAt(OriginOf(resume), chain, i, q)
  {
    hide Ascending, Walked;
    PlacesAre(statements, resume, chain);
    if IsLatest(statements, resume, chain[i], q) {
      LatestHasPlace(statements, resume, chain, i, q);
    }
  }

  lemma Predecessor(statements: set<Statement>, resume: Option<Continuation>, st: Statement) returns (p: Statement)
    requires Follows(statements, resume, st) && st.index != StartOf(resume)
    ensures Walked(statements, resume, p) && p.index + 1 == st.index && p.signature == st.prev
  {
    p :| Walked(statements, resume, p) && p.index + 1 == st.index && p.signature == st.prev;
  }

  /** Where each statement walked follows one an index before it, the walk leaves no index out. */
  lemma {:induction false} NoIndexLeftOut(statements: set<Statement>, resume: Option<Continuation>, chain: seq<Statement>,
                                          i: nat)
    requires IsWalk(statements, resume, chain) && i < |chain|
    requires forall st | Walked(statements, resume, st) :: Follows(statements, resume, st)
    ensures chain[i].index == StartOf(resume) + i
    ensures i > 0 ==> chain[i].prev == chain[i - 1].signature
  {
    hide Ascending, Follows;
    var st := chain[i];
    assert Walked(statements, resume, st);
    if i > 0 {
      NoIndexLeftOut(statements, resume, chain, i - 1);
      PlacesRise(chain, i - 1, i);
    }
    if st.index != StartOf(resume) {
      var p := Predecessor(statements, resume, st);
      var j :| 0 <= j < |chain| && chain[j] == p;
      PlacesRise(chain, j, i);
      if i > 0 && j < i - 1 {
        PlacesRise(chain, j, i - 1);
      }
    }
  }

  /** The rule of its kind, at a statement's place of the walk. */
  lemma RuleAt(statements: set<Statement>, resume: Option<Continuation>, chain: seq<Statement>, i: nat)
    requires IsWalk(statements, resume, chain) && i < |chain|
    ensures var statement, latest := chain[i], LatestBefore(OriginOf(resume), chain, i);
            KeepsRule(statements, resume, statement) <==>
            match statement.kind
            case CheckpointKind => latest.Some? ==> statement.checkpoint.sequence > latest.value.checkpoint.sequence
            case ConflictKind => latest.Some? && statement.checkpoint.sequence <= latest.value.checkpoint.sequence
            case RetirementKind => latest.Some? && statement.checkpoint == latest.value.checkpoint && i == |chain| - 1
  {
    hide Ascending, LatestAt, IsLatest, LatestBefore;
    forall q
      ensures IsLatest(statements, resume, chain[i], q) <==> LatestBefore(OriginOf(resume), chain, i) == Some(q)
    {
      LatestAgrees(statements, resume, chain, i, q);
      LatestBeforeIs(OriginOf(resume), chain, i, q);
    }
    LastOfAll(statements, resume, chain, i);
  }

  lemma LastOfAll(statements: set<Statement>, resume: Option<Continuation>, chain: seq<Statement>, i: nat)
    requires IsWalk(statements, resume, chain) && i < |chain|
    ensures (forall p | Walked(statements, resume, p) :: p.index <= chain[i].index) <==> i == |chain| - 1
  {
    hide Ascending;
    if i == |chain| - 1 {
      forall p | Walked(statements, resume, p)
        ensures p.index <= chain[i].index
      {
        var m :| 0 <= m < |chain| && chain[m] == p;
        PlacesRise(chain, i, m);
      }
    } else {
      PlacesRise(chain, i, |chain| - 1);
      assert Walked(statements, resume, chain[|chain| - 1]);
    }
  }

  /** A chain is legal exactly when each of its statements follows and keeps its rule. */
  lemma LegalIs(statements: set<Statement>, resume: Option<Continuation>)
    requires DistinctIndexes(statements)
    ensures LegalChain(OriginOf(resume), Listed(ChainOf(statements, OriginOf(resume).start))) <==>
            forall st | Walked(statements, resume, st) ::
              Follows(statements, resume, st) && KeepsRule(statements, resume, st)
  {
    hide Listed, KeepsRule, Ascending, LatestBefore, DistinctIndexes;
    var from, chain := OriginOf(resume), Listed(ChainOf(statements, OriginOf(resume).start));
    ListedIsWalk(statements, resume);
    if LegalChain(from, chain) {
      forall st | Walked(statements, resume, st)
        ensures Follows(statements, resume, st) && KeepsRule(statements, resume, st)
      {
        var i :| 0 <= i < |chain| && chain[i] == st;
        assert FollowsAt(from, chain, i);
        RuleAt(statements, resume, chain, i);
        if i > 0 {
          assert FollowsAt(from, chain, i - 1) && Walked(statements, resume, chain[i - 1]);
        }
      }
    }
    if forall st | Walked(statements, resume, st) ::
         Follows(statements, resume, st) && KeepsRule(statements, resume, st)
    {
      forall i | 0 <= i < |chain|
        ensures FollowsAt(from, chain, i)
      {
        assert Walked(statements, resume, chain[i]);
        assert Follows(statements, resume, chain[i]);
        NoIndexLeftOut(statements, resume, chain, i);
        RuleAt(statements, resume, chain, i);
      }
    }
  }

  // ----- A clean reading -----

  /** The continuation could have been saved: its latest statement is a checkpoint that its last one holds to. */
  predicate Resumable(statements: set<Statement>, c: Continuation) {
    && c.latest.kind.CheckpointKind? && c.latest.index <= c.last.index
    && (c.last.kind.CheckpointKind? ==> c.latest == c.last)
    && (c.last.kind.ConflictKind? ==> c.last.checkpoint.sequence <= c.latest.checkpoint.sequence)
    && (c.last.kind.RetirementKind? ==>
          c.last.checkpoint == c.latest.checkpoint && forall st | st in statements :: st.index <= c.last.index)
  }

  predicate OlderThan(resume: Option<Continuation>, head: Statement) {
    resume.Some? && head.index < resume.value.last.index
  }

  /** The head is past where the walk starts, and none of the others comes to it or to the index before it. */
  ghost predicate Beyond(statements: set<Statement>, resume: Option<Continuation>, head: Statement) {
    head.index > StartOf(resume) && forall st | st in statements && st != head :: st.index + 1 < head.index
  }

  /** The chain may begin where it does, and each statement walked follows one and keeps its rule. */
  ghost predicate HoldsUp(statements: set<Statement>, resume: Option<Continuation>) {
    && (if resume.Some? then Resumable(statements, resume.value) else statements != {})
    && forall st | Walked(statements, resume, st) ::
         Follows(statements, resume, st) && KeepsRule(statements, resume, st)
  }

  lemma HoldsUpIs(statements: set<Statement>, resume: Option<Continuation>)
    requires DistinctIndexes(statements)
    ensures var chain := Listed(ChainOf(statements, OriginOf(resume).start));
            Begins(resume, chain) && LegalChain(OriginOf(resume), chain) <==> HoldsUp(statements, resume)
  {
    hide Listed, Follows, KeepsRule, LegalChain, Resumable, ContinuationHolds, DistinctIndexes;
    LegalIs(statements, resume);
    BeginsIs(statements, resume);
  }

  /** The whole of what makes a reading clean, said of its statements. */
  lemma CleanIs(r: Reader, trail: Bytes, statements: set<Statement>, resume: Option<Continuation>, head: Option<Statement>)
    ensures Clean(r, trail, statements, resume, head) <==>
            && (forall st | st in statements :: !Forged(r, st) && st.checkpoint.trail == trail)
            && (forall a, b | a in statements && b in statements && a != b :: a.index != b.index)
            && HoldsUp(statements, resume)
            && (head.Some? ==> !OlderThan(resume, head.value) && !Beyond(statements, resume, head.value))
  {
    hide Listed, Forged, Passes, HoldsUp, LegalChain;
    forall st
      ensures Passes(r, trail, st) <==> !Forged(r, st) && st.checkpoint.trail == trail
    {
      PassesIs(r, trail, st);
    }
    if DistinctIndexes(statements) {
      HoldsUpIs(statements, resume);
    }
  }

  /** Whether the walk may begin. */
  lemma BeginsIs(statements: set<Statement>, resume: Option<Continuation>)
    requires DistinctIndexes(statements)
    ensures Begins(resume, Listed(ChainOf(statements, OriginOf(resume).start))) <==>
            if resume.Some? then Resumable(statements, resume.value) else statements != {}
  {
    hide Listed, Ascending, DistinctIndexes;
    var chain := Listed(ChainOf(statements, OriginOf(resume).start));
    ListedIsWalk(statements, resume);
    if chain != [] {
      assert Walked(statements, resume, chain[0]);
    } else {
      forall st | st in statements
        ensures !Walked(statements, resume, st)
      {
        assert st !in chain;
      }
    }
  }

  /** Where all pass, these are the findings made: of the chain without a head that is beyond it, and of the head. */
  lemma ChainFindingsAre(statements: set<Statement>, resume: Option<Continuation>, head: Option<Statement>,
                         name: WitnessFindingName)
    requires DistinctIndexes(statements)
    ensures var beyond := head.Some? && Beyond(statements, resume, head.value);
            name in ChainFindings(statements, resume, head) <==>
            match name
            case WitnessChainBroken => !HoldsUp(if beyond then statements - {head.value} else statements, resume)
            case WitnessHeadUnreached => beyond
            case WitnessHeadBehind => head.Some? && OlderThan(resume, head.value)
            case _ => false
  {
    hide Listed, HoldsUp, LegalChain, Begins, DistinctIndexes;
    var beyond := head.Some? && Beyond(statements, resume, head.value);
    BeyondIs(statements, resume, head);
    var walked := if beyond then statements - {head.value} else statements;
    FewerAreDistinct(statements, walked);
    var out := Only(if beyond then head else None);
    assert ChainOf(walked, OriginOf(resume).start) == ChainOf(statements, OriginOf(resume).start) - out;
    HoldsUpIs(walked, resume);
  }

  lemma BeyondIs(statements: set<Statement>, resume: Option<Continuation>, head: Option<Statement>)
    ensures Unreached(statements, resume, head) <==> head.Some? && Beyond(statements, resume, head.value)
  {
  }

  lemma FewerAreDistinct(statements: set<Statement>, fewer: set<Statement>)
    requires DistinctIndexes(statements) && fewer <= statements
    ensures DistinctIndexes(fewer)
  {
  }

  // ----- What a clean reading ends with -----

  /** The statement walked last, or the continuation's when none is walked. */
  ghost predicate IsLast(statements: set<Statement>, resume: Option<Continuation>, last: Statement) {
    || (Walked(statements, resume, last) && forall p | Walked(statements, resume, p) :: p.index <= last.index)
    || (resume.Some? && last == resume.value.last && forall p :: !Walked(statements, resume, p))
  }

  /** The checkpoint statement walked last, or the continuation's when none is walked. */
  ghost predicate IsLatestOfAll(statements: set<Statement>, resume: Option<Continuation>, latest: Statement) {
    || (&& Walked(statements, resume, latest) && latest.kind.CheckpointKind?
        && forall p | Walked(statements, resume, p) && p.kind.CheckpointKind? :: p.index <= latest.index)
    || (&& resume.Some? && latest == resume.value.latest
        && forall p | Walked(statements, resume, p) :: !p.kind.CheckpointKind?)
  }

  lemma LatestOfAllIs(statements: set<Statement>, resume: Option<Continuation>, chain: seq<Statement>, q: Statement)
    requires IsWalk(statements, resume, chain)
    ensures LatestAt(OriginOf(resume), chain, |chain|, q) <==> IsLatestOfAll(statements, resume, q)
  {
    hide Ascending, Walked;
    PlacesAre(statements, resume, chain);
  }

  lemma LastIs(statements: set<Statement>, resume: Option<Continuation>, chain: seq<Statement>)
    requires IsWalk(statements, resume, chain)
    ensures if chain != [] then IsLast(statements, resume, chain[|chain| - 1])
            else forall p :: !Walked(statements, resume, p)
  {
    hide Ascending;
    if chain != [] {
      LastOfAll(statements, resume, chain, |chain| - 1);
    }
  }

  ghost predicate IsConflict(statements: set<Statement>, resume: Option<Continuation>, sequence: nat) {
    exists st :: Walked(statements, resume, st) && st.kind.ConflictKind? && st.checkpoint.sequence == sequence
  }

  lemma {:induction false} ConflictsAre(chain: seq<Statement>, sequence: nat)
    ensures sequence in ConflictsOf(chain) <==>
            exists st :: st in chain && st.kind.ConflictKind? && st.checkpoint.sequence == sequence
  {
    if chain != [] {
      var front, last := chain[..|chain| - 1], chain[|chain| - 1];
      assert chain == front + [last];
      ConflictsAre(front, sequence);
    }
  }

  /** A clean reading ends with its last statement, its latest checkpoint statement and the conflicts stated. */
  lemma EndingIs(statements: set<Statement>, resume: Option<Continuation>)
    requires DistinctIndexes(statements)
    ensures var e := EndingOf(statements, resume);
            && (if e.last.Some? then IsLast(statements, resume, e.last.value)
                else resume.None? && forall p :: !Walked(statements, resume, p))
            && (forall q :: e.latest == Some(q) <==> IsLatestOfAll(statements, resume, q))
            && (forall n: nat :: n in e.conflicts <==> IsConflict(statements, resume, n))
            && (e.retired <==> e.last.Some? && e.last.value.kind.RetirementKind?)
  {
    hide Listed, DistinctIndexes, LatestAt, IsLatestOfAll, LatestBefore, IsLast, ConflictsOf, Ascending;
    var chain := Listed(ChainOf(statements, OriginOf(resume).start));
    ListedIsWalk(statements, resume);
    LastIs(statements, resume, chain);
    if chain == [] && resume.Some? {
      NoneIsLast(statements, resume);
    }
    forall q
      ensures LatestBefore(OriginOf(resume), chain, |chain|) == Some(q) <==> IsLatestOfAll(statements, resume, q)
    {
      LatestBeforeIs(OriginOf(resume), chain, |chain|, q);
      LatestOfAllIs(statements, resume, chain, q);
    }
    forall n: nat
      ensures n in ConflictsOf(chain) <==> IsConflict(statements, resume, n)
    {
      ConflictsAre(chain, n);
    }
  }

  lemma NoneIsLast(statements: set<Statement>, resume: Option<Continuation>)
    requires resume.Some? && forall p :: !Walked(statements, resume, p)
    ensures IsLast(statements, resume, resume.value.last)
  {
  }
}
