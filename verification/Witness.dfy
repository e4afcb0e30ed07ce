/**
 Witness statements as a set. A set has one index order, which is walked as a chain from index 0 or onward from
 what an earlier reading saved; so whether a reading is clean depends on the set alone, and readings compose.
 */
module Witness {
  import opened Octets
  import opened Decimal
  import opened Checkpoints
  import opened Sidecar

  datatype Kind = CheckpointKind | ConflictKind | RetirementKind

  /** A statement that holds its form; prev is nothing for null. */
  datatype Statement = Statement(kind: Kind, checkpoint: Checkpoint, index: nat, prev: Bytes, witnessedAt: Bytes,
                                 keyId: Bytes, signature: Bytes)

  /** Where a clean reading ended: its highest statement, and the checkpoint statement in force there. */
  datatype Continuation = Continuation(last: Statement, latest: Statement)

  const WITNESS_PREFIX: Bytes := "judgment-pack-gateway/witness/1:"

  const CHECKPOINT: Bytes := "checkpoint"
  const CONFLICT: Bytes := "conflict"
  const RETIREMENT: Bytes := "retirement"

  function KindName(kind: Kind): Bytes {
    match kind
    case CheckpointKind => CHECKPOINT
    case ConflictKind => CONFLICT
    case RetirementKind => RETIREMENT
  }

  function Quoted(text: Bytes): Bytes { ['"'] + text + ['"'] }

  const OF_CHECKPOINT: Bytes := "{\"checkpoint\":{\"checkpointVersion\":\"1\""
  const OF_DIGEST: Bytes := ",\"recordDigest\":"
  const OF_SEQUENCE: Bytes := ",\"sequence\":"
  const OF_TRAIL: Bytes := ",\"trail\":"
  const OF_INDEX: Bytes := "},\"index\":"
  const OF_KEY_ID: Bytes := ",\"keyId\":"
  const OF_KIND: Bytes := ",\"kind\":"
  const OF_PREV: Bytes := ",\"prevSignature\":"
  const NULL: Bytes := "null"
  const OF_WITNESSED: Bytes := ",\"witnessVersion\":\"1\",\"witnessedAt\":"

  function CheckpointText(c: Checkpoint): Bytes {
    OF_CHECKPOINT + OF_DIGEST + Quoted(c.digest) + OF_SEQUENCE + FromNat(c.sequence) + OF_TRAIL + Quoted(c.trail)
  }

  function LinkText(statement: Statement): Bytes {
    OF_INDEX + FromNat(statement.index) + OF_KEY_ID + Quoted(statement.keyId) +
    OF_KIND + Quoted(KindName(statement.kind)) +
    OF_PREV + (if statement.prev == [] then NULL else Quoted(statement.prev))
  }

  /** The text signed: all members but the signature. */
  function SignedText(statement: Statement): Bytes {
    WITNESS_PREFIX + CheckpointText(statement.checkpoint) + LinkText(statement) +
    OF_WITNESSED + Quoted(statement.witnessedAt) + ['}']
  }

  /** The keys a reader supplies, by name, with the scheme they sign by, and how a line is read as a statement. */
  datatype Reader = Reader(s: Scheme, keys: map<Bytes, Key>, form: Bytes -> Option<Statement>)

  /** A line's statement; the checkpoint it carries is held to a checkpoint's own range. */
  function FormOf(r: Reader, line: Bytes): Option<Statement> {
    match r.form(line)
    case None => None
    case Some(st) => if st.checkpoint.sequence > 0 then Some(st) else None
  }

  /** What a reader supplies: its statement lines, the lines of a head file, and a continuation, each if it has one. */
  datatype Supplied = Supplied(lines: seq<Bytes>, head: Option<seq<Bytes>>, resume: Option<Option<Continuation>>) {
    /** A continuation's statements are read by the same rule as a line's. */
    predicate Valid() {
      resume.Some? && resume.value.Some? ==>
        resume.value.value.last.checkpoint.sequence > 0 && resume.value.value.latest.checkpoint.sequence > 0
    }
  }

  predicate Passes(r: Reader, trail: Bytes, statement: Statement) {
    && statement.keyId in r.keys
    && Verifies(r.s, r.keys[statement.keyId], SignedText(statement), statement.signature)
    && statement.checkpoint.trail == trail
  }

  // ----- A set of statements, in index order -----

  ghost predicate DistinctIndexes(statements: set<Statement>) {
    forall a, b | a in statements && b in statements && a.index == b.index :: a == b
  }

  predicate Ascending(list: seq<Statement>) {
    forall i, j | 0 <= i < j < |list| :: list[i].index < list[j].index
  }

  function SetOf(list: seq<Statement>): set<Statement> { set st | st in list }

  lemma {:induction false} HighestExists(statements: set<Statement>) returns (highest: Statement)
    requires statements != {}
    ensures highest in statements && forall st | st in statements :: st.index <= highest.index
  {
    var one :| one in statements;
    var rest := statements - {one};
    if rest == {} {
      highest := one;
      assert statements == {one};
    } else {
      var other := HighestExists(rest);
      highest := if other.index <= one.index then one else other;
      assert forall st | st in statements :: st == one || st in rest;
    }
  }

  ghost predicate Highest(statements: set<Statement>, statement: Statement) {
    statement in statements && forall st | st in statements :: st.index <= statement.index
  }

  /** The statements of a set in index order. */
  ghost function Listed(statements: set<Statement>): seq<Statement> {
    if statements == {} then []
    else
      assert exists st :: Highest(statements, st) by {
        var highest := HighestExists(statements);
        assert Highest(statements, highest);
      }
      var st :| Highest(statements, st);
      Listed(statements - {st}) + [st]
  }

  lemma {:induction false} ListedHolds(statements: set<Statement>)
    requires DistinctIndexes(statements)
    ensures SetOf(Listed(statements)) == statements && Ascending(Listed(statements))
  {
    if statements != {} {
      var list := Listed(statements);
      var last := list[|list| - 1];
      var front := list[..|list| - 1];
      ListedHolds(statements - {last});
      assert front == Listed(statements - {last});
      assert list == front + [last];
      forall i | 0 <= i < |front|
        ensures front[i].index < last.index
      {
        assert front[i] in SetOf(front);
      }
    }
  }

  /** There is one list of a set's statements in index order. */
  lemma {:induction false} ListedOnce(list: seq<Statement>)
    requires Ascending(list)
    ensures DistinctIndexes(SetOf(list)) && Listed(SetOf(list)) == list
  {
    hide Highest, DistinctIndexes;
    AscendingIsDistinct(list);
    if list != [] {
      var front, last := list[..|list| - 1], list[|list| - 1];
      ListedOnce(front);
      LastIsHighest(list);
      FrontOf(list);
    }
  }

  lemma FrontOf(list: seq<Statement>)
    requires list != [] && list[|list| - 1] !in SetOf(list[..|list| - 1])
    ensures SetOf(list) - {list[|list| - 1]} == SetOf(list[..|list| - 1]) && SetOf(list) != {}
    ensures list == list[..|list| - 1] + [list[|list| - 1]]
  {
    var front, last := list[..|list| - 1], list[|list| - 1];
    assert list == front + [last];
    assert last in SetOf(list);
  }

  lemma AscendingIsDistinct(list: seq<Statement>)
    requires Ascending(list)
    ensures DistinctIndexes(SetOf(list))
  {
    forall a, b | a in SetOf(list) && b in SetOf(list) && a.index == b.index
      ensures a == b
    {
      var i :| 0 <= i < |list| && list[i] == a;
      var j :| 0 <= j < |list| && list[j] == b;
    }
  }

  lemma LastIsHighest(list: seq<Statement>)
    requires list != [] && Ascending(list)
    ensures var last := list[|list| - 1];
            && Highest(SetOf(list), last) && last !in SetOf(list[..|list| - 1])
            && forall st | Highest(SetOf(list), st) :: st == last
  {
    AscendingIsDistinct(list);
    var last := list[|list| - 1];
    forall st | st in SetOf(list)
      ensures st.index <= last.index
    {
      var i :| 0 <= i < |list| && list[i] == st;
    }
    assert forall i | 0 <= i < |list| - 1 :: list[i] != last;
  }

  // ----- A legal chain -----

  /** Where a chain is walked from: the index that comes next, the signature it names, and what came before. */
  datatype Origin = Origin(start: nat, previous: Bytes, latest: Option<Statement>)

  function FromStart(): Origin { Origin(0, [], None) }

  function After(c: Continuation): Origin { Origin(c.last.index + 1, c.last.signature, Some(c.latest)) }

  /** The latest checkpoint statement before position i. */
  function LatestBefore(from: Origin, chain: seq<Statement>, i: nat): Option<Statement>
    requires i <= |chain|
  {
    if i == 0 then from.latest
    else if chain[i - 1].kind.CheckpointKind? then Some(chain[i - 1])
    else LatestBefore(from, chain, i - 1)
  }

  /** The statement at position i follows the one before it, by the rules of its kind. */
  predicate FollowsAt(from: Origin, chain: seq<Statement>, i: nat)
    requires i < |chain|
  {
    var statement, latest := chain[i], LatestBefore(from, chain, i);
    && statement.index == from.start + i
    && statement.prev == (if i == 0 then from.previous else chain[i - 1].signature)
    && (match statement.kind
        case CheckpointKind => latest.Some? ==> statement.checkpoint.sequence > latest.value.checkpoint.sequence
        case ConflictKind => latest.Some? && statement.checkpoint.sequence <= latest.value.checkpoint.sequence
        case RetirementKind => latest.Some? && statement.checkpoint == latest.value.checkpoint && i == |chain| - 1)
  }

  ghost predicate LegalChain(from: Origin, chain: seq<Statement>) { forall i | 0 <= i < |chain| :: FollowsAt(from, chain, i) }

  /** A continuation is one its own reading could have saved. */
  predicate ContinuationHolds(c: Continuation) {
    && c.latest.kind.CheckpointKind? && c.latest.index <= c.last.index
    && (match c.last.kind
        case CheckpointKind => c.latest == c.last
        case ConflictKind => c.last.checkpoint.sequence <= c.latest.checkpoint.sequence
        case RetirementKind => c.last.checkpoint == c.latest.checkpoint)
  }

  /** The sequences of the conflicts of a chain, in index order. */
  function ConflictsOf(chain: seq<Statement>): seq<nat> {
    if chain == [] then []
    else
      var last := chain[|chain| - 1];
      var before := ConflictsOf(chain[..|chain| - 1]);
      if last.kind.ConflictKind? then before + [last.checkpoint.sequence] else before
  }

  // ----- What a reading is of -----

  ghost predicate WellFormed(r: Reader, supplied: Supplied) {
    && (forall line | line in supplied.lines :: FormOf(r, line).Some?)
    && (supplied.head.Some? ==> |supplied.head.value| == 1 && FormOf(r, supplied.head.value[0]).Some?)
    && (supplied.resume.Some? ==> supplied.resume.value.Some?)
  }

  function LineStatements(r: Reader, lines: seq<Bytes>): set<Statement> {
    set line | line in lines && FormOf(r, line).Some? :: FormOf(r, line).value
  }

  /** The head: of a head file of one line, the statement it holds. */
  function HeadOf(r: Reader, supplied: Supplied): Option<Statement> {
    if supplied.head.Some? && |supplied.head.value| == 1 then FormOf(r, supplied.head.value[0]) else None
  }

  function ResumedFrom(supplied: Supplied): Option<Continuation> {
    if supplied.resume.Some? then supplied.resume.value else None
  }

  /** All statements supplied in any way, without order or repeats. */
  function StatementsOf(r: Reader, supplied: Supplied): set<Statement> {
    LineStatements(r, supplied.lines) +
    (match HeadOf(r, supplied)
     case None => {}
     case Some(head) => {head}) +
    (match ResumedFrom(supplied)
     case None => {}
     case Some(c) => {c.last, c.latest})
  }

  function OriginOf(resume: Option<Continuation>): Origin { if resume.Some? then After(resume.value) else FromStart() }

  /** The statements at or above where the chain begins. */
  function ChainOf(statements: set<Statement>, start: nat): set<Statement> {
    set st | st in statements && st.index >= start
  }

  /** The head is older than the continuation. */
  predicate Behind(resume: Option<Continuation>, head: Option<Statement>) {
    resume.Some? && head.Some? && head.value.index < resume.value.last.index
  }

  /** The head stands beyond where the others could reach in one step. */
  ghost predicate Unreached(statements: set<Statement>, resume: Option<Continuation>, head: Option<Statement>) {
    && head.Some? && !Behind(resume, head) && head.value.index > OriginOf(resume).start
    && forall st | st in statements && st != head.value :: head.value.index > st.index + 1
  }

  /** What makes a reading clean, as the set of its statements, its head and its continuation decide. */
  ghost predicate Clean(r: Reader, trail: Bytes, statements: set<Statement>, resume: Option<Continuation>,
                        head: Option<Statement>)
  {
    var chain := Listed(ChainOf(statements, OriginOf(resume).start));
    && (forall st | st in statements :: Passes(r, trail, st)) && DistinctIndexes(statements)
    && (match resume
        case None => chain != []
        case Some(c) => ContinuationHolds(c) && (c.last.kind.RetirementKind? ==> chain == []))
    && LegalChain(OriginOf(resume), chain)
    && !Behind(resume, head) && !Unreached(statements, resume, head)
  }

  /** What a clean reading ends with. */
  datatype Ending = Ending(last: Option<Statement>, latest: Option<Statement>, conflicts: seq<nat>, retired: bool)

  ghost function EndingOf(statements: set<Statement>, resume: Option<Continuation>): Ending {
    var from := OriginOf(resume);
    var chain := Listed(ChainOf(statements, from.start));
    var last := if chain != [] then Some(chain[|chain| - 1]) else if resume.Some? then Some(resume.value.last) else None;
    Ending(last, LatestBefore(from, chain, |chain|), ConflictsOf(chain), last.Some? && last.value.kind.RetirementKind?)
  }

  // ----- Readings compose -----

  ghost predicate Below(statements: set<Statement>, k: nat) { forall st | st in statements :: st.index < k }

  ghost predicate AtLeast(statements: set<Statement>, k: nat) { forall st | st in statements :: st.index >= k }

  lemma ListedSplits(low: set<Statement>, high: set<Statement>, k: nat)
    requires Below(low, k) && AtLeast(high, k) && DistinctIndexes(low) && DistinctIndexes(high)
    ensures Listed(low + high) == Listed(low) + Listed(high) && DistinctIndexes(low + high)
  {
    ListedHolds(low);
    ListedHolds(high);
    var list := Listed(low) + Listed(high);
    forall i, j | 0 <= i < j < |list|
      ensures list[i].index < list[j].index
    {
      if i < |Listed(low)| <= j {
        assert list[i] in SetOf(Listed(low)) && list[j] in SetOf(Listed(high));
      }
    }
    assert SetOf(list) == low + high;
    ListedOnce(list);
  }

  lemma {:induction false} LatestSplits(from: Origin, a: seq<Statement>, b: seq<Statement>, i: nat)
    requires i <= |a| + |b|
    ensures LatestBefore(from, a + b, i) ==
            if i <= |a| then LatestBefore(from, a, i)
            else LatestBefore(from.(latest := LatestBefore(from, a, |a|)), b, i - |a|)
  {
    if i > 0 {
      LatestSplits(from, a, b, i - 1);
    }
  }

  /** The state a chain is walked on from. */
  function WalkedOn(from: Origin, chain: seq<Statement>): Origin {
    if chain == [] then from
    else Origin(from.start + |chain|, chain[|chain| - 1].signature, LatestBefore(from, chain, |chain|))
  }

  lemma LegalSplits(from: Origin, a: seq<Statement>, b: seq<Statement>)
    ensures LegalChain(from, a + b) <==>
            && LegalChain(from, a) && LegalChain(WalkedOn(from, a), b)
            && (a != [] && b != [] ==> !a[|a| - 1].kind.RetirementKind?)
  {
    hide FollowsAt;
    if LegalChain(from, a + b) {
      forall i | 0 <= i < |a|
        ensures FollowsAt(from, a, i)
      {
        FirstPart(from, a, b, i);
      }
      forall i | 0 <= i < |b|
        ensures FollowsAt(WalkedOn(from, a), b, i)
      {
        SecondPart(from, a, b, i);
      }
      if a != [] && b != [] {
        FirstPart(from, a, b, |a| - 1);
      }
    }
    if LegalChain(from, a) && LegalChain(WalkedOn(from, a), b) && (a != [] && b != [] ==> !a[|a| - 1].kind.RetirementKind?) {
      forall i | 0 <= i < |a + b|
        ensures FollowsAt(from, a + b, i)
      {
        if i < |a| {
          FirstPart(from, a, b, i);
        } else {
          SecondPart(from, a, b, i - |a|);
        }
      }
    }
  }

  lemma FirstPart(from: Origin, a: seq<Statement>, b: seq<Statement>, i: nat)
    requires i < |a|
    ensures FollowsAt(from, a + b, i) ==> FollowsAt(from, a, i)
    ensures FollowsAt(from, a, i) && (i == |a| - 1 && b != [] ==> !a[i].kind.RetirementKind?) ==> FollowsAt(from, a + b, i)
    ensures FollowsAt(from, a + b, i) && b != [] ==> !a[i].kind.RetirementKind?
  {
    LatestSplits(from, a, b, i);
    assert (a + b)[i] == a[i] && (i > 0 ==> (a + b)[i - 1] == a[i - 1]);
  }

  lemma SecondPart(from: Origin, a: seq<Statement>, b: seq<Statement>, i: nat)
    requires i < |b|
    ensures FollowsAt(from, a + b, |a| + i) <==> FollowsAt(WalkedOn(from, a), b, i)
  {
    LatestSplits(from, a, b, |a| + i);
    assert (a + b)[|a| + i] == b[i];
    if a == [] {
      assert a + b == b;
    }
    if |a| + i > 0 {
      assert (a + b)[|a| + i - 1] == if i > 0 then b[i - 1] else a[|a| - 1];
    }
    LatestOfOrigin(WalkedOn(from, a), from.(latest := LatestBefore(from, a, |a|)), b, i);
  }

  lemma {:induction false} LatestOfOrigin(one: Origin, two: Origin, chain: seq<Statement>, i: nat)
    requires i <= |chain| && one.latest == two.latest
    ensures LatestBefore(one, chain, i) == LatestBefore(two, chain, i)
  {
    if i > 0 {
      LatestOfOrigin(one, two, chain, i - 1);
    }
  }

  lemma {:induction false} ConflictsSplit(a: seq<Statement>, b: seq<Statement>)
    ensures ConflictsOf(a + b) == ConflictsOf(a) + ConflictsOf(b)
  {
    if b == [] {
      assert a + b == a;
    } else {
      ConflictsSplit(a, b[..|b| - 1]);
      assert (a + b)[..|a + b| - 1] == a + b[..|b| - 1];
      assert (a + b)[|a + b| - 1] == b[|b| - 1];
    }
  }

  /** What stands after a legal chain read from its first statement: its last, and the latest checkpoint of it. */
  lemma {:induction false} LatestOfLegal(chain: seq<Statement>, i: nat)
    requires LegalChain(FromStart(), chain) && 0 < i <= |chain|
    ensures var latest := LatestBefore(FromStart(), chain, i);
            && latest.Some? && latest.value in chain[..i] && latest.value.kind.CheckpointKind?
            && latest.value.index <= chain[i - 1].index
  {
    assert FollowsAt(FromStart(), chain, i - 1);
    if i > 1 {
      assert FollowsAt(FromStart(), chain, i - 2);
      LatestOfLegal(chain, i - 1);
    }
    assert chain[i - 1] in chain[..i];
  }

  /** The continuation that a reading of these statements saves. */
  ghost function Saved(statements: set<Statement>): Option<Continuation> {
    var ending := EndingOf(statements, None);
    if ending.last.Some? && ending.latest.Some? then Some(Continuation(ending.last.value, ending.latest.value)) else None
  }

  lemma SavedHolds(chain: seq<Statement>)
    requires LegalChain(FromStart(), chain) && chain != []
    ensures var last, latest := chain[|chain| - 1], LatestBefore(FromStart(), chain, |chain|);
            && latest.Some? && latest.value in chain && ContinuationHolds(Continuation(last, latest.value))
            && After(Continuation(last, latest.value)) == WalkedOn(FromStart(), chain)
  {
    LatestOfLegal(chain, |chain|);
    assert FollowsAt(FromStart(), chain, |chain| - 1);
  }

  lemma WholeChain(statements: set<Statement>, start: nat)
    requires AtLeast(statements, start)
    ensures ChainOf(statements, start) == statements
  {
  }

  /** With a continuation, what is walked is the statements after it. */
  lemma ChainAfter(high: set<Statement>, k: nat, c: Continuation)
    requires AtLeast(high, k) && c.last.index < k && c.latest.index <= c.last.index
    ensures ChainOf(high + {c.last, c.latest}, c.last.index + 1) == high
  {
  }

  /** A chain that begins past index 0 is not one. */
  lemma BeginsAtZero(statements: set<Statement>, k: nat)
    requires k > 0 && AtLeast(statements, k) && statements != {} && DistinctIndexes(statements)
    ensures !LegalChain(FromStart(), Listed(statements))
  {
    ListedHolds(statements);
    var chain := Listed(statements);
    assert chain[0] in SetOf(chain);
    assert !FollowsAt(FromStart(), chain, 0);
  }

  lemma DistinctParts(low: set<Statement>, high: set<Statement>)
    requires DistinctIndexes(low + high)
    ensures DistinctIndexes(low) && DistinctIndexes(high)
  {
  }

  lemma DistinctAfter(low: set<Statement>, high: set<Statement>, k: nat, c: Continuation)
    requires Below(low, k) && AtLeast(high, k) && DistinctIndexes(low) && c.last in low && c.latest in low
    ensures DistinctIndexes(high + {c.last, c.latest}) <==> DistinctIndexes(high)
  {
  }

  /** A clean reading of the first statements saves what a later reading goes on from. */
  lemma CleanSaves(r: Reader, trail: Bytes, low: set<Statement>, k: nat)
    requires Below(low, k) && Clean(r, trail, low, None, None)
    ensures var chain, saved := Listed(low), Saved(low);
            && saved.Some? && saved.value.last in low && saved.value.latest in low && ContinuationHolds(saved.value)
            && After(saved.value) == WalkedOn(FromStart(), chain) && saved.value.last.index < k
            && chain != [] && saved.value.last == chain[|chain| - 1]
            && Some(saved.value.latest) == LatestBefore(FromStart(), chain, |chain|)
  {
    hide LegalChain, Passes;
    WholeChain(low, 0);
    ListedHolds(low);
    var chain := Listed(low);
    SavedHolds(chain);
    assert chain[|chain| - 1] in SetOf(chain);
    assert LatestBefore(FromStart(), chain, |chain|).value in SetOf(chain);
  }

  /**
   Readings compose: reading a chain whole is clean exactly when reading its first statements is, and reading
   the rest from the continuation that saved is; and then both end alike, with the conflicts in order.
   */
  lemma ReadingsCompose(r: Reader, trail: Bytes, low: set<Statement>, high: set<Statement>, k: nat)
    requires k >= 1 && Below(low, k) && AtLeast(high, k)
    ensures Clean(r, trail, low + high, None, None) <==>
            && Clean(r, trail, low, None, None) && Saved(low).Some?
            && var c := Saved(low).value; Clean(r, trail, high + {c.last, c.latest}, Some(c), None)
    ensures Clean(r, trail, low + high, None, None) && Saved(low).Some? ==>
              var c := Saved(low).value;
              var first, rest := EndingOf(low, None), EndingOf(high + {c.last, c.latest}, Some(c));
              EndingOf(low + high, None) == Ending(rest.last, rest.latest, first.conflicts + rest.conflicts, rest.retired)
  {
    hide Passes, LegalChain, DistinctIndexes, Listed;
    WholeChain(low + high, 0);
    WholeChain(low, 0);
    if Clean(r, trail, low + high, None, None) {
      DistinctParts(low, high);
      FirstIsClean(r, trail, low, high, k);
    }
    if Clean(r, trail, low, None, None) {
      CleanSaves(r, trail, low, k);
      var c := Saved(low).value;
      ChainAfter(high, k, c);
      DistinctAfter(low, high, k, c);
      if DistinctIndexes(high) {
        ListedSplits(low, high, k);
        var a, b := Listed(low), Listed(high);
        LegalSplits(FromStart(), a, b);
        ConflictsSplit(a, b);
        LatestSplits(FromStart(), a, b, |a + b|);
        LatestOfOrigin(WalkedOn(FromStart(), a), FromStart().(latest := LatestBefore(FromStart(), a, |a|)), b, |b|);
        RestIsClean(r, trail, low, high, c);
        ComposedEnding(low, high, c);
      } else if DistinctIndexes(low + high) {
        DistinctParts(low, high);
      }
    }
  }

  lemma FirstIsClean(r: Reader, trail: Bytes, low: set<Statement>, high: set<Statement>, k: nat)
    requires k >= 1 && Below(low, k) && AtLeast(high, k) && Clean(r, trail, low + high, None, None)
    ensures Clean(r, trail, low, None, None)
  {
    hide Passes, LegalChain, Listed, DistinctIndexes;
    WholeChain(low + high, 0);
    WholeChain(low, 0);
    DistinctParts(low, high);
    ListedSplits(low, high, k);
    LegalSplits(FromStart(), Listed(low), Listed(high));
    EmptyListed();
    if low == {} {
      assert low + high == high;
      BeginsAtZero(high, k);
    } else {
      ListedHolds(low);
      NonemptyListed(low);
    }
  }

  lemma EmptyListed()
    ensures Listed({}) == []
  {
  }

  lemma NonemptyListed(statements: set<Statement>)
    requires SetOf(Listed(statements)) == statements && statements != {}
    ensures Listed(statements) != []
  {
  }

  /** What is left to check of the rest, once the first statements are clean. */
  lemma RestIsClean(r: Reader, trail: Bytes, low: set<Statement>, high: set<Statement>, c: Continuation)
    requires Clean(r, trail, low, None, None) && ChainOf(low, 0) == low && ChainOf(low + high, 0) == low + high
    requires c.last in low && c.latest in low && ContinuationHolds(c)
    requires ChainOf(high + {c.last, c.latest}, c.last.index + 1) == high
    requires DistinctIndexes(low + high) && DistinctIndexes(high + {c.last, c.latest})
    requires var a, b := Listed(low), Listed(high);
             && a != [] && a[|a| - 1] == c.last && After(c) == WalkedOn(FromStart(), a) && Listed(low + high) == a + b
             && (LegalChain(FromStart(), a + b) <==>
                   && LegalChain(FromStart(), a) && LegalChain(WalkedOn(FromStart(), a), b)
                   && (b != [] ==> !c.last.kind.RetirementKind?))
    ensures Clean(r, trail, low + high, None, None) <==> Clean(r, trail, high + {c.last, c.latest}, Some(c), None)
  {
    hide Passes, LegalChain, DistinctIndexes, Listed, ContinuationHolds;
  }

  lemma ComposedEnding(low: set<Statement>, high: set<Statement>, c: Continuation)
    requires ChainOf(low, 0) == low && ChainOf(low + high, 0) == low + high
    requires ChainOf(high + {c.last, c.latest}, c.last.index + 1) == high
    requires var a, b := Listed(low), Listed(high);
             && a != [] && a[|a| - 1] == c.last && After(c) == WalkedOn(FromStart(), a) && Listed(low + high) == a + b
             && Some(c.latest) == LatestBefore(FromStart(), a, |a|)
             && ConflictsOf(a + b) == ConflictsOf(a) + ConflictsOf(b)
             && LatestBefore(FromStart(), a + b, |a + b|) == (if b == [] then LatestBefore(FromStart(), a, |a|) else LatestBefore(WalkedOn(FromStart(), a), b, |b|))
    ensures var first, rest := EndingOf(low, None), EndingOf(high + {c.last, c.latest}, Some(c));
            EndingOf(low + high, None) == Ending(rest.last, rest.latest, first.conflicts + rest.conflicts, rest.retired)
  {
    hide Listed, ConflictsOf, LatestBefore, WalkedOn, ChainOf;
    var a, b := Listed(low), Listed(high);
    LatestAtOnce(After(c));
    NoConflicts();
    if b == [] {
      assert a + b == a;
    } else {
      assert (a + b)[|a + b| - 1] == b[|b| - 1];
    }
  }

  lemma LatestAtOnce(from: Origin)
    ensures LatestBefore(from, [], 0) == from.latest
  {
  }

  lemma NoConflicts()
    ensures ConflictsOf([]) == []
  {
  }
}
