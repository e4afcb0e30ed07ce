/** A witness's statements read: gathered into one set, each checked once, sorted by index and walked as a chain. */
module WitnessReader {
  import opened Octets
  import opened Sidecar
  import opened Witness

  datatype WitnessFindingName =
    | WitnessMalformed | WitnessSignatureInvalid | WitnessTrailMismatch | WitnessEquivocation
    | WitnessChainBroken | WitnessHeadUnreached | WitnessHeadBehind

  datatype WitnessReading = WitnessReading(findings: seq<WitnessFindingName>, verified: seq<Statement>, clean: bool,
                                           checked: nat, head: Option<Statement>, ending: Ending)

  predicate NoneTwice(list: seq<Statement>) { forall i, j | 0 <= i < j < |list| :: list[i] != list[j] }

  // ----- Gathering -----

  /** Adds a statement to the set, unless it is there. */
  method Add(list: seq<Statement>, statement: Statement) returns (more: seq<Statement>)
    requires NoneTwice(list)
    ensures NoneTwice(more) && SetOf(more) == SetOf(list) + {statement}
  {
    if statement in list {
      assert SetOf(list) + {statement} == SetOf(list);
      return list;
    }
    more := list + [statement];
  }

  /** The lines among these that are no statements. */
  function WrongAmong(r: Reader, lines: seq<Bytes>): set<Bytes> { set line | line in lines && FormOf(r, line).None? }

  /** Every line supplied, in a statement file or in a head file of one. */
  function LinesOf(supplied: Supplied): seq<Bytes> {
    supplied.lines + if supplied.head.Some? && |supplied.head.value| == 1 then supplied.head.value else []
  }

  /** How much of what is supplied has no form: each line once, a continuation, and a head file not of one line. */
  function MalformedOf(r: Reader, supplied: Supplied): nat {
    |WrongAmong(r, LinesOf(supplied))| + (if supplied.resume == Some(None) then 1 else 0)
    + (if supplied.head.Some? && |supplied.head.value| != 1 then 1 else 0)
  }

  lemma NoneAmong(r: Reader, lines: seq<Bytes>)
    ensures LineStatements(r, lines[..0]) == {} && WrongAmong(r, lines[..0]) == {}
    ensures lines[..|lines|] == lines
  {
  }

  lemma WrongMore(r: Reader, lines: seq<Bytes>, i: nat)
    requires i < |lines|
    ensures WrongAmong(r, lines[..i + 1]) ==
            WrongAmong(r, lines[..i]) + (if FormOf(r, lines[i]).None? then {lines[i]} else {})
  {
    hide FormOf;
    assert lines[..i + 1] == lines[..i] + [lines[i]];
  }

  lemma NoneMalformed(r: Reader, supplied: Supplied)
    ensures MalformedOf(r, supplied) == 0 <==> WellFormed(r, supplied)
  {
    hide FormOf;
    var wrong := WrongAmong(r, LinesOf(supplied));
    if WellFormed(r, supplied) {
      forall line | line in LinesOf(supplied)
        ensures FormOf(r, line).Some?
      {
        assert line in supplied.lines || (supplied.head.Some? && line in supplied.head.value);
      }
      assert wrong == {};
    }
    if MalformedOf(r, supplied) == 0 {
      assert wrong == {};
      forall line | line in LinesOf(supplied)
        ensures FormOf(r, line).Some?
      {
        assert line !in wrong;
      }
      assert forall line | line in supplied.lines :: line in LinesOf(supplied);
      assert supplied.head.Some? ==> supplied.head.value[0] in LinesOf(supplied);
    }
  }

  /** Adds the statement of each line, and a finding for each line, once, that is not one. */
  method AddLines(r: Reader, lines: seq<Bytes>, list: seq<Statement>) returns (more: seq<Statement>, malformed: nat)
    requires NoneTwice(list)
    ensures NoneTwice(more) && SetOf(more) == SetOf(list) + LineStatements(r, lines)
    ensures malformed == |WrongAmong(r, lines)|
  {
    hide FormOf, NoneTwice, WrongAmong, LineStatements;
    more, malformed := list, 0;
    NoneAmong(r, lines);
    var reported: set<Bytes>, i := {}, 0;
    while i < |lines|
      invariant 0 <= i <= |lines| && NoneTwice(more)
      invariant SetOf(more) == SetOf(list) + LineStatements(r, lines[..i])
      invariant malformed == |reported| && reported == WrongAmong(r, lines[..i])
    {
      OneMoreLine(r, lines, i);
      WrongMore(r, lines, i);
      var form := FormOf(r, lines[i]);
      if form.None? {
        if lines[i] !in reported {
          reported := reported + {lines[i]};
          malformed := malformed + 1;
        }
      } else {
        more := Add(more, form.value);
      }
      i := i + 1;
    }
    assert lines[..i] == lines;
  }

  lemma OneMoreLine(r: Reader, lines: seq<Bytes>, i: nat)
    requires i < |lines|
    ensures LineStatements(r, lines[..i + 1]) ==
            LineStatements(r, lines[..i]) + (if FormOf(r, lines[i]).Some? then {FormOf(r, lines[i]).value} else {})
    ensures forall line :: line in lines[..i + 1] <==> line in lines[..i] || line == lines[i]
  {
    hide FormOf;
    assert lines[..i + 1] == lines[..i] + [lines[i]];
  }

  /** Gathers what was supplied into a list with no repeats, counting what has no form. */
  method Collect(r: Reader, supplied: Supplied) returns (list: seq<Statement>, malformed: nat)
    ensures NoneTwice(list) && SetOf(list) == StatementsOf(r, supplied)
    ensures malformed == MalformedOf(r, supplied)
  {
    hide FormOf, NoneTwice, LineStatements;
    NothingYet();
    OneMoreWrong(r, supplied);
    list, malformed := [], 0;
    if supplied.resume.Some? {
      if supplied.resume.value.None? {
        malformed := 1;
      } else {
        list := Add(list, supplied.resume.value.value.last);
        list := Add(list, supplied.resume.value.value.latest);
      }
    }
    var found;
    list, found := AddLines(r, supplied.lines, list);
    malformed := malformed + found;
    if supplied.head.Some? {
      if |supplied.head.value| != 1 {
        malformed := malformed + 1;
      } else {
        var head := FormOf(r, supplied.head.value[0]);
        if head.None? {
          if supplied.head.value[0] !in supplied.lines {
            malformed := malformed + 1;
          }
        } else {
          list := Add(list, head.value);
        }
      }
    }
  }

  lemma OneMoreWrong(r: Reader, supplied: Supplied)
    ensures |WrongAmong(r, LinesOf(supplied))| ==
            |WrongAmong(r, supplied.lines)|
            + (if supplied.head.Some? && |supplied.head.value| == 1 && supplied.head.value[0] !in supplied.lines
                  && FormOf(r, supplied.head.value[0]).None? then 1 else 0)
  {
    hide FormOf;
    if supplied.head.Some? && |supplied.head.value| == 1 {
      var line := supplied.head.value[0];
      assert supplied.head.value == [line];
      assert WrongAmong(r, LinesOf(supplied)) ==
             WrongAmong(r, supplied.lines) + (if FormOf(r, line).None? then {line} else {});
    } else {
      assert LinesOf(supplied) == supplied.lines;
    }
  }

  lemma NothingYet()
    ensures NoneTwice([]) && SetOf([]) == {}
  {
  }

  // ----- Checking each -----

  function PassingOf(r: Reader, trail: Bytes, list: seq<Statement>): seq<Statement> {
    if list == [] then []
    else
      var last := list[|list| - 1];
      var before := PassingOf(r, trail, list[..|list| - 1]);
      if Passes(r, trail, last) then before + [last] else before
  }

  lemma {:induction false} PassingAre(r: Reader, trail: Bytes, list: seq<Statement>)
    ensures forall st :: st in PassingOf(r, trail, list) <==> st in list && Passes(r, trail, st)
    ensures NoneTwice(list) ==> NoneTwice(PassingOf(r, trail, list))
  {
    hide Passes, NoneTwice;
    if list == [] {
      NothingYet();
    } else {
      var front, last := list[..|list| - 1], list[|list| - 1];
      assert list == front + [last];
      PassingAre(r, trail, front);
      OnceMore(front, last);
      OnceMore(PassingOf(r, trail, front), last);
    }
  }

  lemma OnceMore(list: seq<Statement>, last: Statement)
    ensures NoneTwice(list + [last]) <==> NoneTwice(list) && last !in list
  {
    var more := list + [last];
    if NoneTwice(more) {
      forall i, j | 0 <= i < j < |list|
        ensures list[i] != list[j]
      {
        assert more[i] != more[j];
      }
      forall i | 0 <= i < |list|
        ensures list[i] != last
      {
        assert more[i] != more[|list|];
      }
    }
  }

  /** No key supplied is the one it names, or its signature is not one of its text under that key. */
  predicate Forged(r: Reader, st: Statement) {
    !(st.keyId in r.keys && r.s.verify(r.keys[st.keyId], SignedText(st), st.signature))
  }

  function ForgedAmong(r: Reader, statements: set<Statement>): set<Statement> {
    set st | st in statements && Forged(r, st)
  }

  /** Signed, but of another trail. */
  function StrangeAmong(r: Reader, trail: Bytes, statements: set<Statement>): set<Statement> {
    set st | st in statements && !Forged(r, st) && st.checkpoint.trail != trail
  }

  /** Signed, and of this trail. */
  function VouchedAmong(r: Reader, trail: Bytes, statements: set<Statement>): set<Statement> {
    set st | st in statements && !Forged(r, st) && st.checkpoint.trail == trail
  }

  lemma PassesIs(r: Reader, trail: Bytes, st: Statement)
    ensures Passes(r, trail, st) <==> !Forged(r, st) && st.checkpoint.trail == trail
  {
    hide SignedText;
  }

  /** How many of the findings are of each kind: every statement that fails makes one, of the first check it fails. */
  ghost predicate ChecksFound(r: Reader, trail: Bytes, statements: set<Statement>, findings: seq<WitnessFindingName>) {
    && multiset(findings)[WitnessSignatureInvalid] == |ForgedAmong(r, statements)|
    && multiset(findings)[WitnessTrailMismatch] == |StrangeAmong(r, trail, statements)|
    && |findings| == |ForgedAmong(r, statements)| + |StrangeAmong(r, trail, statements)|
  }

  lemma ForgedMore(r: Reader, before: set<Statement>, st: Statement)
    requires st !in before
    ensures |ForgedAmong(r, before + {st})| == |ForgedAmong(r, before)| + (if Forged(r, st) then 1 else 0)
  {
    hide Forged;
    assert ForgedAmong(r, before + {st}) == ForgedAmong(r, before) + (if Forged(r, st) then {st} else {});
  }

  lemma StrangeMore(r: Reader, trail: Bytes, before: set<Statement>, st: Statement)
    requires st !in before
    ensures |StrangeAmong(r, trail, before + {st})| ==
            |StrangeAmong(r, trail, before)| + (if !Forged(r, st) && st.checkpoint.trail != trail then 1 else 0)
  {
    hide Forged;
    assert StrangeAmong(r, trail, before + {st}) ==
           StrangeAmong(r, trail, before) + (if !Forged(r, st) && st.checkpoint.trail != trail then {st} else {});
  }

  /** One statement more makes one finding more, or none. */
  lemma OneMoreChecked(r: Reader, trail: Bytes, list: seq<Statement>, i: nat, findings: seq<WitnessFindingName>)
    requires i < |list| && NoneTwice(list) && ChecksFound(r, trail, SetOf(list[..i]), findings)
    ensures var st := list[i];
            var now := if Forged(r, st) then findings + [WitnessSignatureInvalid]
                       else if st.checkpoint.trail != trail then findings + [WitnessTrailMismatch] else findings;
            ChecksFound(r, trail, SetOf(list[..i + 1]), now)
  {
    hide Forged, ForgedAmong, StrangeAmong;
    var st := list[i];
    assert list[..i + 1] == list[..i] + [st];
    assert SetOf(list[..i + 1]) == SetOf(list[..i]) + {st} && st !in SetOf(list[..i]);
    ForgedMore(r, SetOf(list[..i]), st);
    StrangeMore(r, trail, SetOf(list[..i]), st);
  }

  lemma NoneChecked(r: Reader, trail: Bytes)
    ensures ChecksFound(r, trail, {}, [])
  {
    assert ForgedAmong(r, {}) == {} && StrangeAmong(r, trail, {}) == {};
  }

  /** Checks each statement once, taking the first check it fails and no other. */
  method CheckEach(r: Reader, trail: Bytes, list: seq<Statement>)
    returns (passing: seq<Statement>, findings: seq<WitnessFindingName>)
    requires NoneTwice(list)
    ensures passing == PassingOf(r, trail, list)
    ensures findings == [] <==> forall st | st in list :: Passes(r, trail, st)
    ensures ChecksFound(r, trail, SetOf(list), findings)
  {
    hide SignedText, NoneTwice, ChecksFound, SetOf;
    passing, findings := [], [];
    assert list[..0] == [] && SetOf([]) == {} by {
      NothingYet();
    }
    NoneChecked(r, trail);
    var i := 0;
    while i < |list|
      invariant 0 <= i <= |list| && passing == PassingOf(r, trail, list[..i])
      invariant findings == [] <==> forall j | 0 <= j < i :: Passes(r, trail, list[j])
      invariant ChecksFound(r, trail, SetOf(list[..i]), findings)
    {
      assert list[..i + 1][..i] == list[..i];
      OneMoreChecked(r, trail, list, i, findings);
      if list[i].keyId !in r.keys {
        findings := findings + [WitnessSignatureInvalid];
      } else if !Verifies(r.s, r.keys[list[i].keyId], SignedText(list[i]), list[i].signature) {
        findings := findings + [WitnessSignatureInvalid];
      } else if list[i].checkpoint.trail != trail {
        findings := findings + [WitnessTrailMismatch];
      } else {
        passing := passing + [list[i]];
      }
      i := i + 1;
    }
    assert list[..i] == list;
  }

  // ----- In index order -----

  predicate InIndexOrder(list: seq<Statement>) { forall i, j | 0 <= i < j < |list| :: list[i].index <= list[j].index }

  /** After every statement of its index or a lower one. */
  function Place(list: seq<Statement>, more: Statement): seq<Statement> {
    if list == [] || list[|list| - 1].index <= more.index then list + [more]
    else Place(list[..|list| - 1], more) + [list[|list| - 1]]
  }

  function ByIndex(list: seq<Statement>): seq<Statement> {
    if list == [] then [] else Place(ByIndex(list[..|list| - 1]), list[|list| - 1])
  }

  ghost predicate NoneOver(list: seq<Statement>, index: nat) { forall i | 0 <= i < |list| :: list[i].index <= index }

  lemma {:induction false} PlaceHolds(list: seq<Statement>, more: Statement)
    ensures forall st :: st in Place(list, more) <==> st in list || st == more
  {
    if list != [] && list[|list| - 1].index > more.index {
      PlaceHolds(list[..|list| - 1], more);
      assert list == list[..|list| - 1] + [list[|list| - 1]];
    }
  }

  lemma {:induction false} PlaceInOrder(list: seq<Statement>, more: Statement)
    requires InIndexOrder(list)
    ensures InIndexOrder(Place(list, more))
    ensures forall n: nat | NoneOver(list, n) && more.index <= n :: NoneOver(Place(list, more), n)
  {
    if list != [] && list[|list| - 1].index > more.index {
      var front, last := list[..|list| - 1], list[|list| - 1];
      PlaceInOrder(front, more);
      assert NoneOver(front, last.index);
    }
  }

  lemma {:induction false} PlaceNoneTwice(list: seq<Statement>, more: Statement)
    requires NoneTwice(list) && more !in list
    ensures NoneTwice(Place(list, more))
  {
    if list != [] && list[|list| - 1].index > more.index {
      var front, last := list[..|list| - 1], list[|list| - 1];
      LastIsApart(list);
      PlaceHolds(front, more);
      PlaceNoneTwice(front, more);
      assert last !in Place(front, more);
      assert list[|list| - 1] in list;
    }
  }

  /** Sorting moves statements and loses none. */
  lemma {:induction false} SortedIs(list: seq<Statement>)
    requires NoneTwice(list)
    ensures InIndexOrder(ByIndex(list)) && NoneTwice(ByIndex(list)) && SetOf(ByIndex(list)) == SetOf(list)
  {
    hide InIndexOrder, Place, NoneTwice;
    NothingSorted();
    if list != [] {
      var front, last := list[..|list| - 1], list[|list| - 1];
      LastIsApart(list);
      SortedIs(front);
      assert last in ByIndex(front) <==> last in SetOf(ByIndex(front));
      assert last in front <==> last in SetOf(front);
      PlaceHolds(ByIndex(front), last);
      PlaceInOrder(ByIndex(front), last);
      PlaceNoneTwice(ByIndex(front), last);
    }
  }

  lemma NothingSorted()
    ensures InIndexOrder([]) && NoneTwice([])
  {
  }

  lemma LastIsApart(list: seq<Statement>)
    requires list != [] && NoneTwice(list)
    ensures NoneTwice(list[..|list| - 1]) && list[|list| - 1] !in list[..|list| - 1]
    ensures SetOf(list) == SetOf(list[..|list| - 1]) + {list[|list| - 1]}
  {
    assert list == list[..|list| - 1] + [list[|list| - 1]];
  }

  function IndexesOf(statements: set<Statement>): set<nat> { set st | st in statements :: st.index }

  lemma IndexMore(before: set<Statement>, st: Statement)
    ensures IndexesOf(before + {st}) == IndexesOf(before) + {st.index}
  {
  }

  lemma IndexTaken(sorted: seq<Statement>, i: nat)
    requires 0 < i < |sorted| && InIndexOrder(sorted)
    ensures sorted[i].index in IndexesOf(SetOf(sorted[..i])) <==> sorted[i].index == sorted[i - 1].index
  {
    var n := sorted[i].index;
    if n in IndexesOf(SetOf(sorted[..i])) {
      var st :| st in SetOf(sorted[..i]) && st.index == n;
      var j :| 0 <= j < i && sorted[..i][j] == st;
      assert sorted[j].index <= sorted[i - 1].index <= n;
    }
    if sorted[i - 1].index == n {
      assert sorted[..i][i - 1] in SetOf(sorted[..i]);
    }
  }

  /** One statement more in index order stands at an index of its own, unless the one before it stands there too. */
  lemma OneMoreIndex(sorted: seq<Statement>, i: nat)
    requires 0 < i < |sorted| && InIndexOrder(sorted)
    ensures |IndexesOf(SetOf(sorted[..i + 1]))| ==
            |IndexesOf(SetOf(sorted[..i]))| + (if sorted[i].index == sorted[i - 1].index then 0 else 1)
  {
    hide IndexesOf, InIndexOrder;
    assert sorted[..i + 1] == sorted[..i] + [sorted[i]];
    assert SetOf(sorted[..i + 1]) == SetOf(sorted[..i]) + {sorted[i]};
    IndexMore(SetOf(sorted[..i]), sorted[i]);
    IndexTaken(sorted, i);
    var before := IndexesOf(SetOf(sorted[..i]));
    if sorted[i].index in before {
      assert before + {sorted[i].index} == before;
    }
  }

  lemma FirstIndex(sorted: seq<Statement>)
    ensures |sorted| > 0 ==> |IndexesOf(SetOf(sorted[..1]))| == 1
    ensures sorted == [] ==> IndexesOf(SetOf(sorted)) == {}
    ensures sorted[..|sorted|] == sorted
  {
    if sorted != [] {
      assert sorted[..1] == [sorted[0]];
      assert SetOf(sorted[..1]) == {sorted[0]};
      assert IndexesOf(SetOf(sorted[..1])) == {sorted[0].index};
    }
  }

  /** Counts the statements that share an index with the one before them: as many as there are indexes too few. */
  method Equivocations(sorted: seq<Statement>) returns (count: nat)
    requires InIndexOrder(sorted)
    ensures count == 0 <==> Ascending(sorted)
    ensures count + |IndexesOf(SetOf(sorted))| == |sorted|
  {
    hide IndexesOf, SetOf;
    FirstIndex(sorted);
    count := 0;
    var i := 1;
    while i < |sorted|
      invariant 1 <= i && (sorted != [] ==> i <= |sorted|)
      invariant sorted != [] ==> count + |IndexesOf(SetOf(sorted[..i]))| == i
      invariant count == 0 <==> forall j | 1 <= j < i && j < |sorted| :: sorted[j].index != sorted[j - 1].index
    {
      OneMoreIndex(sorted, i);
      if sorted[i].index == sorted[i - 1].index {
        count := count + 1;
      }
      i := i + 1;
    }
    assert sorted != [] ==> i == |sorted| && sorted[..i] == sorted;
    if count == 0 {
      NeighboursAscend(sorted);
    }
  }

  lemma NeighboursAscend(sorted: seq<Statement>)
    requires InIndexOrder(sorted)
    requires forall j | 1 <= j < |sorted| :: sorted[j].index != sorted[j - 1].index
    ensures Ascending(sorted)
  {
    forall i, j | 0 <= i < j < |sorted|
      ensures sorted[i].index < sorted[j].index
    {
      assert sorted[j - 1].index < sorted[j].index;
    }
  }

  lemma EquivocatesOrNot(sorted: seq<Statement>)
    requires NoneTwice(sorted) && InIndexOrder(sorted)
    ensures DistinctIndexes(SetOf(sorted)) <==> Ascending(sorted)
  {
    if Ascending(sorted) {
      AscendingIsDistinct(sorted);
    } else {
      var i, j :| 0 <= i < j < |sorted| && sorted[i].index >= sorted[j].index;
      assert sorted[i] in SetOf(sorted) && sorted[j] in SetOf(sorted);
    }
  }

  /** The checkpoint statements among these, in order. */
  method Verified(sorted: seq<Statement>) returns (verified: seq<Statement>)
    requires InIndexOrder(sorted)
    ensures InIndexOrder(verified)
    ensures forall st :: st in verified <==> st in sorted && st.kind.CheckpointKind?
  {
    verified := [];
    var i := 0;
    while i < |sorted|
      invariant 0 <= i <= |sorted| && InIndexOrder(verified)
      invariant forall st :: st in verified <==> st in sorted[..i] && st.kind.CheckpointKind?
    {
      assert sorted[..i + 1] == sorted[..i] + [sorted[i]];
      forall j | 0 <= j < |verified|
        ensures verified[j].index <= sorted[i].index
      {
        assert verified[j] in sorted[..i];
      }
      if sorted[i].kind.CheckpointKind? {
        verified := verified + [sorted[i]];
      }
      i := i + 1;
    }
    assert sorted[..i] == sorted;
  }

  // ----- Walking the chain -----

  method Walk(from: Origin, chain: seq<Statement>)
    returns (legal: bool, latest: Option<Statement>, conflicts: seq<nat>)
    ensures legal <==> LegalChain(from, chain)
    ensures legal ==> latest == LatestBefore(from, chain, |chain|) && conflicts == ConflictsOf(chain)
  {
    var start, previous := from.start, from.previous;
    legal, latest, conflicts := true, from.latest, [];
    assert chain[..0] == [];
    var position := 0;
    while position < |chain| && legal
      invariant 0 <= position <= |chain|
      invariant legal <==> forall i | 0 <= i < position :: FollowsAt(from, chain, i)
      invariant legal ==>
                  && start == from.start + position
                  && previous == (if position == 0 then from.previous else chain[position - 1].signature)
                  && latest == LatestBefore(from, chain, position) && conflicts == ConflictsOf(chain[..position])
    {
      assert chain[..position + 1][..position] == chain[..position];
      var statement := chain[position];
      if statement.index != start || statement.prev != previous {
        legal := false;
      } else if statement.kind.CheckpointKind? {
        legal := latest.None? || statement.checkpoint.sequence > latest.value.checkpoint.sequence;
        latest := Some(statement);
      } else if latest.None? {
        legal := false;
      } else if statement.kind.ConflictKind? {
        legal := statement.checkpoint.sequence <= latest.value.checkpoint.sequence;
        conflicts := conflicts + [statement.checkpoint.sequence];
      } else {
        legal := statement.checkpoint == latest.value.checkpoint && position == |chain| - 1;
      }
      assert legal <==> FollowsAt(from, chain, position);
      start, previous := statement.index + 1, statement.signature;
      position := position + 1;
    }
    assert chain[..|chain|] == chain;
  }

  function Only(st: Option<Statement>): set<Statement> { if st.Some? then {st.value} else {} }

  /** The statements at or above an index, in order, without the one left out. */
  method From(sorted: seq<Statement>, start: nat, out: Option<Statement>) returns (chain: seq<Statement>)
    requires Ascending(sorted)
    ensures Ascending(chain) && SetOf(chain) == ChainOf(SetOf(sorted), start) - Only(out)
  {
    chain := [];
    var i := 0;
    while i < |sorted|
      invariant 0 <= i <= |sorted| && Ascending(chain)
      invariant forall st :: st in chain <==> st in sorted[..i] && st.index >= start && out != Some(st)
    {
      assert sorted[..i + 1] == sorted[..i] + [sorted[i]];
      forall j | 0 <= j < |chain|
        ensures chain[j].index < sorted[i].index
      {
        assert chain[j] in sorted[..i];
      }
      if sorted[i].index >= start && out != Some(sorted[i]) {
        chain := chain + [sorted[i]];
      }
      i := i + 1;
    }
    assert sorted[..i] == sorted;
  }

  /** Compares the head with the highest other index, and with the index before the first one walked. */
  method IsUnreached(sorted: seq<Statement>, resume: Option<Continuation>, head: Option<Statement>) returns (unreached: bool)
    ensures unreached == Unreached(SetOf(sorted), resume, head)
  {
    if head.None? || Behind(resume, head) || head.value.index <= OriginOf(resume).start {
      return false;
    }
    var i := 0;
    while i < |sorted|
      invariant 0 <= i <= |sorted|
      invariant forall j | 0 <= j < i && sorted[j] != head.value :: head.value.index > sorted[j].index + 1
    {
      if sorted[i] != head.value && head.value.index <= sorted[i].index + 1 {
        assert sorted[i] in SetOf(sorted);
        return false;
      }
      i := i + 1;
    }
    return true;
  }

  /** Whether the chain may be walked at all from where it begins. */
  predicate Begins(resume: Option<Continuation>, chain: seq<Statement>) {
    match resume
    case None => chain != []
    case Some(c) => ContinuationHolds(c) && (c.last.kind.RetirementKind? ==> chain == [])
  }

  /** The statements walked: those from where the chain begins, but for a head that the others do not reach. */
  ghost function WalkedOf(statements: set<Statement>, resume: Option<Continuation>, head: Option<Statement>)
    : seq<Statement>
  {
    Listed(ChainOf(statements, OriginOf(resume).start)
           - Only(if Unreached(statements, resume, head) then head else None))
  }

  lemma WalkedAlike(statements: set<Statement>, resume: Option<Continuation>, head: Option<Statement>)
    ensures !Unreached(statements, resume, head) ==>
              WalkedOf(statements, resume, head) == Listed(ChainOf(statements, OriginOf(resume).start))
  {
    var chain := ChainOf(statements, OriginOf(resume).start);
    assert chain - {} == chain;
  }

  /** All lines supplied are statements, each passes, and no two stand at one index. */
  ghost predicate AllPass(r: Reader, supplied: Supplied, trail: Bytes) {
    var statements := StatementsOf(r, supplied);
    WellFormed(r, supplied) && DistinctIndexes(statements) && forall st | st in statements :: Passes(r, trail, st)
  }

  /** The findings of what does not all pass: so many of each kind, and of no other. */
  ghost predicate FaultsFound(r: Reader, supplied: Supplied, trail: Bytes, findings: seq<WitnessFindingName>) {
    var statements := StatementsOf(r, supplied);
    var counts, vouched := multiset(findings), VouchedAmong(r, trail, statements);
    && counts[WitnessMalformed] == MalformedOf(r, supplied)
    && counts[WitnessSignatureInvalid] == |ForgedAmong(r, statements)|
    && counts[WitnessTrailMismatch] == |StrangeAmong(r, trail, statements)|
    && counts[WitnessEquivocation] + |IndexesOf(vouched)| == |vouched|
    && |findings| == counts[WitnessMalformed] + counts[WitnessSignatureInvalid] + counts[WitnessTrailMismatch]
                     + counts[WitnessEquivocation]
  }

  function Copies(n: nat, name: WitnessFindingName): (copies: seq<WitnessFindingName>)
    ensures |copies| == n && forall f | f in copies :: f == name
  {
    if n == 0 then [] else Copies(n - 1, name) + [name]
  }

  lemma {:induction false} CopiesCounted(n: nat, name: WitnessFindingName, other: WitnessFindingName)
    ensures multiset(Copies(n, name))[other] == if other == name then n else 0
  {
    if n > 0 {
      CopiesCounted(n - 1, name, other);
    }
  }

  /** The findings of the checks, with those of form before them and those of shared indexes after. */
  lemma FaultsJoined(malformed: nat, findings: seq<WitnessFindingName>, equivocations: nat, name: WitnessFindingName)
    ensures var all := Copies(malformed, WitnessMalformed) + findings + Copies(equivocations, WitnessEquivocation);
            && |all| == malformed + |findings| + equivocations
            && multiset(all)[name] == multiset(findings)[name] + (if name.WitnessMalformed? then malformed else 0)
                                      + (if name.WitnessEquivocation? then equivocations else 0)
  {
    CopiesCounted(malformed, WitnessMalformed, name);
    CopiesCounted(equivocations, WitnessEquivocation, name);
  }

  /** Of the checks alone no finding is of form or of shared indexes. */
  lemma ChecksAlone(r: Reader, trail: Bytes, statements: set<Statement>, findings: seq<WitnessFindingName>)
    requires ChecksFound(r, trail, statements, findings)
    ensures multiset(findings)[WitnessMalformed] == 0 && multiset(findings)[WitnessEquivocation] == 0
  {
    hide ForgedAmong, StrangeAmong;
    KindsCounted(findings);
  }

  lemma {:induction false} KindsCounted(findings: seq<WitnessFindingName>)
    ensures var counts := multiset(findings);
            counts[WitnessMalformed] + counts[WitnessSignatureInvalid] + counts[WitnessTrailMismatch]
            + counts[WitnessEquivocation] <= |findings|
  {
    if findings != [] {
      KindsCounted(findings[..|findings| - 1]);
      assert findings == findings[..|findings| - 1] + [findings[|findings| - 1]];
    }
  }

  /** So the findings of what does not all pass are as many of each kind as there are faults. */
  lemma FaultsAre(r: Reader, supplied: Supplied, trail: Bytes, findings: seq<WitnessFindingName>,
                  vouched: set<Statement>, equivocations: nat)
    requires ChecksFound(r, trail, StatementsOf(r, supplied), findings)
    requires vouched == VouchedAmong(r, trail, StatementsOf(r, supplied))
    requires equivocations + |IndexesOf(vouched)| == |vouched|
    ensures FaultsFound(r, supplied, trail, Copies(MalformedOf(r, supplied), WitnessMalformed) + findings
                                            + Copies(equivocations, WitnessEquivocation))
  {
    hide ForgedAmong, StrangeAmong, VouchedAmong, IndexesOf, StatementsOf, MalformedOf;
    ChecksAlone(r, trail, StatementsOf(r, supplied), findings);
    var malformed := MalformedOf(r, supplied);
    FaultsJoined(malformed, findings, equivocations, WitnessMalformed);
    FaultsJoined(malformed, findings, equivocations, WitnessSignatureInvalid);
    FaultsJoined(malformed, findings, equivocations, WitnessTrailMismatch);
    FaultsJoined(malformed, findings, equivocations, WitnessEquivocation);
  }

  lemma VouchedAre(r: Reader, trail: Bytes, statements: set<Statement>, sorted: seq<Statement>)
    requires NoneTwice(sorted) && forall st :: st in sorted <==> st in statements && Passes(r, trail, st)
    ensures SetOf(sorted) == VouchedAmong(r, trail, statements) && |SetOf(sorted)| == |sorted|
  {
    hide Passes, Forged, NoneTwice;
    forall st {
      PassesIs(r, trail, st);
    }
    AsManyAsListed(sorted);
  }

  lemma {:induction false} AsManyAsListed(list: seq<Statement>)
    requires NoneTwice(list)
    ensures |SetOf(list)| == |list|
  {
    hide NoneTwice;
    if list != [] {
      LastIsApart(list);
      AsManyAsListed(list[..|list| - 1]);
    }
  }

  /** What is found of statements that all pass: of the chain walked, and of the head. */
  ghost function ChainFindings(statements: set<Statement>, resume: Option<Continuation>, head: Option<Statement>)
    : seq<WitnessFindingName>
  {
    var chain := WalkedOf(statements, resume, head);
    (if Begins(resume, chain) && LegalChain(OriginOf(resume), chain) then [] else [WitnessChainBroken])
    + (if Unreached(statements, resume, head) then [WitnessHeadUnreached] else [])
    + (if Behind(resume, head) then [WitnessHeadBehind] else [])
  }

  /**
   Reads the statements supplied against the identity of a trail. Whatever the order of the lines, their split
   into files or how often one is repeated, the reading is clean exactly when the set they make is, and then
   ends as that set says. Statements that all pass, no two at one index, are found broken, unreached or behind as their
   set says; of any others it is found what is wrong with each, and nothing of the chain.
   */
  method Read(r: Reader, supplied: Supplied, trail: Bytes) returns (reading: WitnessReading)
    ensures var statements, resume, head := StatementsOf(r, supplied), ResumedFrom(supplied), HeadOf(r, supplied);
            && (reading.clean <==> WellFormed(r, supplied) && Clean(r, trail, statements, resume, head))
            && (reading.clean ==> reading.ending == EndingOf(statements, resume) && reading.head == head)
            && (reading.clean <==> reading.findings == [])
            && (AllPass(r, supplied, trail) ==> reading.findings == ChainFindings(statements, resume, head))
            && (!AllPass(r, supplied, trail) ==> FaultsFound(r, supplied, trail, reading.findings))
            && InIndexOrder(reading.verified)
            && (forall st :: st in reading.verified <==>
                  st in statements && Passes(r, trail, st) && st.kind.CheckpointKind?)
            && (forall st | st in reading.verified || (reading.clean && st in statements) ::
                  !Forged(r, st) && st.checkpoint.trail == trail)
  {
    hide FormOf, Passes, Forged, StatementsOf, WellFormed, ByIndex, PassingOf, Unreached, LegalChain, InIndexOrder, NoneTwice,
         DistinctIndexes, Listed, ChainOf, ConflictsOf, Ascending, ContinuationHolds, HeadOf, MalformedOf, Copies, ChecksFound,
         VouchedAmong, IndexesOf, FaultsFound;
    var list, malformed := Collect(r, supplied);
    NoneMalformed(r, supplied);
    forall st {
      PassesIs(r, trail, st);
    }
    var resume, head := ResumedFrom(supplied), HeadOf(r, supplied);
    var passing, findings := CheckEach(r, trail, list);
    PassingAre(r, trail, list);
    SortedIs(passing);
    var sorted := ByIndex(passing);
    var verified := Verified(sorted);
    var equivocations := Equivocations(sorted);
    EquivocatesOrNot(sorted);
    AllOrSome(r, trail, list, passing, sorted);
    VouchedAre(r, trail, SetOf(list), sorted);
    var nothing := Ending(None, None, [], false);
    if malformed > 0 || findings != [] || equivocations > 0 {
      FaultsAre(r, supplied, trail, findings, SetOf(sorted), equivocations);
      findings := Copies(malformed, WitnessMalformed) + findings + Copies(equivocations, WitnessEquivocation);
      return WitnessReading(findings, verified, false, |list|, head, nothing);
    }
    ListedOnce(sorted);
    var unreached := IsUnreached(sorted, resume, head);
    var chain := From(sorted, OriginOf(resume).start, if unreached then head else None);
    ListedOnce(chain);
    WalkedAlike(SetOf(sorted), resume, head);
    var begins := Begins(resume, chain);
    var legal, latest, conflicts := Walk(OriginOf(resume), chain);
    if !begins || !legal {
      findings := findings + [WitnessChainBroken];
    }
    if unreached {
      findings := findings + [WitnessHeadUnreached];
    }
    if Behind(resume, head) {
      findings := findings + [WitnessHeadBehind];
    }
    if findings != [] {
      return WitnessReading(findings, verified, false, |list|, head, nothing);
    }
    var last := if chain != [] then Some(chain[|chain| - 1]) else if resume.Some? then Some(resume.value.last) else None;
    var ending := Ending(last, latest, conflicts, last.Some? && last.value.kind.RetirementKind?);
    return WitnessReading([], verified, true, |list|, head, ending);
  }

  lemma AllOrSome(r: Reader, trail: Bytes, list: seq<Statement>, passing: seq<Statement>, sorted: seq<Statement>)
    requires passing == PassingOf(r, trail, list) && SetOf(sorted) == SetOf(passing)
    requires forall st :: st in passing <==> st in list && Passes(r, trail, st)
    ensures (forall st | st in list :: Passes(r, trail, st)) ==> SetOf(sorted) == SetOf(list)
    ensures forall st :: st in sorted <==> st in SetOf(list) && Passes(r, trail, st)
  {
    hide Passes, PassingOf;
    assert forall st :: st in sorted <==> st in SetOf(sorted);
    assert forall st :: st in passing <==> st in SetOf(passing);
  }
}
