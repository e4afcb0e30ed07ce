/** How the lines of a trail are counted, and how repairs cut it into segments. */
module Coverage {
  import opened Octets
  import opened Chain

  datatype LineClass = DamagedLine | ChainedLine | UnchainedLine

  function ClassOf(lines: seq<Bytes>, i: nat): LineClass
    requires i < |lines|
  {
    if Damaged(lines, i) then DamagedLine else if Chained(lines[i]) then ChainedLine else UnchainedLine
  }

  function Classes(lines: seq<Bytes>, k: nat): (classes: seq<LineClass>)
    requires k <= |lines|
    ensures |classes| == k
  {
    if k == 0 then [] else Classes(lines, k - 1) + [ClassOf(lines, k - 1)]
  }

  /** What covers a line: which of them is said by where the chained lines stand about it. */
  datatype Cover = InLegacyPrefix | InChain | BetweenChained | Uncovered | AsDamaged

  predicate ChainedBefore(classes: seq<LineClass>, i: nat) {
    exists j: nat :: j < i && j < |classes| && classes[j].ChainedLine?
  }

  predicate ChainedAfter(classes: seq<LineClass>, i: nat) {
    exists j: nat :: i < j < |classes| && classes[j].ChainedLine?
  }

  function CoverOf(classes: seq<LineClass>, i: nat): Cover
    requires i < |classes|
  {
    match classes[i]
    case DamagedLine => AsDamaged
    case ChainedLine => InChain
    case UnchainedLine =>
      if !ChainedAfter(classes, i) then Uncovered
      else if ChainedBefore(classes, i) then BetweenChained
      else InLegacyPrefix
  }

  function Covers(classes: seq<LineClass>): (covers: seq<Cover>)
    ensures |covers| == |classes|
  {
    seq(|classes|, i requires 0 <= i < |classes| => CoverOf(classes, i))
  }

  lemma CoversAt(classes: seq<LineClass>)
    ensures forall i | 0 <= i < |classes| :: Covers(classes)[i] == CoverOf(classes, i)
  {
    hide CoverOf;
  }

  function Count(covers: seq<Cover>, cover: Cover): nat {
    if covers == [] then 0
    else Count(covers[..|covers| - 1], cover) + (if covers[|covers| - 1] == cover then 1 else 0)
  }

  function Replace(covers: seq<Cover>, from: Cover, to: Cover): (r: seq<Cover>)
    ensures |r| == |covers|
    ensures forall i | 0 <= i < |r| :: r[i] == if covers[i] == from then to else covers[i]
  {
    seq(|covers|, i requires 0 <= i < |covers| => if covers[i] == from then to else covers[i])
  }

  lemma CountSnoc(covers: seq<Cover>, last: Cover, cover: Cover)
    ensures Count(covers + [last], cover) == Count(covers, cover) + (if last == cover then 1 else 0)
  {
    assert (covers + [last])[..|covers|] == covers;
  }

  lemma {:induction false} CountReplaced(covers: seq<Cover>, from: Cover, to: Cover, cover: Cover)
    requires from != to
    ensures Count(Replace(covers, from, to), cover) ==
            if cover == to then Count(covers, to) + Count(covers, from)
            else if cover == from then 0
            else Count(covers, cover)
  {
    if covers != [] {
      var front := covers[..|covers| - 1];
      CountReplaced(front, from, to, cover);
      assert Replace(covers, from, to)[..|covers| - 1] == Replace(front, from, to);
    }
  }

  /** A line that is not chained leaves what covers the lines before it as it was. */
  lemma CoversSnocPlain(classes: seq<LineClass>, last: LineClass)
    requires !last.ChainedLine?
    ensures Covers(classes + [last]) ==
            Covers(classes) + [if last.DamagedLine? then AsDamaged else Uncovered]
  {
    var more := classes + [last];
    CoversAt(classes);
    CoversAt(more);
    forall i | 0 <= i < |classes|
      ensures CoverOf(more, i) == CoverOf(classes, i)
    {
      SameSides(classes, last, i);
    }
  }

  lemma SameSides(classes: seq<LineClass>, last: LineClass, i: nat)
    requires i < |classes|
    ensures ChainedBefore(classes + [last], i) == ChainedBefore(classes, i)
    ensures ChainedAfter(classes + [last], i) == (ChainedAfter(classes, i) || last.ChainedLine?)
  {
    var more := classes + [last];
    if ChainedBefore(classes, i) {
      var j: nat :| j < i && j < |classes| && classes[j].ChainedLine?;
      assert more[j].ChainedLine?;
    }
    if ChainedAfter(classes, i) {
      var j: nat :| i < j < |classes| && classes[j].ChainedLine?;
      assert more[j].ChainedLine?;
    }
    if last.ChainedLine? {
      assert more[|classes|].ChainedLine?;
    }
  }

  /** A chained line commits to every line nothing committed to before it. */
  lemma CoversSnocChained(classes: seq<LineClass>)
    ensures Covers(classes + [ChainedLine]) ==
            Replace(Covers(classes), Uncovered,
                    if ChainedBefore(classes, |classes|) then BetweenChained else InLegacyPrefix) + [InChain]
  {
    var more := classes + [ChainedLine];
    CoversAt(classes);
    CoversAt(more);
    forall i | 0 <= i < |classes|
      ensures CoverOf(more, i) ==
              if CoverOf(classes, i) != Uncovered then CoverOf(classes, i)
              else if ChainedBefore(classes, |classes|) then BetweenChained else InLegacyPrefix
    {
      SameSides(classes, ChainedLine, i);
      if classes[i].UnchainedLine? && !ChainedAfter(classes, i) && ChainedBefore(classes, |classes|) {
        var j: nat :| j < |classes| && classes[j].ChainedLine?;
        assert j < i;
      }
    }
  }

  /** How every count moves when one more line is settled. */
  lemma CountsSnoc(classes: seq<LineClass>, last: LineClass, cover: Cover)
    ensures var before, after := Covers(classes), Covers(classes + [last]);
            Count(after, cover) ==
              match last
              case DamagedLine => Count(before, cover) + (if cover.AsDamaged? then 1 else 0)
              case UnchainedLine => Count(before, cover) + (if cover.Uncovered? then 1 else 0)
              case ChainedLine =>
                var committed := if ChainedBefore(classes, |classes|) then BetweenChained else InLegacyPrefix;
                if cover.Uncovered? then 0
                else Count(before, cover) + (if cover.InChain? then 1 else 0) +
                     (if cover == committed then Count(before, Uncovered) else 0)
  {
    if last.ChainedLine? {
      var committed := if ChainedBefore(classes, |classes|) then BetweenChained else InLegacyPrefix;
      CoversSnocChained(classes);
      CountReplaced(Covers(classes), Uncovered, committed, cover);
      CountSnoc(Replace(Covers(classes), Uncovered, committed), InChain, cover);
    } else {
      CoversSnocPlain(classes, last);
      CountSnoc(Covers(classes), if last.DamagedLine? then AsDamaged else Uncovered, cover);
    }
  }

  /**
   Conservation: whatever a trail holds, each of its lines is counted once.
   */
  lemma {:induction false} EachLineCountedOnce(covers: seq<Cover>)
    ensures Count(covers, InLegacyPrefix) + Count(covers, InChain) + Count(covers, BetweenChained) +
            Count(covers, Uncovered) + Count(covers, AsDamaged) == |covers|
  {
    if covers != [] {
      EachLineCountedOnce(covers[..|covers| - 1]);
    }
  }

  /** How many of the first n lines are undamaged chained records. */
  function ChainedUpTo(lines: seq<Bytes>, n: nat): nat
    requires n <= |lines|
  {
    if n == 0 then 0 else ChainedUpTo(lines, n - 1) + (if ClassOf(lines, n - 1).ChainedLine? then 1 else 0)
  }

  lemma {:induction false} InChainCounted(lines: seq<Bytes>, n: nat)
    requires n <= |lines|
    ensures Count(Covers(Classes(lines, n)), InChain) == ChainedUpTo(lines, n)
  {
    hide ClassOf, Count, Covers;
    if n == 0 {
      NothingCounted(InChain);
    } else {
      InChainCounted(lines, n - 1);
      CountsSnoc(Classes(lines, n - 1), ClassOf(lines, n - 1), InChain);
    }
  }

  lemma NothingCounted(cover: Cover)
    ensures Count(Covers([]), cover) == 0
  {
  }

  lemma {:induction false} ChainedGrows(lines: seq<Bytes>, n: nat, k: nat)
    requires n <= k <= |lines|
    ensures ChainedUpTo(lines, n) <= ChainedUpTo(lines, k)
  {
    hide ClassOf;
    if n < k {
      ChainedGrows(lines, n, k - 1);
    }
  }

  // ----- Segments -----

  /** Which of the first n lines are discontinuities that excuse the line before them. */
  function Repairs(lines: seq<Bytes>, n: nat): (repairs: seq<bool>)
    requires n <= |lines|
    ensures |repairs| == n
  {
    if n == 0 then [] else Repairs(lines, n - 1) + [Excuses(lines, n - 1)]
  }

  lemma {:induction false} RepairsAt(lines: seq<Bytes>, n: nat)
    requires n <= |lines|
    ensures forall i | 0 <= i < n :: Repairs(lines, n)[i] == Excuses(lines, i)
  {
    hide Excuses;
    if n > 0 {
      RepairsAt(lines, n - 1);
    }
  }

  /** A repair excuses a line, and no repair is ever excused. */
  predicate Apart(repairs: seq<bool>) {
    && (repairs != [] ==> !repairs[0])
    && (forall i | 0 < i < |repairs| && repairs[i] :: !repairs[i - 1])
  }

  lemma RepairsApart(lines: seq<Bytes>, n: nat)
    requires n <= |lines|
    ensures Apart(Repairs(lines, n))
  {
    RepairsAt(lines, n);
    hide MembersOf, Chained, DamageNamedBy;
  }

  /** Consecutive lines, by number, none of them damaged. */
  datatype Segment = Segment(first: nat, last: nat)

  function CloseSegment(segments: seq<Segment>, start: nat, last: int): seq<Segment> {
    if last < start then segments else segments + [Segment(start, last)]
  }

  /** The segments closed so far, and the number of the line the open one starts at. */
  datatype Cut = Cut(segments: seq<Segment>, start: nat)

  function CutAfter(repairs: seq<bool>): Cut {
    var n := |repairs|;
    if n == 0 then Cut([], 1)
    else
      var before := CutAfter(repairs[..n - 1]);
      if repairs[n - 1] then Cut(CloseSegment(before.segments, before.start, n - 2), n) else before
  }

  function Segments(repairs: seq<bool>): seq<Segment> {
    var cut := CutAfter(repairs);
    CloseSegment(cut.segments, cut.start, |repairs|)
  }

  function CountRepairs(repairs: seq<bool>): nat {
    if repairs == [] then 0
    else CountRepairs(repairs[..|repairs| - 1]) + (if repairs[|repairs| - 1] then 1 else 0)
  }

  predicate Within(segment: Segment, number: nat) { segment.first <= number <= segment.last }

  predicate InSegment(segments: seq<Segment>, number: nat) {
    exists s :: 0 <= s < |segments| && Within(segments[s], number)
  }

  /** The line of this number is excused by the repair after it. */
  predicate ExcusedNumber(repairs: seq<bool>, number: nat) { number < |repairs| && repairs[number] }

  /** The segments are in order, none empty, with exactly one line between one and the next. */
  predicate Ordered(segments: seq<Segment>) {
    && (forall s | 0 <= s < |segments| :: 1 <= segments[s].first <= segments[s].last)
    && (forall s | 0 < s < |segments| :: segments[s - 1].last + 2 == segments[s].first)
  }

  /** Of the numbers from 1 up to last, exactly those of excused lines are outside every segment. */
  ghost predicate Partition(repairs: seq<bool>, segments: seq<Segment>, last: nat) {
    && Ordered(segments)
    && (segments != [] ==> segments[|segments| - 1].last <= last)
    && (forall number: nat | 1 <= number <= last ::
          InSegment(segments, number) <==> !ExcusedNumber(repairs, number))
  }

  lemma InOneMore(segments: seq<Segment>, more: Segment, number: nat)
    ensures InSegment(segments + [more], number) <==> InSegment(segments, number) || Within(more, number)
  {
    var all := segments + [more];
    if InSegment(segments, number) {
      var s :| 0 <= s < |segments| && Within(segments[s], number);
      assert Within(all[s], number);
    }
    if Within(more, number) {
      assert Within(all[|segments|], number);
    }
  }

  lemma {:induction false} OrderedReach(segments: seq<Segment>, number: nat)
    requires Ordered(segments) && InSegment(segments, number)
    ensures number <= segments[|segments| - 1].last
  {
    var front, last := segments[..|segments| - 1], segments[|segments| - 1];
    assert segments == front + [last];
    InOneMore(front, last, number);
    if !Within(last, number) {
      OrderedReach(front, number);
    }
  }

  /** Closing the open segment at last covers the lines from where it started. */
  lemma ClosePartitions(repairs: seq<bool>, segments: seq<Segment>, start: nat, last: nat)
    requires 1 <= start <= last + 1
    requires Partition(repairs, segments, start - 1)
    requires segments != [] ==> segments[|segments| - 1].last + 2 == start
    requires forall number: nat | start <= number <= last :: !ExcusedNumber(repairs, number)
    ensures Partition(repairs, CloseSegment(segments, start, last), last)
  {
    if start <= last {
      var more := Segment(start, last);
      forall number: nat | 1 <= number <= last
        ensures InSegment(segments + [more], number) <==> !ExcusedNumber(repairs, number)
      {
        InOneMore(segments, more, number);
        if start <= number && InSegment(segments, number) {
          OrderedReach(segments, number);
        }
      }
    }
  }

  /** What is true of the cut while the lines are read. */
  ghost predicate CutHolds(repairs: seq<bool>, cut: Cut, n: nat)
    requires n <= |repairs|
  {
    && 1 <= cut.start <= n + 1
    && (cut.start == 1 || (cut.start <= n && repairs[cut.start - 1]))
    && (forall number: nat | cut.start <= number < n :: !ExcusedNumber(repairs, number))
    && (cut.segments != [] ==> cut.segments[|cut.segments| - 1].last + 2 == cut.start)
    && Partition(repairs, cut.segments, cut.start - 1)
  }

  lemma {:induction false} CutAfterHolds(repairs: seq<bool>, n: nat)
    requires n <= |repairs| && Apart(repairs)
    ensures CutHolds(repairs, CutAfter(repairs[..n]), n)
  {
    if n > 0 {
      hide Partition;
      CutAfterHolds(repairs, n - 1);
      assert repairs[..n][..n - 1] == repairs[..n - 1];
      if repairs[n - 1] {
        CutAtRepair(repairs, CutAfter(repairs[..n - 1]), n);
      }
    }
  }

  lemma CutAtRepair(repairs: seq<bool>, before: Cut, n: nat)
    requires 0 < n <= |repairs| && Apart(repairs) && repairs[n - 1]
    requires CutHolds(repairs, before, n - 1)
    ensures CutHolds(repairs, Cut(CloseSegment(before.segments, before.start, n - 2), n), n)
  {
    hide Partition;
    var closed := CloseSegment(before.segments, before.start, n - 2);
    ClosePartitions(repairs, before.segments, before.start, n - 2);
    PartitionNext(repairs, closed, n - 2);
  }

  lemma PartitionNext(repairs: seq<bool>, segments: seq<Segment>, last: nat)
    requires Partition(repairs, segments, last) && ExcusedNumber(repairs, last + 1)
    ensures Partition(repairs, segments, last + 1)
  {
    if InSegment(segments, last + 1) {
      OrderedReach(segments, last + 1);
    }
  }

  lemma RepairsPartition(repairs: seq<bool>)
    requires Apart(repairs)
    ensures Partition(repairs, Segments(repairs), |repairs|)
  {
    hide Partition, CutAfter;
    CutAfterHolds(repairs, |repairs|);
    assert repairs[..|repairs|] == repairs;
    var cut := CutAfter(repairs);
    ClosePartitions(repairs, cut.segments, cut.start, |repairs|);
  }

  /**
   The segments and the damaged lines partition the lines: each line is damaged or in a segment, and the
   segments are disjoint and in order.
   */
  lemma SegmentsPartition(lines: seq<Bytes>)
    ensures Partition(Repairs(lines, |lines|), Segments(Repairs(lines, |lines|)), |lines|)
    ensures forall i: nat | i < |lines| :: ExcusedNumber(Repairs(lines, |lines|), i + 1) == Damaged(lines, i)
  {
    hide Excuses, Partition, Segments, Apart;
    RepairsAt(lines, |lines|);
    RepairsApart(lines, |lines|);
    RepairsPartition(Repairs(lines, |lines|));
  }

  lemma DamagedSnoc(lines: seq<Bytes>, k: nat)
    requires 0 < k <= |lines|
    ensures Count(Covers(Classes(lines, k)), AsDamaged) ==
            Count(Covers(Classes(lines, k - 1)), AsDamaged) + (if Damaged(lines, k - 1) then 1 else 0)
  {
    hide Excuses, Count, Covers;
    CountsSnoc(Classes(lines, k - 1), ClassOf(lines, k - 1), AsDamaged);
  }

  lemma RepairsSnoc(lines: seq<Bytes>, n: nat)
    requires n < |lines|
    ensures Repairs(lines, n + 1) == Repairs(lines, n) + [Excuses(lines, n)]
    ensures CountRepairs(Repairs(lines, n + 1)) ==
            CountRepairs(Repairs(lines, n)) + (if Excuses(lines, n) then 1 else 0)
  {
    hide Excuses;
    assert Repairs(lines, n + 1)[..n] == Repairs(lines, n);
  }

  /** As many lines are damaged as repairs are counted, once the line after each is read. */
  lemma {:induction false} DamagedAreExcused(lines: seq<Bytes>, k: nat)
    requires k <= |lines|
    ensures Count(Covers(Classes(lines, k)), AsDamaged) ==
            CountRepairs(Repairs(lines, if k < |lines| then k + 1 else k))
  {
    if k < |lines| {
      RepairsSnoc(lines, k);
    }
    if k > 0 {
      hide Excuses, Count, Covers, Classes, CountRepairs;
      DamagedAreExcused(lines, k - 1);
      DamagedSnoc(lines, k);
    }
  }

  lemma {:induction false} RepairsPrefix(lines: seq<Bytes>, more: seq<Bytes>, n: nat)
    requires n <= |lines|
    ensures Repairs(lines + more, n) == Repairs(lines, n)
  {
    hide Excuses;
    if n > 0 {
      RepairsPrefix(lines, more, n - 1);
      ExcusesPrefix(lines, more, n - 1);
    }
  }

  lemma ClassOfPrefix(lines: seq<Bytes>, more: seq<Bytes>, i: nat)
    requires i + 1 < |lines|
    ensures ClassOf(lines + more, i) == ClassOf(lines, i)
  {
    hide Damaged, Chained;
    ExcusesPrefix(lines, more, i);
    assert (lines + more)[i] == lines[i];
  }

  lemma {:induction false} ClassesPrefix(lines: seq<Bytes>, more: seq<Bytes>, k: nat)
    requires k < |lines|
    ensures Classes(lines + more, k) == Classes(lines, k)
  {
    hide ClassOf;
    if k > 0 {
      ClassesPrefix(lines, more, k - 1);
      ClassOfPrefix(lines, more, k - 1);
    }
  }
}
