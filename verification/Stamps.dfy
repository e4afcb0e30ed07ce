/**
 The lags of a trail's time stamps: how long after the operator's own word for it each record was first attested
 to exist. The records between two stamped sequences are gathered into one interval as the trail is read, and one
 backward pass over the intervals finds when each was first covered; the result is that of taking each record by
 itself. Times are whole units of any size.
 */
module Stamps {
  import opened Octets

  /** A trusted stamp: the sequence of the checkpoint it stamps, the time it attests, and whether that matches. */
  datatype Candidate = Candidate(sequence: nat, existedBy: int, matches: bool)

  /** A settled chained record, with the operator's own time for it when it could be read. */
  datatype Record = Record(sequence: nat, at: Option<int>)

  datatype Interval = Interval(count: nat, earliest: int, latest: int, earliestSeq: nat, latestSeq: nat, unreadable: nat)

  const EMPTY: Interval := Interval(0, 0, 0, 0, 0, 0)

  /** A stamp counts for coverage when it matches and stands before the limit, 0 being no limit. */
  predicate Lends(candidate: Candidate, limit: nat) { candidate.matches && (limit == 0 || candidate.sequence < limit) }

  // ----- Each record by itself -----

  /** The earliest time that a lending stamp at or after a sequence attests, if one does. */
  function FirstCovered(candidates: seq<Candidate>, limit: nat, sequence: nat): Option<int> {
    if candidates == [] then None
    else
      var last := candidates[|candidates| - 1];
      var before := FirstCovered(candidates[..|candidates| - 1], limit, sequence);
      if Lends(last, limit) && last.sequence >= sequence && (before.None? || last.existedBy < before.value)
      then Some(last.existedBy) else before
  }

  /** How long after the operator's word for it a record was first attested, when both are known. */
  function LagOf(candidates: seq<Candidate>, limit: nat, record: Record): Option<int> {
    match (FirstCovered(candidates, limit, record.sequence), record.at)
    case (Some(covered), Some(at)) => Some(covered - at)
    case _ => None
  }

  function CountLags(candidates: seq<Candidate>, limit: nat, records: seq<Record>): nat {
    if records == [] then 0
    else
      CountLags(candidates, limit, records[..|records| - 1]) +
      (if LagOf(candidates, limit, records[|records| - 1]).Some? then 1 else 0)
  }

  /** The covered records whose own time could not be read. */
  function CountUnreadable(candidates: seq<Candidate>, limit: nat, records: seq<Record>): nat {
    if records == [] then 0
    else
      var last := records[|records| - 1];
      CountUnreadable(candidates, limit, records[..|records| - 1]) +
      (if last.at.None? && FirstCovered(candidates, limit, last.sequence).Some? then 1 else 0)
  }

  // ----- What they say -----

  /** The stamp matches, is below the limit where there is one, and stands at this sequence or past it. */
  predicate LendsTo(candidate: Candidate, limit: nat, sequence: nat) {
    candidate.matches && sequence <= candidate.sequence && (limit == 0 || candidate.sequence < limit)
  }

  /** Some stamp of these lends to the sequence. */
  predicate Lent(candidates: seq<Candidate>, limit: nat, sequence: nat) {
    exists c :: c in candidates && LendsTo(c, limit, sequence)
  }

  /** One stamp lends to the sequence at this time, and no other earlier. */
  predicate FirstAt(candidates: seq<Candidate>, limit: nat, sequence: nat, time: int) {
    && (exists c :: c in candidates && LendsTo(c, limit, sequence) && c.existedBy == time)
    && (forall c | c in candidates && LendsTo(c, limit, sequence) :: time <= c.existedBy)
  }

  lemma {:induction false} FirstCoveredIs(candidates: seq<Candidate>, limit: nat, sequence: nat)
    ensures FirstCovered(candidates, limit, sequence).Some? <==> Lent(candidates, limit, sequence)
    ensures var first := FirstCovered(candidates, limit, sequence);
            first.Some? ==> FirstAt(candidates, limit, sequence, first.value)
  {
    if candidates != [] {
      var front, last := candidates[..|candidates| - 1], candidates[|candidates| - 1];
      assert candidates == front + [last];
      FirstCoveredIs(front, limit, sequence);
      assert last in candidates;
      if FirstCovered(front, limit, sequence).Some? {
        var c :| c in front && LendsTo(c, limit, sequence) && c.existedBy == FirstCovered(front, limit, sequence).value;
        assert c in candidates;
      }
    }
  }

  /** A record has a lag when its time was read and a stamp lends to it: the time of the first that does, less its own. */
  lemma LagIs(candidates: seq<Candidate>, limit: nat, record: Record)
    ensures LagOf(candidates, limit, record).Some? <==>
            record.at.Some? && Lent(candidates, limit, record.sequence)
    ensures LagOf(candidates, limit, record).Some? ==>
              FirstAt(candidates, limit, record.sequence, LagOf(candidates, limit, record).value + record.at.value)
  {
    hide FirstCovered, Lent, FirstAt;
    FirstCoveredIs(candidates, limit, record.sequence);
  }

  /** Where among the records those stand to which a stamp lends, with or without a time of their own. */
  ghost function LentAt(candidates: seq<Candidate>, limit: nat, records: seq<Record>, read: bool): set<nat> {
    set i: nat | i < |records| && records[i].at.Some? == read && Lent(candidates, limit, records[i].sequence)
  }

  /** Each record is counted once. */
  lemma {:induction false} CountsAre(candidates: seq<Candidate>, limit: nat, records: seq<Record>)
    ensures CountLags(candidates, limit, records) == |LentAt(candidates, limit, records, true)|
    ensures CountUnreadable(candidates, limit, records) == |LentAt(candidates, limit, records, false)|
  {
    hide Lent, FirstAt, FirstCovered, LagOf;
    if records == [] {
      assert LentAt(candidates, limit, records, true) == {} && LentAt(candidates, limit, records, false) == {};
    } else {
      var n := |records| - 1;
      CountsAre(candidates, limit, records[..n]);
      LagIs(candidates, limit, records[n]);
      FirstCoveredIs(candidates, limit, records[n].sequence);
      LentOneMore(candidates, limit, records, true);
      LentOneMore(candidates, limit, records, false);
    }
  }

  lemma LentOneMore(candidates: seq<Candidate>, limit: nat, records: seq<Record>, read: bool)
    requires records != []
    ensures var n := |records| - 1;
            |LentAt(candidates, limit, records, read)| ==
            |LentAt(candidates, limit, records[..n], read)| +
            (if records[n].at.Some? == read && Lent(candidates, limit, records[n].sequence) then 1 else 0)
  {
    hide Lent;
    var n := |records| - 1;
    OnePlaceMore(LentAt(candidates, limit, records[..n], read), LentAt(candidates, limit, records, read), n,
                 records[n].at.Some? == read && Lent(candidates, limit, records[n].sequence));
  }

  /** What is reported of the lags. */
  datatype Lag = Lag(records: nat, atUnreadable: nat, longest: int, maxSequence: nat, shortest: int, minSequence: nat)

  /** A record with this sequence has this lag. */
  predicate Attains(candidates: seq<Candidate>, limit: nat, records: seq<Record>, sequence: nat, lag: int) {
    exists r :: r in records && r.sequence == sequence && LagOf(candidates, limit, r) == Some(lag)
  }

  predicate AllWithin(candidates: seq<Candidate>, limit: nat, records: seq<Record>, shortest: int, longest: int) {
    forall r | r in records && LagOf(candidates, limit, r).Some? :: shortest <= LagOf(candidates, limit, r).value <= longest
  }

  /** The lags as each record by itself gives them: the longest and the shortest are attained where it is said. */
  ghost predicate IsLag(candidates: seq<Candidate>, limit: nat, records: seq<Record>, lag: Lag) {
    && lag.records == CountLags(candidates, limit, records)
    && lag.atUnreadable == CountUnreadable(candidates, limit, records)
    && (lag.records > 0 ==>
          && Attains(candidates, limit, records, lag.maxSequence, lag.longest)
          && Attains(candidates, limit, records, lag.minSequence, lag.shortest)
          && AllWithin(candidates, limit, records, lag.shortest, lag.longest))
  }

  // ----- Intervals -----

  ghost predicate Ascending(sequences: seq<nat>) { forall i, j | 0 <= i < j < |sequences| :: sequences[i] < sequences[j] }

  /** Where the first of these at or after a sequence is, or how many there are. */
  function IndexOf(sequences: seq<nat>, sequence: nat): (index: nat)
    ensures index <= |sequences|
  {
    if sequences == [] || sequences[0] >= sequence then 0 else 1 + IndexOf(sequences[1..], sequence)
  }

  lemma {:induction false} IndexIs(sequences: seq<nat>, sequence: nat)
    requires Ascending(sequences)
    ensures var index := IndexOf(sequences, sequence);
            && (forall i | 0 <= i < index :: sequences[i] < sequence)
            && (forall i | index <= i < |sequences| :: sequences[i] >= sequence)
  {
    if sequences != [] && sequences[0] < sequence {
      IndexIs(sequences[1..], sequence);
      forall i | 0 <= i < |sequences|
        ensures i < IndexOf(sequences, sequence) ==> sequences[i] < sequence
        ensures i >= IndexOf(sequences, sequence) ==> sequences[i] >= sequence
      {
        if i > 0 {
          assert sequences[i] == sequences[1..][i - 1];
        }
      }
    }
  }

  /** One more record in an interval. */
  function Taken(interval: Interval, record: Record): Interval {
    match record.at
    case None => interval.(unreadable := interval.unreadable + 1)
    case Some(at) =>
      var early := if interval.count == 0 || at < interval.earliest
                   then interval.(earliest := at, earliestSeq := record.sequence) else interval;
      var late := if interval.count == 0 || at > interval.latest
                  then early.(latest := at, latestSeq := record.sequence) else early;
      late.(count := interval.count + 1)
  }

  /** What the interval at an index gathers of these records. */
  function Gathered(sequences: seq<nat>, records: seq<Record>, index: nat): Interval {
    if records == [] then EMPTY
    else
      var last := records[|records| - 1];
      var before := Gathered(sequences, records[..|records| - 1], index);
      if IndexOf(sequences, last.sequence) == index then Taken(before, last) else before
  }

  /** A record of the interval with this sequence and this time of its own. */
  predicate Holds(sequences: seq<nat>, records: seq<Record>, index: nat, sequence: nat, at: int) {
    exists r :: r in records && IndexOf(sequences, r.sequence) == index && r.sequence == sequence && r.at == Some(at)
  }

  predicate AllBetween(sequences: seq<nat>, records: seq<Record>, index: nat, earliest: int, latest: int) {
    forall r | r in records && IndexOf(sequences, r.sequence) == index && r.at.Some? :: earliest <= r.at.value <= latest
  }

  predicate NoneReadable(sequences: seq<nat>, records: seq<Record>, index: nat) {
    forall r | r in records && IndexOf(sequences, r.sequence) == index :: r.at.None?
  }

  /** An interval's earliest and latest times are those of its records. */
  lemma {:induction false} GatheredIs(sequences: seq<nat>, records: seq<Record>, index: nat)
    ensures var g := Gathered(sequences, records, index);
            if g.count == 0 then NoneReadable(sequences, records, index)
            else
              && Holds(sequences, records, index, g.earliestSeq, g.earliest)
              && Holds(sequences, records, index, g.latestSeq, g.latest)
              && AllBetween(sequences, records, index, g.earliest, g.latest)
  {
    hide IndexOf;
    if records != [] {
      var front, last := records[..|records| - 1], records[|records| - 1];
      assert records == front + [last];
      GatheredIs(sequences, front, index);
      var before := Gathered(sequences, front, index);
      if before.count > 0 {
        HoldsMore(sequences, front, last, index, before.earliestSeq, before.earliest);
        HoldsMore(sequences, front, last, index, before.latestSeq, before.latest);
      }
      assert last in records;
    }
  }

  lemma HoldsMore(sequences: seq<nat>, front: seq<Record>, last: Record, index: nat, sequence: nat, at: int)
    requires Holds(sequences, front, index, sequence, at)
    ensures Holds(sequences, front + [last], index, sequence, at)
  {
    hide IndexOf;
    var r :| r in front && IndexOf(sequences, r.sequence) == index && r.sequence == sequence && r.at == Some(at);
    assert r in front + [last];
  }

  // ----- The first cover of an interval -----

  ghost predicate SequencesOf(sequences: seq<nat>, candidates: seq<Candidate>) {
    Ascending(sequences) && forall c | c in candidates :: c.sequence in sequences
  }

  /** Every record of an interval is first covered when its stamped sequence is, and a record past them all never. */
  lemma {:induction false} CoveredAlike(sequences: seq<nat>, candidates: seq<Candidate>, limit: nat, sequence: nat)
    requires SequencesOf(sequences, candidates)
    ensures var index := IndexOf(sequences, sequence);
            FirstCovered(candidates, limit, sequence) ==
            if index < |sequences| then FirstCovered(candidates, limit, sequences[index]) else None
  {
    IndexIs(sequences, sequence);
    if candidates != [] {
      var front, last := candidates[..|candidates| - 1], candidates[|candidates| - 1];
      CoveredAlike(sequences, front, limit, sequence);
      var index := IndexOf(sequences, sequence);
      assert last.sequence in sequences;
      var j :| 0 <= j < |sequences| && sequences[j] == last.sequence;
      assert j >= index <==> last.sequence >= sequence;
    }
  }

  function Earlier(a: Option<int>, b: Option<int>): Option<int> {
    if a.None? then b else if b.None? || a.value <= b.value then a else b
  }

  /** The earliest time that a lending stamp at exactly a sequence attests. */
  function CoveredAt(candidates: seq<Candidate>, limit: nat, sequence: nat): Option<int> {
    if candidates == [] then None
    else
      var last := candidates[|candidates| - 1];
      var before := CoveredAt(candidates[..|candidates| - 1], limit, sequence);
      if Lends(last, limit) && last.sequence == sequence then Earlier(before, Some(last.existedBy)) else before
  }

  lemma EarlierAgain(from: Option<int>, before: Option<int>, time: int)
    ensures Earlier(from, Earlier(before, Some(time))) ==
            if Earlier(from, before).None? || time < Earlier(from, before).value then Some(time) else Earlier(from, before)
  {
  }

  lemma CoveredAtSnoc(candidates: seq<Candidate>, limit: nat, sequence: nat, i: nat)
    requires i < |candidates|
    ensures CoveredAt(candidates[..i + 1], limit, sequence) ==
            if Lends(candidates[i], limit) && candidates[i].sequence == sequence
            then Earlier(CoveredAt(candidates[..i], limit, sequence), Some(candidates[i].existedBy))
            else CoveredAt(candidates[..i], limit, sequence)
  {
    assert candidates[..i + 1][..i] == candidates[..i];
  }

  /** The cover of a stamped sequence is its own stamps' or the cover of the next one. */
  lemma {:induction false} CoverBack(sequences: seq<nat>, candidates: seq<Candidate>, limit: nat, index: nat)
    requires SequencesOf(sequences, candidates) && index < |sequences|
    ensures FirstCovered(candidates, limit, sequences[index]) ==
            Earlier(if index + 1 < |sequences| then FirstCovered(candidates, limit, sequences[index + 1]) else None,
                    CoveredAt(candidates, limit, sequences[index]))
  {
    if candidates != [] {
      var front, last := candidates[..|candidates| - 1], candidates[|candidates| - 1];
      CoverBack(sequences, front, limit, index);
      assert last.sequence in sequences;
      var j :| 0 <= j < |sequences| && sequences[j] == last.sequence;
      assert last.sequence >= sequences[index] <==> j >= index;
      assert last.sequence == sequences[index] <==> j == index;
      if index + 1 < |sequences| {
        assert last.sequence >= sequences[index + 1] <==> j >= index + 1;
      }
    }
  }

  // ----- Intervals before an index -----

  function CountBelow(sequences: seq<nat>, candidates: seq<Candidate>, limit: nat, records: seq<Record>, index: nat): nat {
    if records == [] then 0
    else
      var last := records[|records| - 1];
      CountBelow(sequences, candidates, limit, records[..|records| - 1], index) +
      (if IndexOf(sequences, last.sequence) < index && LagOf(candidates, limit, last).Some? then 1 else 0)
  }

  function UnreadableBelow(sequences: seq<nat>, candidates: seq<Candidate>, limit: nat, records: seq<Record>,
                           index: nat): nat
  {
    if records == [] then 0
    else
      var last := records[|records| - 1];
      UnreadableBelow(sequences, candidates, limit, records[..|records| - 1], index) +
      (if IndexOf(sequences, last.sequence) < index && last.at.None? &&
          FirstCovered(candidates, limit, last.sequence).Some? then 1 else 0)
  }

  predicate WithinBelow(sequences: seq<nat>, candidates: seq<Candidate>, limit: nat, records: seq<Record>, index: nat,
                        shortest: int, longest: int)
  {
    forall r | r in records && IndexOf(sequences, r.sequence) < index && LagOf(candidates, limit, r).Some? ::
      shortest <= LagOf(candidates, limit, r).value <= longest
  }

  /** The lags of the records before an index, as the intervals before it give them. */
  ghost predicate LagBelow(sequences: seq<nat>, candidates: seq<Candidate>, limit: nat, records: seq<Record>,
                           index: nat, lag: Lag)
  {
    && lag.records == CountBelow(sequences, candidates, limit, records, index)
    && lag.atUnreadable == UnreadableBelow(sequences, candidates, limit, records, index)
    && (lag.records > 0 ==>
          && Attains(candidates, limit, records, lag.maxSequence, lag.longest)
          && Attains(candidates, limit, records, lag.minSequence, lag.shortest))
    && (if lag.records == 0 then NoneBelow(sequences, candidates, limit, records, index)
        else WithinBelow(sequences, candidates, limit, records, index, lag.shortest, lag.longest))
  }

  predicate NoneBelow(sequences: seq<nat>, candidates: seq<Candidate>, limit: nat, records: seq<Record>, index: nat) {
    forall r | r in records && IndexOf(sequences, r.sequence) < index :: LagOf(candidates, limit, r).None?
  }

  lemma {:induction false} NothingBelow(sequences: seq<nat>, candidates: seq<Candidate>, limit: nat, records: seq<Record>)
    ensures LagBelow(sequences, candidates, limit, records, 0, Lag(0, 0, 0, 0, 0, 0))
  {
    hide FirstCovered, LagOf, IndexOf;
    if records != [] {
      NothingBelow(sequences, candidates, limit, records[..|records| - 1]);
    }
  }

  /** One more interval counts its records, when it is covered at all. */
  lemma {:induction false} CountNext(sequences: seq<nat>, candidates: seq<Candidate>, limit: nat, records: seq<Record>,
                                     index: nat)
    requires SequencesOf(sequences, candidates) && index < |sequences|
    ensures var g, covered := Gathered(sequences, records, index), FirstCovered(candidates, limit, sequences[index]).Some?;
            && CountBelow(sequences, candidates, limit, records, index + 1) ==
               CountBelow(sequences, candidates, limit, records, index) + (if covered then g.count else 0)
            && UnreadableBelow(sequences, candidates, limit, records, index + 1) ==
               UnreadableBelow(sequences, candidates, limit, records, index) + (if covered then g.unreadable else 0)
  {
    hide FirstCovered, IndexOf, SequencesOf;
    if records != [] {
      var last := records[|records| - 1];
      CountNext(sequences, candidates, limit, records[..|records| - 1], index);
      CoveredAlike(sequences, candidates, limit, last.sequence);
    }
  }

  lemma {:induction false} CountWhole(sequences: seq<nat>, candidates: seq<Candidate>, limit: nat, records: seq<Record>)
    requires SequencesOf(sequences, candidates)
    ensures CountBelow(sequences, candidates, limit, records, |sequences|) == CountLags(candidates, limit, records)
    ensures UnreadableBelow(sequences, candidates, limit, records, |sequences|) == CountUnreadable(candidates, limit, records)
  {
    hide FirstCovered, IndexOf, SequencesOf;
    if records != [] {
      CountWhole(sequences, candidates, limit, records[..|records| - 1]);
      CoveredAlike(sequences, candidates, limit, records[|records| - 1].sequence);
    }
  }

  /** What one covered interval adds to the lags. */
  function WithInterval(lag: Lag, covered: int, interval: Interval): Lag {
    var read := lag.(atUnreadable := lag.atUnreadable + interval.unreadable);
    if interval.count == 0 then read
    else
      var most, least := covered - interval.earliest, covered - interval.latest;
      var long := if lag.records == 0 || most > lag.longest
                  then read.(longest := most, maxSequence := interval.earliestSeq) else read;
      var short := if lag.records == 0 || least < lag.shortest
                   then long.(shortest := least, minSequence := interval.latestSeq) else long;
      short.(records := lag.records + interval.count)
  }

  lemma AttainsIn(sequences: seq<nat>, candidates: seq<Candidate>, limit: nat, records: seq<Record>, index: nat,
                  sequence: nat, at: int)
    requires SequencesOf(sequences, candidates) && index < |sequences| && Holds(sequences, records, index, sequence, at)
    requires FirstCovered(candidates, limit, sequences[index]).Some?
    ensures Attains(candidates, limit, records, sequence, FirstCovered(candidates, limit, sequences[index]).value - at)
  {
    hide FirstCovered, IndexOf, SequencesOf;
    var r :| r in records && IndexOf(sequences, r.sequence) == index && r.sequence == sequence && r.at == Some(at);
    CoveredAlike(sequences, candidates, limit, r.sequence);
    assert LagOf(candidates, limit, r) == Some(FirstCovered(candidates, limit, sequences[index]).value - at);
  }

  /** The lags of an interval's records are between those its latest and earliest times give. */
  lemma LagsIn(sequences: seq<nat>, candidates: seq<Candidate>, limit: nat, records: seq<Record>, index: nat, r: Record)
    requires SequencesOf(sequences, candidates) && index < |sequences|
    requires r in records && IndexOf(sequences, r.sequence) == index && LagOf(candidates, limit, r).Some?
    ensures var g := Gathered(sequences, records, index);
            && g.count > 0 && FirstCovered(candidates, limit, sequences[index]).Some?
            && var covered := FirstCovered(candidates, limit, sequences[index]).value;
               covered - g.latest <= LagOf(candidates, limit, r).value <= covered - g.earliest
  {
    hide FirstCovered, IndexOf, SequencesOf, Gathered, Holds;
    CoveredAlike(sequences, candidates, limit, r.sequence);
    GatheredIs(sequences, records, index);
  }

  lemma LagNext(sequences: seq<nat>, candidates: seq<Candidate>, limit: nat, records: seq<Record>, index: nat, lag: Lag)
    requires SequencesOf(sequences, candidates) && index < |sequences|
    requires LagBelow(sequences, candidates, limit, records, index, lag)
    ensures var covered := FirstCovered(candidates, limit, sequences[index]);
            LagBelow(sequences, candidates, limit, records, index + 1,
                     if covered.None? then lag else WithInterval(lag, covered.value, Gathered(sequences, records, index)))
  {
    hide FirstCovered, IndexOf, SequencesOf, Gathered, Holds, Attains, CountBelow, UnreadableBelow, LagOf, AllBetween,
         NoneReadable;
    var covered, g := FirstCovered(candidates, limit, sequences[index]), Gathered(sequences, records, index);
    CountNext(sequences, candidates, limit, records, index);
    GatheredIs(sequences, records, index);
    if covered.Some? && g.count > 0 {
      AttainsIn(sequences, candidates, limit, records, index, g.earliestSeq, g.earliest);
      AttainsIn(sequences, candidates, limit, records, index, g.latestSeq, g.latest);
    }
    forall r | r in records && IndexOf(sequences, r.sequence) == index && LagOf(candidates, limit, r).Some?
      ensures g.count > 0 && covered.Some?
      ensures covered.value - g.latest <= LagOf(candidates, limit, r).value <= covered.value - g.earliest
    {
      LagsIn(sequences, candidates, limit, records, index, r);
    }
  }

  /** Once every interval is taken, the lags are those of each record by itself. */
  lemma LagWhole(sequences: seq<nat>, candidates: seq<Candidate>, limit: nat, records: seq<Record>, lag: Lag)
    requires SequencesOf(sequences, candidates) && LagBelow(sequences, candidates, limit, records, |sequences|, lag)
    ensures IsLag(candidates, limit, records, lag)
  {
    hide FirstCovered, IndexOf, SequencesOf, Attains, CountBelow, UnreadableBelow, CountLags, CountUnreadable;
    CountWhole(sequences, candidates, limit, records);
    forall r | r in records && LagOf(candidates, limit, r).Some?
      ensures IndexOf(sequences, r.sequence) < |sequences|
    {
      CoveredAlike(sequences, candidates, limit, r.sequence);
    }
  }

  // ----- The checker -----

  class StampChecker {
    /** Ascending; interval i is of the sequences above entry i - 1, up to entry i. */
    const sequences: seq<nat>
    const intervals: array<Interval>

    /** The records settled so far. */
    ghost var settled: seq<Record>

    constructor (sequences: seq<nat>)
      requires Ascending(sequences)
      ensures this.sequences == sequences && settled == [] && Valid() && fresh(intervals)
    {
      this.sequences := sequences;
      intervals := new Interval[|sequences|](_ => EMPTY);
      settled := [];
    }

    ghost predicate Valid()
      reads this, intervals
    {
      && Ascending(sequences) && intervals.Length == |sequences|
      && forall i | 0 <= i < intervals.Length :: intervals[i] == Gathered(sequences, settled, i)
    }

    /** One record more, counted in the interval its sequence falls in, if any. */
    method Settle(record: Record)
      requires Valid()
      modifies `settled, intervals
      ensures Valid() && settled == old(settled) + [record]
    {
      hide IndexOf, Taken;
      var index := IndexOf(sequences, record.sequence);
      settled := settled + [record];
      assert settled[..|settled| - 1] == old(settled);
      if index == |sequences| {
        return;
      }
      intervals[index] := Taken(intervals[index], record);
    }

    /** When each interval was first covered, found from the last one back. */
    method Covers(candidates: seq<Candidate>, limit: nat) returns (cover: array<Option<int>>)
      requires Valid() && SequencesOf(sequences, candidates)
      ensures fresh(cover) && cover.Length == |sequences|
      ensures forall i | 0 <= i < cover.Length :: cover[i] == FirstCovered(candidates, limit, sequences[i])
    {
      hide FirstCovered, CoveredAt;
      cover := new Option<int>[|sequences|](_ => None);
      var index := |sequences|;
      while index > 0
        invariant 0 <= index <= |sequences|
        invariant forall i | index <= i < cover.Length :: cover[i] == FirstCovered(candidates, limit, sequences[i])
      {
        index := index - 1;
        var earliest: Option<int> := None;
        if index + 1 < |sequences| {
          earliest := cover[index + 1];
        }
        var own := EarliestAt(candidates, limit, sequences[index], earliest);
        CoverBack(sequences, candidates, limit, index);
        cover[index] := own;
      }
    }

    /** The earlier of a time and those of the lending stamps at a sequence. */
    method EarliestAt(candidates: seq<Candidate>, limit: nat, sequence: nat, from: Option<int>) returns (earliest: Option<int>)
      ensures earliest == Earlier(from, CoveredAt(candidates, limit, sequence))
    {
      earliest := from;
      assert candidates[..0] == [];
      var i := 0;
      while i < |candidates|
        invariant 0 <= i <= |candidates|
        invariant earliest == Earlier(from, CoveredAt(candidates[..i], limit, sequence))
      {
        CoveredAtSnoc(candidates, limit, sequence, i);
        EarlierAgain(from, CoveredAt(candidates[..i], limit, sequence), candidates[i].existedBy);
        if Lends(candidates[i], limit) && candidates[i].sequence == sequence &&
           (earliest.None? || candidates[i].existedBy < earliest.value)
        {
          earliest := Some(candidates[i].existedBy);
        }
        i := i + 1;
      }
      assert candidates[..i] == candidates;
    }

    /**
     How long after the operator's word for them the covered records were first attested: as many as there are,
     with the longest and the shortest attained where it says, as taking each record by itself gives.
     */
    method Coverage(candidates: seq<Candidate>, limit: nat) returns (lag: Lag)
      requires Valid() && SequencesOf(sequences, candidates)
      ensures IsLag(candidates, limit, settled, lag)
    {
      hide FirstCovered, LagBelow, IsLag, SequencesOf;
      var cover := Covers(candidates, limit);
      lag := Lag(0, 0, 0, 0, 0, 0);
      NothingBelow(sequences, candidates, limit, settled);
      var index := 0;
      while index < intervals.Length
        invariant 0 <= index <= intervals.Length && Valid()
        invariant forall i | 0 <= i < cover.Length :: cover[i] == FirstCovered(candidates, limit, sequences[i])
        invariant LagBelow(sequences, candidates, limit, settled, index, lag)
      {
        LagNext(sequences, candidates, limit, settled, index, lag);
        if cover[index].Some? {
          lag := AddInterval(lag, cover[index].value, intervals[index]);
        }
        index := index + 1;
      }
      LagWhole(sequences, candidates, limit, settled, lag);
    }

    /** Adds one covered interval to the lags. */
    method AddInterval(before: Lag, covered: int, interval: Interval) returns (lag: Lag)
      ensures lag == WithInterval(before, covered, interval)
    {
      lag := before.(atUnreadable := before.atUnreadable + interval.unreadable);
      if interval.count == 0 {
        return;
      }
      var most, least := covered - interval.earliest, covered - interval.latest;
      if lag.records == 0 || most > lag.longest {
        lag := lag.(longest := most, maxSequence := interval.earliestSeq);
      }
      if lag.records == 0 || least < lag.shortest {
        lag := lag.(shortest := least, minSequence := interval.latestSeq);
      }
      lag := lag.(records := lag.records + interval.count);
    }
  }

  // ----- The stamped sequences -----

  /** In its place among these, unless it is there. */
  function Inserted(sequences: seq<nat>, sequence: nat): seq<nat> {
    if sequences == [] || sequences[|sequences| - 1] < sequence then sequences + [sequence]
    else if sequences[|sequences| - 1] == sequence then sequences
    else Inserted(sequences[..|sequences| - 1], sequence) + [sequences[|sequences| - 1]]
  }

  lemma {:induction false} InsertedHas(sequences: seq<nat>, sequence: nat)
    ensures forall n :: n in Inserted(sequences, sequence) <==> n in sequences || n == sequence
  {
    if sequences != [] && sequences[|sequences| - 1] > sequence {
      var front, last := sequences[..|sequences| - 1], sequences[|sequences| - 1];
      assert sequences == front + [last];
      InsertedHas(front, sequence);
    }
  }

  lemma {:induction false} InsertedAscends(sequences: seq<nat>, sequence: nat)
    requires Ascending(sequences)
    ensures Ascending(Inserted(sequences, sequence))
  {
    if sequences != [] && sequences[|sequences| - 1] > sequence {
      var front, last := sequences[..|sequences| - 1], sequences[|sequences| - 1];
      InsertedAscends(front, sequence);
      InsertedHas(front, sequence);
      var more := Inserted(front, sequence);
      forall i | 0 <= i < |more|
        ensures more[i] < last
      {
        assert more[i] in more;
      }
      assert Inserted(sequences, sequence) == more + [last];
    }
  }

  /** The candidates' sequences, sorted, each once. */
  method StampedSequences(candidates: seq<Candidate>) returns (sequences: seq<nat>)
    ensures SequencesOf(sequences, candidates)
    ensures forall n | n in sequences :: exists c :: c in candidates && c.sequence == n
  {
    sequences := [];
    var i := 0;
    while i < |candidates|
      invariant 0 <= i <= |candidates| && Ascending(sequences)
      invariant forall j | 0 <= j < i :: candidates[j].sequence in sequences
      invariant forall n | n in sequences :: exists c :: c in candidates && c.sequence == n
    {
      InsertedHas(sequences, candidates[i].sequence);
      InsertedAscends(sequences, candidates[i].sequence);
      assert candidates[i] in candidates;
      sequences := Inserted(sequences, candidates[i].sequence);
      i := i + 1;
    }
  }

  /** The highest sequence of a stamp that lends its time. */
  method Through(candidates: seq<Candidate>, limit: nat) returns (through: nat)
    ensures forall c | c in candidates && Lends(c, limit) :: c.sequence <= through
    ensures through > 0 ==> exists c :: c in candidates && Lends(c, limit) && c.sequence == through
  {
    through := 0;
    var i := 0;
    while i < |candidates|
      invariant 0 <= i <= |candidates|
      invariant forall j | 0 <= j < i && Lends(candidates[j], limit) :: candidates[j].sequence <= through
      invariant through > 0 ==> exists c :: c in candidates && Lends(c, limit) && c.sequence == through
    {
      if candidates[i].matches && candidates[i].sequence > through && Lends(candidates[i], limit) {
        assert candidates[i] in candidates;
        through := candidates[i].sequence;
      }
      i := i + 1;
    }
  }

  lemma AscendingOf(sequences: seq<nat>, candidates: seq<Candidate>)
    requires SequencesOf(sequences, candidates)
    ensures Ascending(sequences)
  {
  }

  /** The records that have a lag are those up to this sequence whose own time could be read. */
  ghost predicate LagsUpTo(candidates: seq<Candidate>, limit: nat, records: seq<Record>, through: nat) {
    forall r | r in records :: LagOf(candidates, limit, r).Some? <==> r.at.Some? && r.sequence <= through
  }

  lemma {:induction false} CoveredIs(candidates: seq<Candidate>, limit: nat, sequence: nat)
    ensures FirstCovered(candidates, limit, sequence).Some? <==>
            exists c :: c in candidates && Lends(c, limit) && c.sequence >= sequence
  {
    if candidates != [] {
      var front, last := candidates[..|candidates| - 1], candidates[|candidates| - 1];
      assert candidates == front + [last];
      CoveredIs(front, limit, sequence);
      assert forall c :: c in candidates <==> c in front || c == last;
    }
  }

  /** The highest stamp that lends its time is how far the records have a lag. */
  lemma LagsUpToHighest(candidates: seq<Candidate>, limit: nat, records: seq<Record>, through: nat)
    requires forall c | c in candidates && Lends(c, limit) :: c.sequence <= through
    requires through > 0 ==> exists c :: c in candidates && Lends(c, limit) && c.sequence == through
    requires forall r | r in records :: r.sequence > 0
    ensures LagsUpTo(candidates, limit, records, through)
  {
    hide Lends;
    forall r | r in records
      ensures LagOf(candidates, limit, r).Some? <==> r.at.Some? && r.sequence <= through
    {
      CoveredIs(candidates, limit, r.sequence);
    }
  }
}
