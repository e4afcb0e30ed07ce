/**
 The checkpoints of a trail's records, listed a bounded number at a time after a sequence. Asked again after the last
 one listed until nothing more follows, the listings give every undamaged chained record's checkpoint once, in order.
 */
module Listings {
  import opened Octets
  import opened Chain
  import opened Checkpoints

  /** At most so many checkpoints, of the records after this sequence. */
  datatype ListRequest = ListRequest(after: nat, limit: nat)

  /** What was listed, and whether more would have been. */
  datatype CheckpointList = CheckpointList(listed: seq<Checkpoint>, more: bool)

  /** The checkpoints of the undamaged chained lines past this number, among the first n. */
  function CheckpointsAfter(h: Hash, lines: seq<Bytes>, after: nat, n: nat): seq<Checkpoint>
    requires n <= |lines|
  {
    if n == 0 then []
    else
      CheckpointsAfter(h, lines, after, n - 1)
      + if n > after && Chained(lines[n - 1]) && !Damaged(lines, n - 1) then [CheckpointOf(h, lines, n - 1)] else []
  }

  function ListedOf(h: Hash, asked: Option<ListRequest>, lines: seq<Bytes>, n: nat): CheckpointList
    requires n <= |lines|
  {
    match asked
    case None => CheckpointList([], false)
    case Some(request) =>
      var all := CheckpointsAfter(h, lines, request.after, n);
      CheckpointList(First(request.limit, all), |all| > request.limit)
  }

  /** One record more: listed while there is room, and known to follow once there is none. */
  function OneMoreListed(asked: Option<ListRequest>, list: CheckpointList, c: Checkpoint): CheckpointList {
    if asked.None? || c.sequence <= asked.value.after then list
    else if |list.listed| < asked.value.limit then list.(listed := list.listed + [c])
    else list.(more := true)
  }

  lemma ListedSnoc(h: Hash, asked: Option<ListRequest>, lines: seq<Bytes>, k: nat)
    requires k < |lines|
    ensures ListedOf(h, asked, lines, k + 1) ==
            if Chained(lines[k]) && !Damaged(lines, k)
            then OneMoreListed(asked, ListedOf(h, asked, lines, k), CheckpointOf(h, lines, k))
            else ListedOf(h, asked, lines, k)
  {
    hide LinkOf, Damaged, DigestOf;
  }

  lemma {:induction false} AfterPrefix(h: Hash, lines: seq<Bytes>, more: seq<Bytes>, after: nat, n: nat)
    requires n < |lines|
    ensures CheckpointsAfter(h, lines + more, after, n) == CheckpointsAfter(h, lines, after, n)
  {
    hide LinkOf, Excuses, DigestOf;
    if n > 0 {
      AfterPrefix(h, lines, more, after, n - 1);
      ExcusesPrefix(lines, more, n - 1);
      ExcusesPrefix(lines, more, n);
      assert (lines + more)[n - 1] == lines[n - 1];
    }
  }

  /** What is listed of settled lines stays as it is when one more line is read. */
  lemma ListedKeeps(h: Hash, asked: Option<ListRequest>, lines: seq<Bytes>, text: Bytes)
    ensures var k := if lines == [] then 0 else |lines| - 1;
            ListedOf(h, asked, lines + [text], k) == ListedOf(h, asked, lines, k)
  {
    hide CheckpointsAfter;
    if asked.Some? {
      if lines == [] {
        NothingAfter(h, lines + [text], asked.value.after);
        NothingAfter(h, lines, asked.value.after);
      } else {
        AfterPrefix(h, lines, [text], asked.value.after, |lines| - 1);
      }
    }
  }

  lemma NothingAfter(h: Hash, lines: seq<Bytes>, after: nat)
    ensures CheckpointsAfter(h, lines, after, 0) == []
  {
  }

  // ----- Listing all of them -----

  ghost predicate Ascending(list: seq<Checkpoint>) {
    forall i, j | 0 <= i < j < |list| :: list[i].sequence < list[j].sequence
  }

  /** They are the checkpoints that the trail matches in this range, in order. */
  lemma {:induction false} CheckpointsAre(h: Hash, lines: seq<Bytes>, after: nat, n: nat)
    requires n <= |lines|
    ensures var all := CheckpointsAfter(h, lines, after, n);
            Ascending(all) && forall c: Checkpoint :: c in all <==> Matches(h, lines, c) && after < c.sequence <= n
  {
    hide HoldCheckpoint, LinkOf, Damaged, DigestOf;
    if n > 0 {
      CheckpointsAre(h, lines, after, n - 1);
      var before := CheckpointsAfter(h, lines, after, n - 1);
      forall i | 0 <= i < |before|
        ensures before[i].sequence < n
      {
        assert before[i] in before;
      }
      forall c: Checkpoint | c.sequence == n
        ensures Matches(h, lines, c) <==>
                Chained(lines[n - 1]) && !Damaged(lines, n - 1) && c == CheckpointOf(h, lines, n - 1)
      {
        MatchesOwnLine(h, lines, c);
      }
    }
  }

  lemma {:induction false} NoneAfterEnd(h: Hash, lines: seq<Bytes>, after: nat, n: nat)
    requires n <= |lines| && n <= after
    ensures CheckpointsAfter(h, lines, after, n) == []
  {
    if n > 0 {
      NoneAfterEnd(h, lines, after, n - 1);
    }
  }

  /** After any one of them stand exactly those that follow it. */
  lemma {:induction false} AfterOne(h: Hash, lines: seq<Bytes>, after: nat, n: nat, i: nat)
    requires n <= |lines| && i < |CheckpointsAfter(h, lines, after, n)|
    ensures var all := CheckpointsAfter(h, lines, after, n);
            after < all[i].sequence <= n && CheckpointsAfter(h, lines, all[i].sequence, n) == all[i + 1..]
  {
    hide LinkOf, Damaged, DigestOf;
    if n > 0 {
      var before := CheckpointsAfter(h, lines, after, n - 1);
      if i < |before| {
        AfterOne(h, lines, after, n - 1, i);
      } else {
        NoneAfterEnd(h, lines, n, n);
      }
    }
  }

  /** What listing comes to: after this sequence, and again after the last one listed for as long as more follow. */
  ghost function Listings(h: Hash, lines: seq<Bytes>, after: nat, limit: nat): seq<Checkpoint>
    requires limit > 0
    decreases if after <= |lines| then |lines| - after else 0
  {
    var list := ListedOf(h, Some(ListRequest(after, limit)), lines, |lines|);
    if !list.more then list.listed
    else
      AfterOne(h, lines, after, |lines|, limit - 1);
      list.listed + Listings(h, lines, list.listed[limit - 1].sequence, limit)
  }

  /** However many are listed at a time, every checkpoint after the sequence first asked for is listed once, in order. */
  lemma {:induction false} AllListed(h: Hash, lines: seq<Bytes>, after: nat, limit: nat)
    requires limit > 0
    ensures Listings(h, lines, after, limit) == CheckpointsAfter(h, lines, after, |lines|)
    decreases if after <= |lines| then |lines| - after else 0
  {
    hide CheckpointsAfter;
    var all := CheckpointsAfter(h, lines, after, |lines|);
    if |all| > limit {
      AfterOne(h, lines, after, |lines|, limit - 1);
      AllListed(h, lines, all[limit - 1].sequence, limit);
      assert all == all[..limit] + all[limit..];
    }
  }
}
