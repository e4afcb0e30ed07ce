/**
 A trail's records of one pack or graph, read backward a bounded window at a time. Where every line fits the window,
 and only there, following the offset each page answers comes to the trail's start: by then every record that matches is
 listed once, newest first, and every line that cannot be read is counted once.
 */
module History {
  import opened Octets
  import opened Reading

  /** How much of the trail one page reads, and how many records it lists. */
  const HISTORY_READ: nat := 4194304
  const HISTORY_PAGE: nat := 50

  /** The longest source whose offsets every JSON reader holds exactly. */
  const MAX_HISTORY_SOURCE: nat := 9007199254740990

  datatype LineKind = Matching | Other | CannotRead

  /** How a line is read for a request: by its members, which is a decoder's answer. */
  type Request = Bytes -> LineKind

  function KindOf(request: Request, line: Bytes): LineKind { if line == [] then CannotRead else request(line) }

  datatype Page = Page(records: seq<Bytes>, unread: nat, next: Option<nat>)

  datatype Answer = Answered(page: Page) | SourceLimit | BeforeBeyond | RecordTooLong

  // ----- What the pages come to -----

  /** The lines that match, newest first. */
  function Listed(request: Request, lines: seq<Bytes>): seq<Bytes> {
    if lines == [] then []
    else
      var first := Listed(request, lines[1..]);
      if KindOf(request, lines[0]).Matching? then first + [lines[0]] else first
  }

  /** How many lines cannot be read. */
  function Unread(request: Request, lines: seq<Bytes>): nat {
    if lines == [] then 0
    else Unread(request, lines[1..]) + (if KindOf(request, lines[0]).CannotRead? then 1 else 0)
  }

  lemma {:induction false} ListedConcat(request: Request, a: seq<Bytes>, b: seq<Bytes>)
    ensures Listed(request, a + b) == Listed(request, b) + Listed(request, a)
    ensures Unread(request, a + b) == Unread(request, b) + Unread(request, a)
  {
    hide KindOf;
    if a == [] {
      assert a + b == b;
      assert Listed(request, b) + [] == Listed(request, b);
    } else {
      ListedConcat(request, a[1..], b);
      assert (a + b)[1..] == a[1..] + b;
      assert (a + b)[0] == a[0];
    }
  }

  lemma OneMoreLine(request: Request, lines: seq<Bytes>, i: nat)
    requires i < |lines|
    ensures Listed(request, lines[i..]) ==
            if KindOf(request, lines[i]).Matching? then Listed(request, lines[i + 1..]) + [lines[i]]
            else Listed(request, lines[i + 1..])
    ensures Unread(request, lines[i..]) ==
            Unread(request, lines[i + 1..]) + (if KindOf(request, lines[i]).CannotRead? then 1 else 0)
    ensures |Join(lines[..i + 1])| == |Join(lines[..i])| + |lines[i]| + 1
  {
    hide KindOf, Join;
    assert lines[i..][0] == lines[i] && lines[i..][1..] == lines[i + 1..];
    assert lines[..i + 1] == lines[..i] + [lines[i]];
    JoinSnoc(lines[..i], lines[i]);
  }

  /** Where the lines from a place on stand that are read so. */
  ghost function ReadSo(request: Request, lines: seq<Bytes>, from: nat, kind: LineKind): set<nat> {
    set i: nat | from <= i < |lines| && (if lines[i] == [] then CannotRead else request(lines[i])) == kind
  }

  lemma ReadSoMore(request: Request, lines: seq<Bytes>, i: nat, kind: LineKind)
    requires i < |lines|
    ensures |ReadSo(request, lines, i, kind)| ==
            |ReadSo(request, lines, i + 1, kind)| + (if KindOf(request, lines[i]) == kind then 1 else 0)
  {
    OnePlaceMore(ReadSo(request, lines, i + 1, kind), ReadSo(request, lines, i, kind), i, KindOf(request, lines[i]) == kind);
  }

  /** A line that matches is listed behind just the later ones that do, and no other is; the unreadable are counted. */
  lemma {:induction false} ListedAre(request: Request, lines: seq<Bytes>, from: nat)
    requires from <= |lines|
    ensures var listed, matching := Listed(request, lines[from..]), ReadSo(request, lines, from, Matching);
            && |listed| == |matching|
            && forall i | i in matching ::
                 var later := |ReadSo(request, lines, i + 1, Matching)|; later < |listed| && listed[later] == lines[i]
    ensures Unread(request, lines[from..]) == |ReadSo(request, lines, from, CannotRead)|
    decreases |lines| - from
  {
    hide KindOf, Join;
    if from == |lines| {
      assert lines[from..] == [];
      assert ReadSo(request, lines, from, Matching) == {} && ReadSo(request, lines, from, CannotRead) == {};
    } else {
      ListedAre(request, lines, from + 1);
      OneMoreLine(request, lines, from);
      ReadSoMore(request, lines, from, Matching);
      ReadSoMore(request, lines, from, CannotRead);
      MatchingIs(request, lines, from);
    }
  }

  lemma MatchingIs(request: Request, lines: seq<Bytes>, from: nat)
    requires from < |lines|
    ensures forall i :: i in ReadSo(request, lines, from, Matching) <==>
                        i in ReadSo(request, lines, from + 1, Matching)
                        || (i == from && KindOf(request, lines[from]).Matching?)
  {
  }

  // ----- One page -----

  /** Validates before anything is read, and answers the window's bounds. */
  method HistoryRange(size: nat, before: Option<nat>, window: nat) returns (start: nat, end: nat, refused: Option<Answer>)
    ensures refused == (if size > MAX_HISTORY_SOURCE then Some(SourceLimit)
                        else if before.Some? && before.value > size then Some(BeforeBeyond) else None)
    ensures refused.None? ==>
              && end == (if before.Some? then before.value else size) && end <= size
              && start == if end > window then end - window else 0
  {
    start, end, refused := 0, size, None;
    if size > MAX_HISTORY_SOURCE {
      refused := Some(SourceLimit);
      return;
    }
    if before.Some? {
      end := before.value;
    }
    if end > size {
      refused := Some(BeforeBeyond);
      return;
    }
    if end > window {
      start := end - window;
    }
  }

  /** Reads the lines of a window backward, until it has listed a page or come to the window's first whole line. */
  method ReadLines(request: Request, lines: seq<Bytes>, start: nat) returns (records: seq<Bytes>, unread: nat, left: nat)
    ensures left <= |lines| && (lines != [] ==> left < |lines|)
    ensures records == Listed(request, lines[left..]) && unread == Unread(request, lines[left..])
    ensures |records| <= HISTORY_PAGE && (left > 0 ==> |records| == HISTORY_PAGE)
  {
    hide KindOf, Join;
    records, unread, left := [], 0, |lines|;
    assert lines[left..] == [];
    while left > 0 && |records| < HISTORY_PAGE
      invariant 0 <= left <= |lines| && |records| <= HISTORY_PAGE
      invariant records == Listed(request, lines[left..]) && unread == Unread(request, lines[left..])
      invariant left == |lines| ==> records == []
    {
      left := left - 1;
      OneMoreLine(request, lines, left);
      var kind := KindOf(request, lines[left]);
      if kind.CannotRead? {
        unread := unread + 1;
      } else if kind.Matching? {
        records := records + [lines[left]];
      }
    }
  }

  /** Where the window's first whole line starts: at its start when that is the trail's, after a newline otherwise. */
  method FirstWhole(data: Bytes, start: nat) returns (skipped: nat, found: bool)
    ensures skipped <= |data|
    ensures start == 0 ==> found && skipped == 0
    ensures start > 0 ==> (found <==> '\n' in data)
    ensures start > 0 && found ==> skipped > 0 && data[skipped - 1] == '\n' && NoNewline(data, 0, skipped - 1)
  {
    skipped, found := 0, start == 0;
    while !found && skipped < |data|
      invariant 0 <= skipped <= |data|
      invariant start == 0 ==> found && skipped == 0
      invariant start > 0 && !found ==> NoNewline(data, 0, skipped)
      invariant start > 0 && found ==> skipped > 0 && data[skipped - 1] == '\n' && NoNewline(data, 0, skipped - 1)
      decreases |data| - skipped, !found
    {
      found := data[skipped] == '\n';
      skipped := skipped + 1;
    }
  }

  // ----- What fits -----

  /** A line with its newline is shorter than the window; the first one may fill it. */
  predicate LineFits(window: nat, lines: seq<Bytes>, i: nat)
    requires i < |lines|
  {
    |lines[i]| + 1 < window || (i == 0 && |lines[i]| + 1 == window)
  }

  /** So is what follows the last newline, which may fill the window when there is none. */
  predicate TailFits(window: nat, lines: seq<Bytes>, tail: Bytes) {
    |tail| < window || (lines == [] && |tail| == window)
  }

  predicate Fits(window: nat, lines: seq<Bytes>, tail: Bytes) {
    TailFits(window, lines, tail) && forall i | 0 <= i < |lines| :: LineFits(window, lines, i)
  }

  /** The window reaches back to the first byte, or past a newline before its own last byte. */
  predicate Reaches(upTo: Bytes, window: nat) {
    |upTo| <= window || exists i | |upTo| - window <= i < |upTo| - 1 :: upTo[i] == '\n'
  }

  /** A window without a newline is one that what follows the last newline does not fit. */
  lemma NoNewlineIs(upTo: Bytes, window: nat)
    requires window > 0
    ensures |upTo| > window && '\n' !in upTo[|upTo| - window..] <==> !TailFits(window, CompleteLines(upTo), Tail(upTo))
  {
    hide SplitLines, Join;
    var lines, tail := CompleteLines(upTo), Tail(upTo);
    JoinOfSplit(upTo);
    EmptyJoin();
    JoinEmptyOrEnds(lines);
    if lines != [] && |tail| < window && |upTo| > window {
      var i := |Join(lines)| - 1;
      assert upTo[|upTo| - window..][i - (|upTo| - window)] == upTo[i] == '\n';
    }
    if |upTo| > window && (lines == [] || |tail| >= window) {
      assert upTo[|upTo| - window..] == tail[|tail| - window..];
    }
  }

  /** Where the bytes end in a newline, the window reaches back exactly when it has room for the last line. */
  lemma ReachesIs(upTo: Bytes, window: nat)
    requires CompleteLines(upTo) != [] && Tail(upTo) == []
    ensures Reaches(upTo, window) <==> LineFits(window, CompleteLines(upTo), |CompleteLines(upTo)| - 1)
  {
    hide SplitLines, Join;
    var lines := CompleteLines(upTo);
    var front, last := lines[..|lines| - 1], lines[|lines| - 1];
    JoinOfSplit(upTo);
    EmptyJoin();
    assert lines == front + [last];
    JoinSnoc(front, last);
    JoinEmptyOrEnds(front);
    assert Join(lines) + [] == Join(lines);
    assert upTo == Join(front) + (last + ['\n']);
    if front != [] && |last| + 1 < window {
      assert upTo[|Join(front)| - 1] == '\n';
    }
    forall i | |Join(front)| <= i < |upTo| - 1
      ensures upTo[i] != '\n'
    {
      assert upTo[i] == last[i - |Join(front)|];
    }
  }

  /** What stands from a line's start on is split as it is in the whole. */
  lemma SplitFrom(file: Bytes, from: nat)
    requires from <= |file| && (from == 0 || file[from - 1] == '\n')
    ensures var rest := SplitLines(file[from..]);
            SplitLines(file) == Split(CompleteLines(file[..from]) + rest.lines, rest.tail)
    ensures file[..from] == Join(CompleteLines(file[..from])) && Tail(file[..from]) == []
  {
    hide SplitLines, Join;
    TailAfterNewline(file[..from]);
    JoinOfSplit(file[..from]);
    assert Join(CompleteLines(file[..from])) + [] == Join(CompleteLines(file[..from]));
    assert file == file[..from] + file[from..];
    SplitAppend(file[..from], file[from..]);
    assert [] + file[from..] == file[from..];
  }

  /**
   One page. What is read of the trail up to the offset is its newest lines: those from some line on are listed
   or counted, and the next page is asked for at that line's start, unless it is the trail's first.
   */
  method DefinitionHistory(request: Request, file: Bytes, before: Option<nat>, window: nat)
    returns (answer: Answer, ghost left: nat)
    requires window > 0
    ensures |file| > MAX_HISTORY_SOURCE ==> answer == SourceLimit
    ensures |file| <= MAX_HISTORY_SOURCE && before.Some? && before.value > |file| ==> answer == BeforeBeyond
    ensures |file| <= MAX_HISTORY_SOURCE && (before.Some? ==> before.value <= |file|) ==>
              var upTo := file[..if before.Some? then before.value else |file|];
              var lines, tail := CompleteLines(upTo), Tail(upTo);
              if |upTo| > window && '\n' !in upTo[|upTo| - window..] then answer == RecordTooLong
              else
                && answer.Answered? && left <= |lines|
                && answer.page == Page(Listed(request, lines[left..]),
                                       Unread(request, lines[left..]) + (if tail == [] then 0 else 1),
                                       if left == 0 then None else Some(|Join(lines[..left])|))
                && |answer.page.records| <= HISTORY_PAGE
                && (|upTo| - |Join(lines[..left])| < window || (left == 0 && |upTo| <= window))
                && (upTo != [] ==> (|Join(lines[..left])| < |upTo| <==> Reaches(upTo, window)))
  {
    hide SplitLines, Join, Listed, Unread, KindOf, Reaches;
    left := 0;
    var start, end, refused := HistoryRange(|file|, before, window);
    if refused.Some? {
      return refused.value, 0;
    }
    var upTo := file[..end];
    var data := upTo[start..];
    var skipped, found := FirstWhole(data, start);
    if !found {
      return RecordTooLong, 0;
    }
    var from := start + skipped;
    var split := SplitLines(upTo[from..]);
    assert data[skipped..] == upTo[from..];
    var unread := 0;
    if split.tail != [] {
      unread := 1;
    }
    var records, more, stopped := ReadLines(request, split.lines, from);
    unread := unread + more;
    PageIs(upTo, window, start, skipped, stopped);
    left := |CompleteLines(upTo[..from])| + stopped;
    var offset := from + |Join(split.lines[..stopped])|;
    var next := None;
    if offset > 0 {
      next := Some(offset);
    }
    answer := Answered(Page(records, unread, next));
  }

  /** What a page that stops at a line of its window leaves, reads and goes on from. */
  lemma PageIs(upTo: Bytes, window: nat, start: nat, skipped: nat, stopped: nat)
    requires start == (if |upTo| > window then |upTo| - window else 0) && start + skipped <= |upTo|
    requires start == 0 ==> skipped == 0
    requires start > 0 ==> skipped > 0 && upTo[start + skipped - 1] == '\n' && NoNewline(upTo[start..], 0, skipped - 1)
    requires var rest := CompleteLines(upTo[start + skipped..]); stopped <= |rest| && (rest != [] ==> stopped < |rest|)
    ensures var all, from := CompleteLines(upTo), start + skipped;
            var rest, left := CompleteLines(upTo[from..]), |CompleteLines(upTo[..from])| + stopped;
            var offset := from + |Join(rest[..stopped])|;
            && left <= |all| && all[left..] == rest[stopped..] && Tail(upTo) == Tail(upTo[from..])
            && |Join(all[..left])| == offset && (left == 0 <==> offset == 0)
            && (|upTo| - offset < window || (left == 0 && |upTo| <= window))
            && (upTo != [] ==> (offset < |upTo| <==> Reaches(upTo, window)))
  {
    hide SplitLines, Join, Reaches;
    var from := start + skipped;
    assert from > 0 ==> upTo[from - 1] == '\n';
    SplitFrom(upTo, from);
    WindowLines(upTo, from, stopped);
    ReachesBack(upTo, window, start, skipped, stopped);
  }

  /** The lines a window leaves are the first of the whole, and it reads the rest. */
  lemma WindowLines(upTo: Bytes, from: nat, stopped: nat)
    requires from <= |upTo| && (from == 0 || upTo[from - 1] == '\n')
    requires stopped <= |CompleteLines(upTo[from..])|
    ensures var all, first, rest := CompleteLines(upTo), CompleteLines(upTo[..from]), CompleteLines(upTo[from..]);
            && |first| + stopped <= |all|
            && all[|first| + stopped..] == rest[stopped..]
            && |Join(all[..|first| + stopped])| == from + |Join(rest[..stopped])|
            && (|first| + stopped == 0 <==> from + |Join(rest[..stopped])| == 0)
  {
    hide SplitLines, Join;
    SplitFrom(upTo, from);
    var all, first, rest := CompleteLines(upTo), CompleteLines(upTo[..from]), CompleteLines(upTo[from..]);
    assert all == first + rest;
    assert all[..|first| + stopped] == first + rest[..stopped];
    JoinConcat(first, rest[..stopped]);
    JoinEmptyOrEnds(first + rest[..stopped]);
  }

  /** A page's offset is lower than the end of what it read exactly when its window reaches back. */
  lemma ReachesBack(upTo: Bytes, window: nat, start: nat, skipped: nat, stopped: nat)
    requires start == (if |upTo| > window then |upTo| - window else 0) && start + skipped <= |upTo|
    requires start == 0 ==> skipped == 0
    requires start > 0 ==> skipped > 0 && upTo[start + skipped - 1] == '\n' && NoNewline(upTo[start..], 0, skipped - 1)
    requires var rest := CompleteLines(upTo[start + skipped..]); stopped <= |rest| && (rest != [] ==> stopped < |rest|)
    ensures upTo != [] ==>
              (start + skipped + |Join(CompleteLines(upTo[start + skipped..])[..stopped])| < |upTo| <==>
               Reaches(upTo, window))
  {
    hide SplitLines, Join;
    var from := start + skipped;
    var rest := CompleteLines(upTo[from..]);
    JoinOfSplit(upTo[from..]);
    EmptyJoin();
    if rest != [] {
      assert rest == rest[..stopped] + rest[stopped..];
      JoinConcat(rest[..stopped], rest[stopped..]);
      JoinEmptyOrEnds(rest[stopped..]);
    }
    if start > 0 {
      assert from < |upTo| ==> upTo[from - 1] == '\n';
      forall i | start <= i < from - 1
        ensures upTo[i] != '\n'
      {
        assert upTo[start..][i - start] == upTo[i];
      }
    }
  }

  // ----- Every page -----

  lemma PrefixIsBoundary(file: Bytes, k: nat)
    requires k <= |CompleteLines(file)|
    ensures var before := |Join(CompleteLines(file)[..k])|;
            && before <= |file| && CompleteLines(file[..before]) == CompleteLines(file)[..k] && Tail(file[..before]) == []
  {
    hide SplitLines, Join;
    var lines := CompleteLines(file);
    JoinOfSplit(file);
    assert lines == lines[..k] + lines[k..];
    JoinConcat(lines[..k], lines[k..]);
    Regroup(Join(lines[..k]), Join(lines[k..]), Tail(file));
    assert file[..|Join(lines[..k])|] == Join(lines[..k]);
    SplitOfJoin(lines[..k], []);
    assert Join(lines[..k]) + [] == Join(lines[..k]);
  }

  /** What following the offsets comes to: an end, a page that answers its own offset for ever, or a refusal. */
  datatype Following = AllRead | Repeats(offset: nat) | Refused

  /**
   Following the offset each page answers, on a trail that is not written meanwhile, comes to its start if and only if
   every line fits the window. The pages then list every record that matches once, newest first, and count every line that
   cannot be read once, an incomplete last line with them. Otherwise the last line that does not fit stops them: the
   lines after it are listed, and the page at its end answers that same offset.
   */
  method AllPages(request: Request, file: Bytes, window: nat)
    returns (records: seq<Bytes>, unread: nat, following: Following, ghost left: nat)
    requires window > 0 && |file| <= MAX_HISTORY_SOURCE
    ensures following.AllRead? <==> Fits(window, CompleteLines(file), Tail(file))
    ensures following.Refused? <==> !TailFits(window, CompleteLines(file), Tail(file))
    ensures var lines := CompleteLines(file);
            !following.Refused? ==>
              && left <= |lines| && records == Listed(request, lines[left..])
              && unread == Unread(request, lines[left..]) + (if Tail(file) == [] then 0 else 1)
              && (following.AllRead? ==> lines[left..] == lines)
              && (following.Repeats? ==> left > 0 && !LineFits(window, lines, left - 1)
                                         && following.offset == |Join(lines[..left])|)
  {
    hide SplitLines, CompleteLines, Tail, Join, Listed, Unread, KindOf, LineFits, TailFits, Reaches;
    ghost var lines := CompleteLines(file);
    assert file[..|file|] == file;
    NoNewlineIs(file, window);
    JoinOfSplit(file);
    var answer;
    answer, left := DefinitionHistory(request, file, None, window);
    if answer.RecordTooLong? {
      return [], 0, Refused, 0;
    }
    JoinPart(lines, |lines|, left);
    PassedFit(window, lines, |lines|, left);
    records, unread, following := answer.page.records, answer.page.unread, AllRead;
    var next := answer.page.next;
    while next.Some? && following.AllRead?
      invariant 0 <= left <= |lines| && (if left == 0 then next.None? else next == Some(|Join(lines[..left])|))
      invariant records == Listed(request, lines[left..])
      invariant unread == Unread(request, lines[left..]) + (if Tail(file) == [] then 0 else 1)
      invariant forall i | left <= i < |lines| :: LineFits(window, lines, i)
      invariant !following.Refused?
      invariant following.Repeats? ==> left > 0 && !LineFits(window, lines, left - 1)
                                       && following.offset == |Join(lines[..left])|
      decreases if next.Some? then next.value + 1 else 0, following.AllRead?
    {
      PrefixIsBoundary(file, left);
      ghost var stood := left;
      TailOfNothing(window, lines[..stood]);
      NoNewlineIs(file[..next.value], window);
      NextIsPast(lines, left);
      ReachesIs(file[..next.value], window);
      FitsAlike(window, lines, stood);
      answer, left := DefinitionHistory(request, file, next, window);
      Paged(request, lines, left, stood);
      JoinPart(lines, stood, left);
      records := records + answer.page.records;
      unread := unread + answer.page.unread;
      if answer.page.next == next {
        following := Repeats(next.value);
      } else {
        PassedFit(window, lines, stood, left);
      }
      next := answer.page.next;
    }
    assert lines[0..] == lines;
  }

  lemma TailOfNothing(window: nat, lines: seq<Bytes>)
    requires window > 0
    ensures TailFits(window, lines, [])
  {
  }

  /** Whether a line fits is the same among the lines up to it. */
  lemma FitsAlike(window: nat, lines: seq<Bytes>, k: nat)
    requires 0 < k <= |lines|
    ensures LineFits(window, lines[..k], k - 1) <==> LineFits(window, lines, k - 1)
  {
  }

  lemma JoinPart(lines: seq<Bytes>, k: nat, left: nat)
    requires left <= k <= |lines|
    ensures |Join(lines[..k])| == |Join(lines[..left])| + |Join(lines[left..k])|
    ensures |Join(lines[..left])| == |Join(lines[..k])| ==> left == k
    ensures lines[..|lines|] == lines
  {
    hide Join;
    assert lines[..k] == lines[..left] + lines[left..k];
    JoinConcat(lines[..left], lines[left..k]);
    JoinEmptyOrEnds(lines[left..k]);
  }

  /** The lines one page read of all fit the window. */
  lemma PassedFit(window: nat, lines: seq<Bytes>, k: nat, left: nat)
    requires left <= k <= |lines|
    requires |Join(lines[left..k])| < window || (left == 0 && |Join(lines[left..k])| <= window)
    ensures forall i | left <= i < k :: LineFits(window, lines, i)
  {
    hide Join;
    forall i | left <= i < k
      ensures LineFits(window, lines, i)
    {
      var part := lines[left..k];
      assert part == part[..i - left] + ([lines[i]] + part[i - left + 1..]);
      JoinConcat(part[..i - left], [lines[i]] + part[i - left + 1..]);
      JoinConcat([lines[i]], part[i - left + 1..]);
      JoinEmptyOrEnds(part[..i - left]);
      EmptyJoin();
      JoinSnoc([], lines[i]);
      assert [] + [lines[i]] == [lines[i]];
    }
  }

  lemma NextIsPast(lines: seq<Bytes>, left: nat)
    requires 0 < left <= |lines|
    ensures Join(lines[..left]) != []
  {
    JoinEmptyOrEnds(lines[..left]);
  }

  lemma Paged(request: Request, lines: seq<Bytes>, left: nat, stood: nat)
    requires left <= stood <= |lines|
    ensures Listed(request, lines[stood..]) + Listed(request, lines[..stood][left..]) == Listed(request, lines[left..])
    ensures Unread(request, lines[stood..]) + Unread(request, lines[..stood][left..]) == Unread(request, lines[left..])
    ensures lines[..stood][..left] == lines[..left]
  {
    hide KindOf, Listed, Unread;
    ListedConcat(request, lines[..stood][left..], lines[stood..]);
    assert lines[..stood][left..] + lines[stood..] == lines[left..];
  }

  /** A line that with its newline is as long as a window, after one other. */
  function LongSecond(): Bytes { ['\n'] + (seq(HISTORY_READ - 1, _ => 'a') + ['\n']) }

  lemma LongSecondIs()
    ensures var file := LongSecond();
            && |file| == HISTORY_READ + 1 && Tail(file) == [] && |CompleteLines(file)| == 2
            && TailFits(HISTORY_READ, CompleteLines(file), []) && !LineFits(HISTORY_READ, CompleteLines(file), 1)
  {
    hide SplitLines, Join;
    var line := seq(HISTORY_READ - 1, _ => 'a');
    EmptyJoin();
    JoinSnoc([], []);
    JoinSnoc([[]], line);
    var none: seq<Bytes> := [];
    assert none + [[]] == [[]] && [] + [] + ['\n'] == ['\n'];
    assert Join([[]] + [line]) == ['\n'] + (line + ['\n']);
    SplitOfJoin([[]] + [line], []);
    assert Join([[]] + [line]) + [] == Join([[]] + [line]);
  }

  /** What a page that reads nothing answers. */
  lemma NothingListed(request: Request, file: Bytes, left: nat)
    requires left <= |CompleteLines(file)| && Tail(file) == [] && |Join(CompleteLines(file)[..left])| >= |file|
    ensures left == |CompleteLines(file)| && |Join(CompleteLines(file)[..left])| == |file|
    ensures Listed(request, CompleteLines(file)[left..]) == [] && Unread(request, CompleteLines(file)[left..]) == 0
  {
    hide SplitLines, Join;
    JoinOfSplit(file);
    JoinPart(CompleteLines(file), |CompleteLines(file)|, left);
  }

  /** Of a trail that ends so, every page is empty and answers the offset it was asked with. */
  method PageRepeats(request: Request) returns (first: Answer, again: Answer)
    ensures first == Answered(Page([], 0, Some(|LongSecond()|)))
    ensures again == Answered(Page([], 0, Some(|LongSecond()|)))
  {
    hide KindOf, Listed, Unread, SplitLines, Join, CompleteLines, Tail, Reaches, LineFits, TailFits, LongSecond;
    LongSecondIs();
    var file := LongSecond();
    assert file[..|file|] == file;
    NoNewlineIs(file, HISTORY_READ);
    ReachesIs(file, HISTORY_READ);
    ghost var left;
    first, left := DefinitionHistory(request, file, None, HISTORY_READ);
    NothingListed(request, file, left);
    again, left := DefinitionHistory(request, file, Some(|file|), HISTORY_READ);
    NothingListed(request, file, left);
  }
}
