/**
 The raw export of the three captured files in pages: read a hashed block at a time through one cached block,
 split into lines as it goes, and resumed from one cursor. Whatever the page sizes, the pages of a file join to
 its captured bytes and list each of its lines once.
 */
module Export {
  import opened Octets
  import opened Chain
  import opened Surrogates

  /** What is hashed and cached at a time, and the bounds on a page. */
  const WIRE_BLOCK: nat := 65536
  const MAX_WIRE_PAGE: nat := 262144
  const MAX_WIRE_RECORD: nat := 65536
  const MAX_WIRE_RECORDS: nat := 128
  const MAX_WIRE_FILE: nat := 67108864

  datatype Status = Parsed | Malformed | Oversized | Incomplete

  /** One line as a page describes it; its bytes are there unless it is too long. */
  datatype LineRecord = LineRecord(offset: nat, bytes: nat, digest: Digest, status: Status, raw: Option<Bytes>)

  /** Whether a line is one JSON object and nothing else: a decoder's answer. */
  type Decoder = Bytes -> bool

  // ----- What the pages come to -----

  function StatusOf(isObject: Decoder, line: Bytes, incomplete: bool): Status {
    if incomplete then Incomplete
    else if |line| > MAX_WIRE_RECORD then Oversized
    else if ValidUtf8(line) && isObject(line) && AllPaired(Escapes(line, 0, false)) then Parsed
    else Malformed
  }

  function RecordOf(h: Hash, isObject: Decoder, line: Bytes, offset: nat, incomplete: bool): LineRecord {
    LineRecord(offset, |line|, DigestOf(h, line), StatusOf(isObject, line, incomplete),
               if |line| > MAX_WIRE_RECORD then None else Some(line))
  }

  /** The complete lines, each with where it starts. */
  function RecordsOf(h: Hash, isObject: Decoder, lines: seq<Bytes>): seq<LineRecord> {
    if lines == [] then []
    else
      var front, last := lines[..|lines| - 1], lines[|lines| - 1];
      RecordsOf(h, isObject, front) + [RecordOf(h, isObject, last, |Join(front)|, false)]
  }

  /** What is left after a file's last newline, once all of it is read. */
  function LastRecord(h: Hash, isObject: Decoder, file: Bytes): seq<LineRecord> {
    var tail := Tail(file);
    if tail == [] then []
    else [RecordOf(h, isObject, tail, |Join(CompleteLines(file))|, true)]
  }

  /** What has been listed of a file once these bytes of it are read, and whether they are all of it. */
  function Listed(h: Hash, isObject: Decoder, read: Bytes, whole: bool): seq<LineRecord> {
    RecordsOf(h, isObject, CompleteLines(read)) + if whole then LastRecord(h, isObject, read) else []
  }

  /** Each complete line is listed once, at its own place, and its bytes stand there in the file. */
  lemma {:induction false} EachLineListed(h: Hash, isObject: Decoder, lines: seq<Bytes>, rest: Bytes, i: nat)
    requires i < |lines|
    ensures |RecordsOf(h, isObject, lines)| == |lines|
    ensures var at := |Join(lines[..i])|;
            && RecordsOf(h, isObject, lines)[i] == RecordOf(h, isObject, lines[i], at, false)
            && at + |lines[i]| <= |Join(lines) + rest|
            && (Join(lines) + rest)[at..at + |lines[i]|] == lines[i]
  {
    hide RecordOf;
    var front, last := lines[..|lines| - 1], lines[|lines| - 1];
    assert Join(lines) == Join(front) + last + ['\n'];
    Listing(h, isObject, lines);
    if i + 1 < |lines| {
      EachLineListed(h, isObject, front, last + ['\n'] + rest, i);
      assert front[..i] == lines[..i];
      assert Join(lines) + rest == Join(front) + (last + ['\n'] + rest);
    }
  }

  lemma {:induction false} Listing(h: Hash, isObject: Decoder, lines: seq<Bytes>)
    ensures |RecordsOf(h, isObject, lines)| == |lines|
  {
    if lines != [] {
      Listing(h, isObject, lines[..|lines| - 1]);
    }
  }

  // ----- Reading a part of a line -----

  /** A part of a line: it holds a newline nowhere, or only at its end. */
  ghost predicate IsPart(part: Bytes) { part != [] && '\n' !in part[..|part| - 1] }

  /** Bytes without a newline continue the last line. */
  lemma WithinLine(read: Bytes, more: Bytes)
    requires '\n' !in more
    ensures SplitLines(read + more) == Split(CompleteLines(read), Tail(read) + more)
  {
    hide SplitLines;
    JoinOfSplit(read);
    SplitAppend(read, more);
    EmptyJoin();
    assert [] + (Tail(read) + more) == Tail(read) + more;
    SplitOfJoin([], Tail(read) + more);
    assert CompleteLines(read) + [] == CompleteLines(read);
  }

  /** A part that holds a newline nowhere, or only at its end, continues the last line or ends it. */
  lemma PartRead(read: Bytes, part: Bytes)
    requires IsPart(part)
    ensures var before := SplitLines(read);
            SplitLines(read + part) ==
              if part[|part| - 1] == '\n' then Split(before.lines + [before.tail + part[..|part| - 1]], [])
              else Split(before.lines, before.tail + part)
  {
    hide SplitLines, Join;
    var front, last := part[..|part| - 1], part[|part| - 1];
    WithinLine(read, front);
    assert part == front + [last];
    Regroup(read, front, [last]);
    Regroup(Tail(read), front, [last]);
    SplitSnoc(read + front, last);
  }

  /** A part that ends a line lists that line. */
  lemma LineRead(h: Hash, isObject: Decoder, read: Bytes, part: Bytes)
    requires IsPart(part)
    ensures RecordsOf(h, isObject, CompleteLines(read + part)) ==
            RecordsOf(h, isObject, CompleteLines(read))
            + if part[|part| - 1] == '\n' then
                [RecordOf(h, isObject, Tail(read) + part[..|part| - 1], |Join(CompleteLines(read))|, false)]
              else []
    ensures |Join(CompleteLines(read))| + |Tail(read)| == |read|
  {
    hide SplitLines, Join, RecordOf;
    PartRead(read, part);
    JoinOfSplit(read);
    var lines, tail := CompleteLines(read), Tail(read);
    if part[|part| - 1] == '\n' {
      assert (lines + [tail + part[..|part| - 1]])[..|lines|] == lines;
    } else {
      assert RecordsOf(h, isObject, lines) + [] == RecordsOf(h, isObject, lines);
    }
  }

  /** With part of a file read its complete lines are listed, and with all of it what follows them too. */
  lemma ListedSoFar(h: Hash, isObject: Decoder, read: Bytes, before: seq<LineRecord>, records: seq<LineRecord>)
    requires RecordsOf(h, isObject, CompleteLines(read)) == before + records
    ensures |Tail(read)| <= |read|
    ensures Listed(h, isObject, read, false) == before + records
    ensures Tail(read) == [] ==> Listed(h, isObject, read, true) == before + records
    ensures Tail(read) != [] ==>
              Listed(h, isObject, read, true) ==
              before + (records + [RecordOf(h, isObject, Tail(read), |read| - |Tail(read)|, true)])
  {
    hide SplitLines, RecordsOf, RecordOf, Join;
    JoinOfSplit(read);
    assert RecordsOf(h, isObject, CompleteLines(read)) + [] == before + records;
    if Tail(read) != [] {
      var last := [RecordOf(h, isObject, Tail(read), |read| - |Tail(read)|, true)];
      assert LastRecord(h, isObject, read) == last;
      assert (before + records) + last == before + (records + last);
    }
  }

  // ----- Blocks -----

  /** How many blocks hold this many bytes. */
  function Blocks(size: nat): nat { (size + WIRE_BLOCK - 1) / WIRE_BLOCK }

  function BlockEnd(size: nat, b: nat): nat { if (b + 1) * WIRE_BLOCK <= size then (b + 1) * WIRE_BLOCK else size }

  function BlockOf(file: Bytes, b: nat): Bytes
    requires b < Blocks(|file|)
  {
    file[b * WIRE_BLOCK..BlockEnd(|file|, b)]
  }

  ghost predicate HoldsDigests(h: Hash, file: Bytes, digests: seq<Digest>) {
    |digests| == Blocks(|file|) && forall b | 0 <= b < |digests| :: digests[b] == DigestOf(h, BlockOf(file, b))
  }

  method DigestBlocks(h: Hash, file: Bytes) returns (digests: seq<Digest>)
    ensures HoldsDigests(h, file, digests)
  {
    digests := [];
    var offset := 0;
    while offset < |file|
      invariant offset == |digests| * WIRE_BLOCK && |digests| <= Blocks(|file|)
      invariant forall b | 0 <= b < |digests| :: digests[b] == DigestOf(h, BlockOf(file, b))
      decreases |file| - offset
    {
      var end := if offset + WIRE_BLOCK <= |file| then offset + WIRE_BLOCK else |file|;
      assert |digests| < Blocks(|file|);
      assert file[offset..end] == BlockOf(file, |digests|);
      digests := digests + [DigestOf(h, file[offset..end])];
      offset := offset + WIRE_BLOCK;
    }
  }

  /** A block of the captured file and other bytes of the same digest. */
  ghost predicate IsClash(h: Hash, file: Bytes, b: nat, other: Bytes) {
    b < Blocks(|file|) && BlockOf(file, b) != other && DigestOf(h, BlockOf(file, b)) == DigestOf(h, other)
  }

  // ----- The export -----

  /** A file as it is opened: which file it is, and its bytes now. */
  datatype Opened = Opened(node: nat, contents: Bytes)

  type Snapshot = s: seq<Option<Opened>> | |s| == 3 witness [None, None, None]

  function ContentsOf(file: Option<Opened>): Bytes { if file.Some? then file.value.contents else [] }

  datatype Page = Page(file: nat, offset: nat, data: Bytes, records: seq<LineRecord>, pendingLine: bool,
                       fileComplete: bool, complete: bool, next: Option<nat>)

  datatype Answer = Answered(page: Page) | Changed | CursorRefused | PageBytesRefused

  /** A file is still the captured one, and no shorter. */
  predicate SameIdentity(captured: Option<Opened>, now: Option<Opened>) {
    captured.Some? == now.Some?
    && (now.Some? ==> now.value.node == captured.value.node
                      && |now.value.contents| >= |captured.value.contents|)
  }

  /** A file still holds the captured bytes; others may follow them. */
  ghost predicate Holds(captured: Bytes, now: Bytes) { captured <= now }

  ghost predicate AllSame(captured: Snapshot, now: Snapshot) {
    forall i | 0 <= i < 3 :: SameIdentity(captured[i], now[i])
  }

  ghost predicate Unwritten(captured: Snapshot, now: Snapshot) {
    AllSame(captured, now) && forall i | 0 <= i < 3 :: Holds(ContentsOf(captured[i]), ContentsOf(now[i]))
  }

  /** A file that was not there is not there; one that was is that very file, with its bytes and perhaps more after. */
  ghost predicate GoesOn(captured: Option<Opened>, now: Option<Opened>) {
    match captured
    case None => now.None?
    case Some(was) => exists more :: now == Some(Opened(was.node, was.contents + more))
  }

  lemma GoesOnIs(captured: Option<Opened>, now: Option<Opened>)
    ensures GoesOn(captured, now) <==> SameIdentity(captured, now) && Holds(ContentsOf(captured), ContentsOf(now))
  {
    if captured.Some? && SameIdentity(captured, now) && Holds(ContentsOf(captured), ContentsOf(now)) {
      var more := now.value.contents[|captured.value.contents|..];
      assert now.value.contents == captured.value.contents + more;
      assert now == Some(Opened(captured.value.node, captured.value.contents + more));
    }
  }

  /** Nothing is written to the files of an export but at their ends. */
  lemma UnwrittenIs(captured: Snapshot, now: Snapshot)
    ensures Unwritten(captured, now) <==> forall i | 0 <= i < 3 :: GoesOn(captured[i], now[i])
  {
    hide GoesOn, SameIdentity, Holds;
    forall i | 0 <= i < 3
      ensures GoesOn(captured[i], now[i]) <==>
              SameIdentity(captured[i], now[i]) && Holds(ContentsOf(captured[i]), ContentsOf(now[i]))
    {
      GoesOnIs(captured[i], now[i]);
    }
  }

  /** What a file holds now where a captured block was, if it reaches that far. */
  predicate MatchesBlock(h: Hash, now: Bytes, size: nat, b: nat, digest: Digest)
    requires b < Blocks(size)
  {
    BlockEnd(size, b) <= |now| && DigestOf(h, now[b * WIRE_BLOCK..BlockEnd(size, b)]) == digest
  }

  lemma HeldBlock(h: Hash, file: Bytes, now: Bytes, b: nat)
    requires Holds(file, now) && b < Blocks(|file|)
    ensures BlockEnd(|file|, b) <= |now| && now[b * WIRE_BLOCK..BlockEnd(|file|, b)] == BlockOf(file, b)
    ensures MatchesBlock(h, now, |file|, b, DigestOf(h, BlockOf(file, b)))
  {
    assert file == now[..|file|];
  }

  /** A file that holds every captured block holds the captured bytes. */
  lemma BlocksHold(file: Bytes, now: Bytes)
    requires |file| <= |now|
    requires forall b | 0 <= b < Blocks(|file|) :: HoldsBlock(file, now, b)
    ensures Holds(file, now)
  {
    forall k | 0 <= k < |file|
      ensures file[k] == now[k]
    {
      var b := k / WIRE_BLOCK;
      assert HoldsBlock(file, now, b);
      assert BlockOf(file, b)[k - b * WIRE_BLOCK] == file[k];
    }
  }

  ghost predicate HoldsBlock(file: Bytes, now: Bytes, b: nat) {
    b < Blocks(|file|) && BlockEnd(|file|, b) <= |now| && now[b * WIRE_BLOCK..BlockEnd(|file|, b)] == BlockOf(file, b)
  }

  /** Two blocks of one digest that were met: a captured one, and other bytes read in its place. */
  datatype Clash = Clash(file: nat, block: nat, other: Bytes)

  /** Bytes served from a place are those that stand there, unless a clash was met. */
  ghost predicate Served(contents: Bytes, served: Bytes, clash: Option<Clash>) {
    clash.None? ==> served <= contents
  }

  lemma ServedFurther(contents: Bytes, served: Bytes, part: Bytes, clash: Option<Clash>)
    requires |served| <= |contents|
    requires Served(contents, served, clash) && Served(contents[|served|..], part, clash)
    ensures Served(contents, served + part, clash)
  {
  }

  /** A cached block is as long as the captured one, and is it unless a clash was met. */
  ghost predicate Cached(contents: Bytes, block: Option<nat>, cache: Bytes, clash: Option<Clash>) {
    block.Some? ==>
      && block.value < Blocks(|contents|) && |cache| == |BlockOf(contents, block.value)|
      && (clash.None? ==> cache == BlockOf(contents, block.value))
  }

  /** The part of a block that goes in one step: up to and with its first newline, or all of it. */
  method LinePart(remaining: Bytes) returns (part: Bytes)
    requires remaining != []
    ensures IsPart(part) && part <= remaining
    ensures part == remaining || part[|part| - 1] == '\n'
  {
    var n := 1;
    while n < |remaining| && remaining[n - 1] != '\n'
      invariant 0 < n <= |remaining| && '\n' !in remaining[..n - 1]
    {
      assert remaining[..n] == remaining[..n - 1] + [remaining[n - 1]];
      n := n + 1;
    }
    part := remaining[..n];
    assert part[..n - 1] == remaining[..n - 1];
  }

  /** The line being read: the bytes kept of it, what its digest has taken, and its length. */
  datatype Line = Line(kept: Bytes, hashed: Bytes, bytes: nat)

  function LineOf(read: Bytes): Line {
    var tail := Tail(read);
    Line(if |tail| <= MAX_WIRE_RECORD then tail else [], tail, |tail|)
  }

  /** The block an offset falls in, and what stands in it from there on. */
  lemma BlockAt(contents: Bytes, offset: nat)
    requires offset < |contents|
    ensures var b := offset / WIRE_BLOCK;
            && b < Blocks(|contents|) && offset % WIRE_BLOCK < |BlockOf(contents, b)|
            && BlockOf(contents, b)[offset % WIRE_BLOCK..] <= contents[offset..]
  {
    var b := offset / WIRE_BLOCK;
    assert b * WIRE_BLOCK + offset % WIRE_BLOCK == offset;
    assert BlockOf(contents, b)[offset % WIRE_BLOCK..] == contents[offset..BlockEnd(|contents|, b)];
  }

  /**
   A page of one file: it goes on where the pages before it ended, lists the lines that end in it, and moves on
   unless the file ends with it. What it carries are the captured bytes unless a clash was met.
   */
  ghost predicate PageFollows(h: Hash, isObject: Decoder, contents: Bytes, served: Bytes, page: Page, limit: nat,
                              clash: Option<Clash>)
  {
    var now := served + page.data;
    && page.offset == |served| && |now| <= |contents| && Served(contents, now, clash)
    && |page.data| <= limit && |page.records| <= MAX_WIRE_RECORDS
    && Listed(h, isObject, now, page.fileComplete) == RecordsOf(h, isObject, CompleteLines(served)) + page.records
    && (page.fileComplete <==> |now| == |contents|)
    && (page.fileComplete || page.data != [])
    && (page.pendingLine <==> !page.fileComplete && Tail(now) != [])
  }

  lemma WithNext(h: Hash, isObject: Decoder, contents: Bytes, served: Bytes, page: Page, limit: nat, clash: Option<Clash>,
                 next: nat)
    requires PageFollows(h, isObject, contents, served, page, limit, clash)
    ensures PageFollows(h, isObject, contents, served, page.(next := Some(next)), limit, clash)
  {
    hide Listed, RecordsOf, CompleteLines, Tail, Served;
  }

  class WireExport {
    const h: Hash
    const isObject: Decoder
    const captured: Snapshot
    const digests: seq<seq<Digest>>

    var live: bool
    var sequence: nat
    var previous: Option<nat>
    var last: Option<Page>
    var complete: bool

    var file: nat
    var offset: nat
    var cache: Bytes
    var cacheBlock: Option<nat>
    var line: Bytes
    /** What the line's running hash has taken. */
    var lineHash: Bytes
    var lineOffset: nat
    var lineBytes: nat

    /** What the pages of the current file have carried. */
    ghost var served: Bytes
    ghost var clash: Option<Clash>

    /** What was captured: nothing of it changes. */
    ghost predicate Captured() {
      |digests| == 3 && forall i | 0 <= i < 3 :: HoldsDigests(h, ContentsOf(captured[i]), digests[i])
    }

    /** The captured bytes of the file being exported. */
    function Contents(): Bytes
      reads `file
      requires file < 3
    {
      ContentsOf(captured[file])
    }

    /** A clash that was met is one. */
    ghost predicate Met(clash: Option<Clash>) {
      clash.Some? ==> clash.value.file < 3 && IsClash(h, ContentsOf(captured[clash.value.file]), clash.value.block, clash.value.other)
    }

    /** What was served of the file is what was captured of it, unless a clash was met. */
    ghost predicate Valid()
      reads `file, `offset, `served, `clash, `cacheBlock, `cache
    {
      && file < 3 && offset == |served| <= |Contents()|
      && Met(clash) && Served(Contents(), served, clash)
      && Cached(Contents(), cacheBlock, cache, clash)
    }

    /** The line being read is what follows the last newline served. */
    ghost predicate InLine()
      reads `lineOffset, `lineBytes, `offset, `line, `lineHash, `served
    {
      lineOffset + lineBytes == offset && Line(line, lineHash, lineBytes) == LineOf(served)
    }

    /** Between two pages. */
    ghost predicate Ready()
      reads this
    {
      && file < 3 && Captured() && Valid() && (!complete ==> InLine() && (offset < |Contents()| || offset == 0))
      && (previous.Some? || complete ==> last.Some?)
    }

    /** The export as one page more leaves it. */
    ghost predicate Turned(file0: nat, served0: Bytes, sequence0: nat, cursor: Option<nat>, page: Page, limit: nat,
                           current: Snapshot)
      reads this
    {
      && file0 < 3 && page.file == file0
      && PageFollows(h, isObject, ContentsOf(captured[file0]), served0, page, limit, clash)
      && (page.complete <==> page.fileComplete && file0 == 2)
      && (page.complete && clash.None? ==> Unwritten(captured, current))
      && complete == page.complete && last == Some(page) && previous == cursor && sequence == sequence0 + 1
      && page.next == (if complete then None else Some(sequence))
      && file == (if page.fileComplete && !complete then file0 + 1 else file0)
      && served == if page.fileComplete && !complete then [] else served0 + page.data
    }

    /** Captures the files: what they are, their bytes, and the digest of each block. */
    constructor (h: Hash, isObject: Decoder, files: Snapshot)
      ensures this.h == h && this.isObject == isObject && captured == files
      ensures Ready() && live && !complete && last == None && clash == None
      ensures file == 0 && served == [] && sequence == 0 && previous == None
    {
      var trail := DigestBlocks(h, ContentsOf(files[0]));
      var sidecar := DigestBlocks(h, ContentsOf(files[1]));
      var stamps := DigestBlocks(h, ContentsOf(files[2]));
      this.h, this.isObject, captured, digests := h, isObject, files, [trail, sidecar, stamps];
      live, sequence, previous, last, complete := true, 0, None, None, false;
      file, offset, cache, cacheBlock := 0, 0, [], None;
      line, lineHash, lineOffset, lineBytes := [], [], 0, 0;
      served, clash := [], None;
    }

    method Block(now: Bytes, i: nat, b: nat) returns (data: Bytes, ok: bool)
      requires Captured() && Met(clash) && i < 3 && b < Blocks(|ContentsOf(captured[i])|)
      modifies `clash
      ensures Met(clash)
      ensures ok <==> MatchesBlock(h, now, |ContentsOf(captured[i])|, b, digests[i][b])
      ensures ok ==> Cached(ContentsOf(captured[i]), Some(b), data, clash)
                     && data == now[b * WIRE_BLOCK..BlockEnd(|ContentsOf(captured[i])|, b)]
      ensures Holds(ContentsOf(captured[i]), now) ==> ok && clash == old(clash)
      ensures old(clash).Some? ==> clash == old(clash)
    {
      var size := |ContentsOf(captured[i])|;
      if Holds(ContentsOf(captured[i]), now) {
        HeldBlock(h, ContentsOf(captured[i]), now, b);
      }
      if BlockEnd(size, b) > |now| {
        return [], false;
      }
      data := now[b * WIRE_BLOCK..BlockEnd(size, b)];
      ok := DigestOf(h, data) == digests[i][b];
      if ok && data != BlockOf(ContentsOf(captured[i]), b) && clash.None? {
        clash := Some(Clash(i, b, data));
      }
    }

    method FinishLine(incomplete: bool) returns (record: LineRecord)
      requires lineBytes == |lineHash| && line == if lineBytes <= MAX_WIRE_RECORD then lineHash else []
      modifies `line, `lineBytes, `lineHash
      ensures record == RecordOf(h, isObject, old(lineHash), lineOffset, incomplete)
      ensures line == [] && lineBytes == 0 && lineHash == []
    {
      var status := Malformed;
      var raw := None;
      if lineBytes > MAX_WIRE_RECORD {
        status := Oversized;
      } else {
        raw := Some(line);
        if ValidUtf8(line) && isObject(line) {
          var _, unpaired := UnpairedSurrogateEscape(line);
          if !unpaired {
            status := Parsed;
          }
        }
      }
      if incomplete {
        status := Incomplete;
      }
      record := LineRecord(lineOffset, lineBytes, DigestOf(h, lineHash), status, raw);
      line, lineBytes, lineHash := [], 0, [];
    }

    /** What is read next: no further than the block, the room in the page, and the end of the line. */
    method NextPart(now: Bytes, room: nat) returns (part: Bytes, ok: bool)
      requires Captured() && Valid() && room > 0 && offset < |Contents()|
      modifies `clash, `cache, `cacheBlock
      ensures Met(clash) && (ok ==> Cached(Contents(), cacheBlock, cache, clash))
      ensures Holds(Contents(), now) ==> ok && clash == old(clash)
      ensures old(clash).Some? ==> clash == old(clash)
      ensures ok ==> IsPart(part) && 0 < |part| <= room && offset + |part| <= |Contents()|
      ensures ok ==> Served(Contents()[offset..], part, clash)
    {
      hide BlockOf, Blocks, BlockEnd, MatchesBlock, IsClash, HoldsDigests, Holds;
      var b := offset / WIRE_BLOCK;
      BlockAt(Contents(), offset);
      if cacheBlock != Some(b) {
        var data, read := Block(now, file, b);
        if !read {
          return [], false;
        }
        cache, cacheBlock := data, Some(b);
      }
      var remaining := cache[offset % WIRE_BLOCK..];
      var n := if |remaining| <= room then |remaining| else room;
      part := LinePart(remaining[..n]);
      ok := true;
      if clash.None? {
        assert part == remaining[..|part|];
      }
    }

    /** Takes a part of a line, and lists the line when the part ends it. */
    method TakePart(part: Bytes) returns (listed: seq<LineRecord>)
      requires InLine() && offset == |served| && IsPart(part)
      modifies `offset, `lineHash, `lineBytes, `line, `lineOffset, `served
      ensures InLine() && offset == |served|
      ensures served == old(served) + part
      ensures RecordsOf(h, isObject, CompleteLines(served)) ==
              RecordsOf(h, isObject, CompleteLines(old(served))) + listed
      ensures |listed| <= 1 && (listed != [] ==> lineBytes == 0)
    {
      hide RecordsOf, RecordOf, SplitLines, Join;
      LineRead(h, isObject, served, part);
      PartRead(served, part);
      var newline := part[|part| - 1] == '\n';
      var linePart := if newline then part[..|part| - 1] else part;
      offset := offset + |part|;
      served := served + part;
      lineHash := lineHash + linePart;
      lineBytes := lineBytes + |linePart|;
      if lineBytes <= MAX_WIRE_RECORD {
        line := line + linePart;
      } else {
        line := [];
      }
      listed := [];
      if newline {
        var record := FinishLine(false);
        listed := [record];
        lineOffset := offset;
      }
    }

    /** Reads parts until the page is full or the file ends. */
    method ReadParts(now: Bytes, limit: nat) returns (data: Bytes, records: seq<LineRecord>, ok: bool)
      requires Captured() && Valid() && InLine() && limit > 0
      modifies this
      ensures unchanged(`file, `live, `sequence, `previous, `last, `complete)
      ensures Holds(Contents(), now) ==> ok && clash == old(clash)
      ensures old(clash).Some? ==> clash == old(clash)
      ensures ok ==> Valid() && InLine() && |data| <= limit && served == old(served) + data
      ensures ok ==> |records| <= MAX_WIRE_RECORDS && (|records| == MAX_WIRE_RECORDS ==> lineBytes == 0)
      ensures ok ==> RecordsOf(h, isObject, CompleteLines(served)) ==
                     RecordsOf(h, isObject, CompleteLines(old(served))) + records
      ensures ok ==> offset == |Contents()| || data != []
    {
      hide RecordsOf, SplitLines, CompleteLines, Tail, Join, IsClash, Met, Served, Cached, LineOf, IsPart,
           BlockOf, Blocks, HoldsDigests, Captured, Holds, ContentsOf;
      data, records, ok := [], [], true;
      ghost var before := RecordsOf(h, isObject, CompleteLines(served));
      var size := |Contents()|;
      assert before + [] == before;
      while |data| < limit && offset < size && |records| < MAX_WIRE_RECORDS
        invariant unchanged(`file, `live, `sequence, `previous, `last, `complete)
        invariant Valid() && InLine() && |data| <= limit && |records| <= MAX_WIRE_RECORDS
        invariant served == old(served) + data
        invariant RecordsOf(h, isObject, CompleteLines(served)) == before + records
        invariant data == [] ==> records == []
        invariant |records| == MAX_WIRE_RECORDS ==> lineBytes == 0
        invariant Holds(Contents(), now) ==> clash == old(clash)
        invariant old(clash).Some? ==> clash == old(clash)
        decreases size - offset
      {
        var part, read := NextPart(now, limit - |data|);
        if !read {
          return [], [], false;
        }
        ServedFurther(Contents(), served, part, clash);
        var listed := TakePart(part);
        data := data + part;
        records := records + listed;
      }
    }

    /** Reads one page's bytes of the current file, and the records of the lines that end in it. */
    method ReadPage(now: Bytes, limit: nat) returns (data: Bytes, records: seq<LineRecord>, ok: bool)
      requires Ready() && !complete && limit > 0
      modifies this
      ensures unchanged(`file, `live, `sequence, `previous, `last, `complete)
      ensures Holds(Contents(), now) ==> ok && clash == old(clash)
      ensures old(clash).Some? ==> clash == old(clash)
      ensures ok ==> Valid() && |data| <= limit && |records| <= MAX_WIRE_RECORDS && served == old(served) + data
      ensures ok ==> var whole := offset == |Contents()|;
                && Listed(h, isObject, served, whole) == RecordsOf(h, isObject, CompleteLines(old(served))) + records
                && (whole || (InLine() && data != []))
                && lineBytes == if whole then 0 else |Tail(served)|
    {
      hide RecordsOf, RecordOf, Listed, SplitLines, Join, IsClash, BlockOf, Blocks, HoldsDigests, Holds;
      ghost var before := RecordsOf(h, isObject, CompleteLines(served));
      data, records, ok := ReadParts(now, limit);
      if !ok {
        return;
      }
      ListedSoFar(h, isObject, served, before, records);
      if offset == |Contents()| && lineBytes > 0 {
        var record := FinishLine(true);
        records := records + [record];
      }
    }

    method CheckIdentity(snapshot: Snapshot) returns (same: bool)
      ensures same <==> AllSame(captured, snapshot)
    {
      for i := 0 to 3
        invariant forall j | 0 <= j < i :: SameIdentity(captured[j], snapshot[j])
      {
        if !SameIdentity(captured[i], snapshot[i]) {
          return false;
        }
      }
      return true;
    }

    /** Reads every captured block once more. */
    method CheckAllBlocks(snapshot: Snapshot) returns (ok: bool)
      requires Captured() && Met(clash)
      requires AllSame(captured, snapshot)
      modifies `clash
      ensures Met(clash)
      ensures Unwritten(captured, snapshot) ==> ok && clash == old(clash)
      ensures old(clash).Some? ==> clash == old(clash)
      ensures ok && clash.None? ==> Unwritten(captured, snapshot)
    {
      hide BlockOf, BlockEnd, MatchesBlock, IsClash, Blocks;
      for i := 0 to 3
        invariant Met(clash)
        invariant Unwritten(captured, snapshot) ==> clash == old(clash)
        invariant old(clash).Some? ==> clash == old(clash)
        invariant clash.None? ==>
                    forall j | 0 <= j < i :: Holds(ContentsOf(captured[j]), ContentsOf(snapshot[j]))
      {
        ok := CheckFile(ContentsOf(snapshot[i]), i);
        if !ok {
          return;
        }
      }
      ok := true;
    }

    method CheckFile(now: Bytes, i: nat) returns (ok: bool)
      requires Captured() && Met(clash) && i < 3 && |ContentsOf(captured[i])| <= |now|
      modifies `clash
      ensures Met(clash)
      ensures Holds(ContentsOf(captured[i]), now) ==> ok && clash == old(clash)
      ensures old(clash).Some? ==> clash == old(clash)
      ensures ok && clash.None? ==> Holds(ContentsOf(captured[i]), now)
    {
      for b := 0 to |digests[i]|
        invariant Met(clash)
        invariant Holds(ContentsOf(captured[i]), now) ==> clash == old(clash)
        invariant old(clash).Some? ==> clash == old(clash)
        invariant clash.None? ==> forall c | 0 <= c < b :: HoldsBlock(ContentsOf(captured[i]), now, c)
      {
        var _, read := Block(now, i, b);
        if !read {
          return false;
        }
      }
      if clash.None? {
        BlocksHold(ContentsOf(captured[i]), now);
      }
      return true;
    }

    /** Reads a page of the current file, with its identity checked before and after, and all blocks at the end. */
    method ServePage(snapshot: Snapshot, current: Snapshot, final: Snapshot, limit: nat) returns (page: Page, ok: bool)
      requires Ready() && !complete && limit > 0
      modifies this
      ensures unchanged(`file, `live, `sequence, `previous, `last, `complete)
      ensures Unwritten(captured, snapshot) && Unwritten(captured, current) && Unwritten(captured, final) ==>
                ok && clash == old(clash)
      ensures old(clash).Some? ==> clash == old(clash)
      ensures ok ==>
                && Valid() && page.file == file && page.next == None
                && PageFollows(h, isObject, Contents(), old(served), page, limit, clash)
                && (page.complete <==> page.fileComplete && file == 2)
                && (page.fileComplete <==> offset == |Contents()|)
                && (page.complete && clash.None? ==> Unwritten(captured, current))
                && (page.fileComplete || InLine()) && served == old(served) + page.data
      ensures ok ==> AllSame(captured, snapshot) && AllSame(captured, current) && (page.complete ==> AllSame(captured, final))
    {
      hide RecordsOf, Listed, SplitLines, Join, IsClash, BlockOf, Blocks, HoldsDigests, Holds, SameIdentity, AllSame;
      page := Page(file, offset, [], [], false, false, false, None);
      var same := CheckIdentity(snapshot);
      if !same {
        return page, false;
      }
      var data, records, read := ReadPage(ContentsOf(snapshot[file]), limit);
      if !read {
        return page, false;
      }
      var fileComplete := offset == |Contents()|;
      page := page.(data := data, records := records, pendingLine := lineBytes > 0,
                    fileComplete := fileComplete, complete := fileComplete && file == 2);
      same := CheckIdentity(current);
      if !same {
        return page, false;
      }
      if page.complete {
        var intact := CheckAllBlocks(current);
        if !intact {
          return page, false;
        }
        same := CheckIdentity(final);
      }
      ok := same;
    }

    /** Goes on to the next file, with nothing of it read. */
    method NextFile()
      requires file < 2 && Met(clash)
      modifies `file, `offset, `lineOffset, `lineBytes, `cache, `line, `cacheBlock, `lineHash, `served
      ensures file == old(file) + 1 && offset == 0 && served == []
      ensures Valid() && InLine()
    {
      file := file + 1;
      offset, lineOffset, lineBytes := 0, 0, 0;
      cache, line, cacheBlock, lineHash := [], [], None, [];
      served := [];
    }

    /** Keeps a page as the latest one answered, and goes on to the next file after the end of one. */
    method KeepPage(cursor: Option<nat>, read: Page) returns (page: Page)
      requires Captured() && Valid() && !complete && read.next == None && read.file == file
      requires (read.complete <==> read.fileComplete && file == 2) && (read.fileComplete <==> offset == |Contents()|)
      requires read.fileComplete || InLine()
      modifies this
      ensures Ready() && unchanged(`live, `clash)
      ensures complete == read.complete && last == Some(page) && previous == cursor && sequence == old(sequence) + 1
      ensures page == read.(next := if complete then None else Some(sequence))
      ensures file == (if read.fileComplete && !complete then old(file) + 1 else old(file))
      ensures served == (if read.fileComplete && !complete then [] else old(served))
    {
      hide Met, Served, Cached, LineOf, Captured, ContentsOf;
      page := read;
      previous := cursor;
      sequence := sequence + 1;
      complete := page.complete;
      if !complete {
        if page.fileComplete {
          NextFile();
        }
        page := page.(next := Some(sequence));
      }
      last := Some(page);
    }

    /** One page more, unless a file is seen to have changed; the export is over then. */
    method TurnPage(cursor: Option<nat>, snapshot: Snapshot, current: Snapshot, final: Snapshot, limit: nat)
      returns (answer: Answer)
      requires Ready() && live && !complete && limit > 0
      modifies this
      ensures if live then answer.Answered? else answer == Changed
      ensures Unwritten(captured, snapshot) && Unwritten(captured, current) && Unwritten(captured, final) ==>
                answer.Answered? && clash == old(clash)
      ensures old(clash).Some? ==> clash == old(clash)
      ensures answer.Answered? ==>
                Ready() && Turned(old(file), old(served), old(sequence), cursor, answer.page, limit, current)
      ensures answer.Answered? ==>
                && AllSame(captured, snapshot) && AllSame(captured, current)
                && (answer.page.complete ==> AllSame(captured, final))
    {
      hide RecordsOf, Listed, SplitLines, CompleteLines, Tail, Join, IsClash, Met, Served, Cached, LineOf,
           BlockOf, Blocks, HoldsDigests, Captured, Holds, SameIdentity, AllSame, Unwritten, ContentsOf, PageFollows, InLine,
           Valid;
      ghost var contents, before := Contents(), served;
      var page, ok := ServePage(snapshot, current, final, limit);
      if !ok {
        live := false;
        return Changed;
      }
      ghost var unturned := page;
      page := KeepPage(cursor, page);
      if !complete {
        WithNext(h, isObject, contents, before, unturned, limit, clash, sequence);
      }
      answer := Answered(page);
    }

    /**
     Answers a request for a page: the first one with no cursor, every later one with the cursor of the latest
     page. The cursor answered last is answered again as it was, and any other is refused; neither reads anything.
     */
    method Answer(cursor: Option<nat>, snapshot: Snapshot, current: Snapshot, final: Snapshot, limit: int)
      returns (answer: Answer)
      requires Ready() && (live ==> (cursor.None? <==> last.None?))
      modifies this
      ensures limit < 1 || limit > MAX_WIRE_PAGE ==> answer == PageBytesRefused && unchanged(this)
      ensures 1 <= limit <= MAX_WIRE_PAGE && !old(live) ==> answer == CursorRefused && unchanged(this)
      ensures 1 <= limit <= MAX_WIRE_PAGE && old(live) && cursor.Some? && cursor == old(previous) ==>
                answer == Answered(old(last).value) && unchanged(this)
      ensures 1 <= limit <= MAX_WIRE_PAGE && old(live) && cursor.Some? && cursor != old(previous)
              && (old(complete) || cursor.value != old(sequence))
              ==> answer == CursorRefused && unchanged(this)
      ensures 1 <= limit <= MAX_WIRE_PAGE && old(live) && !old(complete)
              && (cursor.None? || (cursor != old(previous) && cursor.value == old(sequence)))
              ==>
                && (answer == Changed || answer.Answered?) && (answer.Answered? ==> Ready() && live)
                && (answer.Answered? ==>
                      && Turned(old(file), old(served), old(sequence), cursor, answer.page, limit, current)
                      && AllSame(captured, snapshot) && AllSame(captured, current)
                      && (answer.page.complete ==> AllSame(captured, final)))
                && (Unwritten(captured, snapshot) && Unwritten(captured, current) && Unwritten(captured, final) ==>
                      answer.Answered? && clash == old(clash))
    {
      hide Captured, Valid, InLine, Turned, Unwritten, AllSame, Contents;
      if limit < 1 || limit > MAX_WIRE_PAGE {
        return PageBytesRefused;
      }
      if !live {
        return CursorRefused;
      }
      if cursor.Some? {
        if cursor == previous {
          return Answered(last.value);
        }
        if complete || cursor.value != sequence {
          return CursorRefused;
        }
      }
      answer := TurnPage(cursor, snapshot, current, final, limit);
    }
  }

  // ----- Every page -----

  /** What a whole export of one file comes to: its bytes, and a record of each of its lines. */
  datatype Exported = Exported(data: Bytes, records: seq<LineRecord>)

  function ExportOf(h: Hash, isObject: Decoder, contents: Bytes): Exported {
    Exported(contents, Listed(h, isObject, contents, true))
  }

  /** A record tells of these bytes, which stand at its offset: their length, digest, what was made of them, and them. */
  ghost predicate Tells(h: Hash, isObject: Decoder, file: Bytes, record: LineRecord, line: Bytes, ended: bool) {
    && record.offset + |line| <= |file| && file[record.offset..record.offset + |line|] == line
    && record.bytes == |line| && record.digest == h(line)
    && (record.status == Incomplete <==> !ended)
    && (record.status == Oversized <==> ended && |line| > 65536)
    && (record.status == Parsed <==>
          ended && |line| <= 65536 && ValidUtf8(line) && isObject(line) && AllPaired(Escapes(line, 0, false)))
    && (record.raw == if |line| <= 65536 then Some(line) else None)
  }

  /** The records tell of each complete line in order, and then of what follows the last newline, if anything does. */
  ghost predicate TellsAll(h: Hash, isObject: Decoder, file: Bytes, records: seq<LineRecord>) {
    var lines, tail := CompleteLines(file), Tail(file);
    && |records| == |lines| + (if tail == [] then 0 else 1)
    && (forall i | 0 <= i < |lines| ::
          records[i].offset == |Join(lines[..i])| && Tells(h, isObject, file, records[i], lines[i], true))
    && (tail != [] ==>
          records[|lines|].offset == |file| - |tail| && Tells(h, isObject, file, records[|lines|], tail, false))
  }

  lemma RecordTells(h: Hash, isObject: Decoder, file: Bytes, line: Bytes, offset: nat, incomplete: bool)
    requires offset + |line| <= |file| && file[offset..offset + |line|] == line
    ensures Tells(h, isObject, file, RecordOf(h, isObject, line, offset, incomplete), line, !incomplete)
  {
    hide ValidUtf8, AllPaired, Escapes;
  }

  /** A whole export's records tell of every line of its file. */
  lemma ExportTells(h: Hash, isObject: Decoder, file: Bytes)
    ensures TellsAll(h, isObject, file, ExportOf(h, isObject, file).records)
  {
    hide RecordOf, Tells, CompleteLines, Tail, Join;
    var lines, tail := CompleteLines(file), Tail(file);
    JoinOfSplit(file);
    Listing(h, isObject, lines);
    forall i | 0 <= i < |lines|
      ensures RecordsOf(h, isObject, lines)[i].offset == |Join(lines[..i])|
      ensures Tells(h, isObject, file, RecordsOf(h, isObject, lines)[i], lines[i], true)
    {
      EachLineListed(h, isObject, lines, tail, i);
      RecordTells(h, isObject, file, lines[i], |Join(lines[..i])|, false);
      OffsetOf(h, isObject, lines[i], |Join(lines[..i])|, false);
    }
    if tail != [] {
      assert file[|Join(lines)|..|Join(lines)| + |tail|] == tail;
      RecordTells(h, isObject, file, tail, |Join(lines)|, true);
      OffsetOf(h, isObject, tail, |Join(lines)|, true);
    }
  }

  lemma OffsetOf(h: Hash, isObject: Decoder, line: Bytes, offset: nat, incomplete: bool)
    ensures RecordOf(h, isObject, line, offset, incomplete).offset == offset
  {
  }

  /**
   Following the cursor each page answers, on files that are not written meanwhile and whatever size is asked of
   each page, ends, and the pages of each file join to its bytes and to the records of all its lines. A file too
   long is refused before anything is answered.
   */
  method AllPages(h: Hash, isObject: Decoder, files: Snapshot, sizes: nat -> nat) returns (exported: Option<seq<Exported>>)
    requires forall n :: 1 <= sizes(n) <= MAX_WIRE_PAGE
    ensures exported.None? <==> exists i | 0 <= i < 3 :: |ContentsOf(files[i])| > MAX_WIRE_FILE
    ensures exported.Some? ==>
              exported.value == seq(3, i requires 0 <= i < 3 => ExportOf(h, isObject, ContentsOf(files[i])))
    ensures exported.Some? ==>
              forall i | 0 <= i < 3 ::
                && exported.value[i].data == ContentsOf(files[i])
                && TellsAll(h, isObject, ContentsOf(files[i]), exported.value[i].records)
  {
    hide RecordsOf, Listed, SplitLines, CompleteLines, WireExport.Ready, PageFollows, Unwritten, ExportOf, ContentsOf,
         TellsAll;
    if |ContentsOf(files[0])| > MAX_WIRE_FILE || |ContentsOf(files[1])| > MAX_WIRE_FILE
       || |ContentsOf(files[2])| > MAX_WIRE_FILE {
      return None;
    }
    var wire := new WireExport(h, isObject, files);
    var done: seq<Exported>, data: Bytes, records: seq<LineRecord> := [], [], [];
    var cursor: Option<nat> := None;
    var more := true;
    NothingListed(h, isObject);
    StaysUnwritten(files);
    while more
      invariant wire.Ready() && wire.live && wire.clash == None && fresh(wire)
      invariant wire.h == h && wire.isObject == isObject && wire.captured == files
      invariant wire.file < 3 && more == !wire.complete && |done| == if more then wire.file else 3
      invariant forall i | 0 <= i < |done| :: done[i] == ExportOf(h, isObject, ContentsOf(files[i]))
      invariant more ==> data == wire.served && records == RecordsOf(h, isObject, CompleteLines(data))
      invariant more ==> (cursor.None? <==> wire.last.None?)
      invariant more && cursor.Some? ==> cursor.value == wire.sequence
      invariant wire.previous.Some? ==> wire.previous.value < wire.sequence
      decreases more, 3 - wire.file, |ContentsOf(files[wire.file])| - |data|
    {
      ghost var contents, served := ContentsOf(files[wire.file]), data;
      var limit := sizes(wire.sequence);
      var answer := wire.Answer(cursor, files, files, files, limit);
      data := data + answer.page.data;
      records := records + answer.page.records;
      PageListed(h, isObject, contents, served, answer.page, limit, data);
      if answer.page.fileComplete {
        done := done + [Exported(data, records)];
        data, records := [], [];
      }
      cursor, more := answer.page.next, !answer.page.complete;
    }
    exported := Some(done);
    forall i | 0 <= i < 3
      ensures done[i].data == ContentsOf(files[i]) && TellsAll(h, isObject, ContentsOf(files[i]), done[i].records)
    {
      ExportTells(h, isObject, ContentsOf(files[i]));
      ExportsData(h, isObject, ContentsOf(files[i]));
    }
  }

  lemma ExportsData(h: Hash, isObject: Decoder, contents: Bytes)
    ensures ExportOf(h, isObject, contents).data == contents
  {
  }

  lemma StaysUnwritten(files: Snapshot)
    ensures Unwritten(files, files)
  {
  }

  lemma NothingListed(h: Hash, isObject: Decoder)
    ensures RecordsOf(h, isObject, CompleteLines([])) == []
  {
  }

  /** A page lists on: to all of a file that ends with it, to its complete lines so far otherwise. */
  lemma PageListed(h: Hash, isObject: Decoder, contents: Bytes, served: Bytes, page: Page,
                   limit: nat, data: Bytes)
    requires PageFollows(h, isObject, contents, served, page, limit, None) && data == served + page.data
    ensures page.fileComplete ==>
              ExportOf(h, isObject, contents) ==
              Exported(data, RecordsOf(h, isObject, CompleteLines(served)) + page.records)
    ensures !page.fileComplete ==>
              && |served| < |data| < |contents|
              && RecordsOf(h, isObject, CompleteLines(data)) ==
                 RecordsOf(h, isObject, CompleteLines(served)) + page.records
  {
    hide RecordsOf, SplitLines;
    if page.fileComplete {
      assert data == contents;
    } else {
      assert RecordsOf(h, isObject, CompleteLines(data)) + [] == RecordsOf(h, isObject, CompleteLines(data));
    }
  }
}
