/**
 The stamps file, which keeps each time stamp asked for. Whatever is asked again, and wherever a write is cut off,
 no checkpoint is ever stamped twice there, and no stamp once kept is lost.
 */
module StampFile {
  import opened Octets
  import opened Decimal
  import opened Json
  import opened Chain
  import opened Reading
  import opened Checkpoints
  import opened Records
  import opened Runs
  import Sidecar

  /** Bounds on one line, its newline with it when it is written, and on the whole file. */
  const MAX_STAMP_LINE: nat := 2097152
  const MAX_STAMPS: nat := 67108864

  const CHECKPOINT: Bytes := "checkpoint"
  const CHECKPOINT_VERSION: Bytes := "checkpointVersion"
  const RECORD_DIGEST: Bytes := "recordDigest"
  const STAMP_VERSION: Bytes := "stampVersion"
  const TOKEN: Bytes := "token"

  // ----- One line -----

  datatype Stamp = Stamp(checkpoint: Checkpoint, token: Bytes)

  predicate IsCheckpoint(c: Checkpoint) {
    IsIdentity(c.trail) && 1 <= c.sequence < MAX_SAFE_INTEGER && IsDigest(c.digest)
  }

  predicate IsToken(token: Bytes) { token != [] && AllPlain(token) }

  function CheckpointMembers(c: Checkpoint): Members {
    Member(CHECKPOINT_VERSION, Text(VERSION), Member(RECORD_DIGEST, Text(c.digest),
      Member(SEQUENCE, Number(FromNat(c.sequence)), Member(TRAIL, Text(c.trail), End))))
  }

  /** The checkpoint an object is, when it has the members of one and no others. */
  function CheckpointIn(ms: Members): Option<Checkpoint> {
    match (TextAt(ms, TRAIL), IntegerAt(ms, SEQUENCE), TextAt(ms, RECORD_DIGEST))
    case (Some(trail), Some(sequence), Some(digest)) =>
      var c := Checkpoint(trail, sequence, digest);
      if NamedOnce(ms) && |Names(ms)| == 4 && TextAt(ms, CHECKPOINT_VERSION) == Some(VERSION) && IsCheckpoint(c)
      then Some(c) else None
    case _ => None
  }

  function StampMembers(stamp: Stamp): Members {
    Member(CHECKPOINT, Object(CheckpointMembers(stamp.checkpoint)),
      Member(STAMP_VERSION, Text(VERSION), Member(TOKEN, Text(stamp.token), End)))
  }

  function StampIn(ms: Members): Option<Stamp> {
    match (ObjectAt(ms, CHECKPOINT), TextAt(ms, TOKEN))
    case (Some(inner), Some(token)) =>
      if |Names(ms)| == 3 && TextAt(ms, STAMP_VERSION) == Some(VERSION) && token != [] && CheckpointIn(inner).Some?
      then Some(Stamp(CheckpointIn(inner).value, token)) else None
    case _ => None
  }

  function ParseStamp(line: Bytes): Option<Stamp> {
    if line == [] || |line| > MAX_STAMP_LINE then None
    else
      match ReadObject(line)
      case None => None
      case Some(ms) => StampIn(ms)
  }

  /** A stamp's line, without the newline that ends it. */
  function StampLine(stamp: Stamp): Bytes { Encode(Object(StampMembers(stamp))) }

  lemma StampNamesDiffer()
    ensures CHECKPOINT_VERSION != RECORD_DIGEST && CHECKPOINT_VERSION != SEQUENCE && CHECKPOINT_VERSION != TRAIL
    ensures RECORD_DIGEST != SEQUENCE && RECORD_DIGEST != TRAIL && SEQUENCE != TRAIL
    ensures CHECKPOINT != STAMP_VERSION && CHECKPOINT != TOKEN && STAMP_VERSION != TOKEN
    ensures forall name | name in [CHECKPOINT, CHECKPOINT_VERSION, RECORD_DIGEST, SEQUENCE, TRAIL, STAMP_VERSION, TOKEN] ::
              AllPlain(name)
    ensures AllPlain(VERSION)
  {
    assert CHECKPOINT_VERSION[0] == 'c' && RECORD_DIGEST[0] == 'r' && SEQUENCE[0] == 's' && TRAIL[0] == 't';
    assert CHECKPOINT[0] == 'c' && STAMP_VERSION[0] == 's' && TOKEN[0] == 't';
  }

  lemma CheckpointReads(c: Checkpoint)
    requires IsCheckpoint(c)
    ensures ValidMembers(CheckpointMembers(c)) && CheckpointIn(CheckpointMembers(c)) == Some(c)
  {
    hide IsDigest, IsIdentity, ValidMembers, NamedOnce, Names, Lookup, AllPlain;
    IdentityIsPlain(c.trail);
    IdentityIsPlain(c.digest);
    ReadsBack(c.sequence);
    StampNamesDiffer();
    NoMembers();
    var trail := Member(TRAIL, Text(c.trail), End);
    OneMore(TRAIL, Text(c.trail), End);
    var sequence := Member(SEQUENCE, Number(FromNat(c.sequence)), trail);
    OneMore(SEQUENCE, Number(FromNat(c.sequence)), trail);
    var digest := Member(RECORD_DIGEST, Text(c.digest), sequence);
    OneMore(RECORD_DIGEST, Text(c.digest), sequence);
    OneMore(CHECKPOINT_VERSION, Text(VERSION), digest);
  }

  lemma StampMembersRead(stamp: Stamp)
    requires IsCheckpoint(stamp.checkpoint) && IsToken(stamp.token)
    ensures var ms := StampMembers(stamp);
            ValidMembers(ms) && NamedOnce(ms) && StampIn(ms) == Some(stamp)
  {
    hide CheckpointIn, CheckpointMembers, IsCheckpoint, ValidMembers, NamedOnce, Names, Lookup, AllPlain;
    CheckpointReads(stamp.checkpoint);
    StampNamesDiffer();
    NoMembers();
    var token := Member(TOKEN, Text(stamp.token), End);
    OneMore(TOKEN, Text(stamp.token), End);
    var version := Member(STAMP_VERSION, Text(VERSION), token);
    OneMore(STAMP_VERSION, Text(VERSION), token);
    ValueIsValid(CheckpointMembers(stamp.checkpoint));
    OneMore(CHECKPOINT, Object(CheckpointMembers(stamp.checkpoint)), version);
  }

  /** A stamp that fits its line reads back. */
  lemma StampReads(stamp: Stamp)
    requires IsCheckpoint(stamp.checkpoint) && IsToken(stamp.token)
    ensures '\n' !in StampLine(stamp)
    ensures |StampLine(stamp)| <= MAX_STAMP_LINE ==> ParseStamp(StampLine(stamp)) == Some(stamp)
  {
    hide ReadValue, NamedOnce, ValidMembers, StampIn, StampMembers, CheckpointMembers;
    var ms := StampMembers(stamp);
    StampMembersRead(stamp);
    ObjectReadsBack(ms, []);
    assert StampLine(stamp) + [] == StampLine(stamp);
    ValueIsValid(ms);
    EncodedIsPrintable(Object(ms));
  }

  // ----- Whether a checkpoint is stamped -----

  /** Whether a token is a time stamp over a checkpoint's digest: for a parser of tokens to say. */
  type Imprint = (Bytes, Checkpoint) -> bool

  predicate IsOver(over: Imprint, token: Bytes, c: Checkpoint) { over(token, c) }

  predicate Stamps(over: Imprint, line: Bytes, c: Checkpoint) {
    var parsed := ParseStamp(line);
    parsed.Some? && parsed.value.checkpoint == c && IsOver(over, parsed.value.token, c)
  }

  ghost predicate Held(over: Imprint, lines: seq<Bytes>, c: Checkpoint) {
    exists i :: 0 <= i < |lines| && Stamps(over, lines[i], c)
  }

  /** Takes a line or the rest, piece by piece; past the bound its bytes are dropped but still consumed. */
  method ReadBoundedLine(contents: Bytes, offset: nat)
    returns (line: Bytes, terminated: bool, next: nat, ghost text: Bytes)
    requires offset <= |contents|
    ensures offset <= next <= |contents| && '\n' !in text
    ensures contents[offset..next] == if terminated then text + ['\n'] else text
    ensures !terminated ==> next == |contents|
    ensures line == if |text| > MAX_STAMP_LINE then [] else text
  {
    line, terminated, text, next := [], false, [], offset;
    var overlong, full := false, true;
    while full
      invariant offset <= next <= |contents| && '\n' !in text
      invariant contents[offset..next] == if terminated then text + ['\n'] else text
      invariant full ==> !terminated
      invariant !full && !terminated ==> next == |contents|
      invariant overlong == (|text| > MAX_STAMP_LINE) && (!overlong ==> line == text) && (overlong ==> line == [])
      decreases |contents| - next, full
    {
      var piece, after;
      piece, full, after := ReadSlice(contents, next);
      assert contents[offset..after] == contents[offset..next] + piece;
      next := after;
      if piece != [] && piece[|piece| - 1] == '\n' {
        piece, terminated := piece[..|piece| - 1], true;
      }
      assert '\n' !in piece;
      text := text + piece;
      if !overlong && |line| + |piece| > MAX_STAMP_LINE {
        overlong := true;
      }
      line := if overlong then [] else line + piece;
    }
  }

  method HoldsStamp(over: Imprint, contents: Bytes, c: Checkpoint) returns (held: bool)
    ensures held <==> Held(over, CompleteLines(contents), c)
  {
    hide SplitLines, Join, StampIn;
    var offset := 0;
    ghost var read: seq<Bytes> := [];
    EmptyJoin();
    while true
      invariant 0 <= offset <= |contents| && AreLines(read) && contents[..offset] == Join(read)
      invariant !Held(over, read, c)
      decreases |contents| - offset
    {
      var line, terminated, next, text := ReadBoundedLine(contents, offset);
      assert contents[..next] == contents[..offset] + contents[offset..next];
      if !terminated {
        assert contents == Join(read) + text;
        SplitOfJoin(read, text);
        return false;
      }
      LineAfter(contents, read, offset, text, next);
      var parsed := ParseStamp(line);
      if parsed.Some? && parsed.value.checkpoint == c && IsOver(over, parsed.value.token, c) {
        assert Stamps(over, CompleteLines(contents)[|read|], c);
        return true;
      }
      read := read + [text];
      offset := next;
    }
  }

  lemma LineAfter(contents: Bytes, read: seq<Bytes>, offset: nat, text: Bytes, next: nat)
    requires offset <= next <= |contents| && AreLines(read) && '\n' !in text
    requires contents[..offset] == Join(read) && contents[offset..next] == text + ['\n']
    ensures contents[..next] == Join(read + [text])
    ensures |read| < |CompleteLines(contents)| && CompleteLines(contents)[|read|] == text
  {
    hide SplitLines, Join;
    JoinSnoc(read, text);
    Regroup(Join(read), text, ['\n']);
    assert contents[..next] == contents[..offset] + contents[offset..next];
    assert contents == contents[..next] + contents[next..];
    SplitOfJoin(read + [text], []);
    assert Join(read + [text]) + [] == Join(read + [text]);
    SplitAppend(contents[..next], contents[next..]);
  }

  // ----- Recording -----

  datatype Recorded = StampTooLarge | StampsTooLarge | AlreadyHeld | Appended(data: Bytes)

  /** What ends a line that a write left without its newline, ahead of the new one. */
  function EndOfTorn(contents: Bytes): Bytes {
    if contents != [] && contents[|contents| - 1] != '\n' then Sidecar.TORN_LINE_END else []
  }

  /** What recording a stamp appends, if anything. */
  ghost function RecordOf(over: Imprint, contents: Bytes, stamp: Stamp): Recorded {
    var data := EndOfTorn(contents) + (StampLine(stamp) + ['\n']);
    if |StampLine(stamp)| + 1 > MAX_STAMP_LINE then StampTooLarge
    else if |contents| > MAX_STAMPS then StampsTooLarge
    else if Held(over, CompleteLines(contents), stamp.checkpoint) then AlreadyHeld
    else if |contents| + |data| > MAX_STAMPS then StampsTooLarge
    else Appended(data)
  }

  method RecordStamp(over: Imprint, contents: Bytes, stamp: Stamp) returns (r: Recorded)
    ensures r == RecordOf(over, contents, stamp)
  {
    hide StampLine, CompleteLines, Held;
    var line := StampLine(stamp) + ['\n'];
    if |line| > MAX_STAMP_LINE {
      return StampTooLarge;
    }
    if |contents| > MAX_STAMPS {
      return StampsTooLarge;
    }
    var held := HoldsStamp(over, contents, stamp.checkpoint);
    if held {
      return AlreadyHeld;
    }
    if |contents| > 0 {
      if contents[|contents| - 1] != '\n' {
        line := Sidecar.TORN_LINE_END + line;
      }
    }
    assert line == EndOfTorn(contents) + (StampLine(stamp) + ['\n']);
    if |line| > MAX_STAMPS - |contents| {
      return StampsTooLarge;
    }
    return Appended(line);
  }

  // ----- Every run -----

  /** One stamp recorded, by a write cut off after so many bytes. */
  datatype Attempt = Attempt(stamp: Stamp, cut: nat)

  predicate IsAttempt(a: Attempt) { IsCheckpoint(a.stamp.checkpoint) && IsToken(a.stamp.token) }

  ghost function Exec(over: Imprint, file: Bytes, a: Attempt): Bytes {
    match RecordOf(over, file, a.stamp)
    case Appended(data) => file + CutOff(data, a.cut)
    case _ => file
  }

  ghost function RunAttempts(over: Imprint, file: Bytes, attempts: seq<Attempt>): Bytes {
    if attempts == [] then file
    else Exec(over, RunAttempts(over, file, attempts[..|attempts| - 1]), attempts[|attempts| - 1])
  }

  ghost predicate StampedOnce(over: Imprint, lines: seq<Bytes>) {
    forall c: Checkpoint, i, j | 0 <= i < j < |lines| && Stamps(over, lines[i], c) :: !Stamps(over, lines[j], c)
  }

  lemma TornIsNoStamp(over: Imprint, torn: Bytes, c: Checkpoint)
    ensures !Stamps(over, torn + ['~'], c)
  {
    hide ReadValue, StampIn;
    Sidecar.ValueConsumes(torn + ['~']);
  }

  /** What a write adds: a torn line ended, and the new line if the write reached its newline. */
  lemma LinesWritten(file: Bytes, line: Bytes, cut: nat) returns (ended: bool, whole: bool)
    requires '\n' !in line
    ensures var data := EndOfTorn(file) + (line + ['\n']);
            CompleteLines(file + CutOff(data, cut)) ==
            CompleteLines(file) + (if ended then [Tail(file) + ['~']] else []) + (if whole then [line] else [])
            && (cut >= |data| ==> whole)
  {
    hide SplitLines;
    var torn := EndOfTorn(file);
    var data := torn + (line + ['\n']);
    TailAfterNewline(file);
    ended, whole := torn != [] && cut >= 2, cut >= |data|;
    var written := if torn == [] then cut else if cut >= 2 then cut - 2 else 0;
    var now := if ended then file + torn else file;
    assert ['~'] + ['\n'] == Sidecar.TORN_LINE_END;
    SplitWithMore(file, ['~']);
    if torn != [] && cut < 2 {
      SplitWithMore(file, if cut == 0 then [] else ['~']);
      assert CutOff(data, cut) == if cut == 0 then [] else ['~'];
    } else {
      assert CutOff(data, cut) == torn + CutOff(line + ['\n'], written);
      Regroup(file, torn, CutOff(line + ['\n'], written));
      assert torn == [] ==> file + torn == file;
      assert Tail(now) == [];
      if whole {
        SplitWithMore(now, line);
        assert [] + line == line;
      } else {
        assert CutOff(line + ['\n'], written) == line[..written];
        SplitWithMore(now, line[..written]);
      }
    }
  }

  /** A line that stamps nothing, or what no line before it does, leaves each checkpoint stamped once. */
  lemma OnceMore(over: Imprint, lines: seq<Bytes>, line: Bytes)
    requires StampedOnce(over, lines)
    requires forall c | Stamps(over, line, c) :: !Held(over, lines, c)
    ensures StampedOnce(over, lines + [line])
  {
    hide Stamps;
  }

  lemma ExecKeepsOnce(over: Imprint, file: Bytes, a: Attempt)
    requires IsAttempt(a) && StampedOnce(over, CompleteLines(file)) && |file| <= MAX_STAMPS
    ensures var now := Exec(over, file, a);
            && StampedOnce(over, CompleteLines(now)) && |now| <= MAX_STAMPS
            && CompleteLines(file) <= CompleteLines(now) && file <= now
  {
    hide SplitLines, ParseStamp, StampLine, StampedOnce, IsCheckpoint, IsToken;
    if RecordOf(over, file, a.stamp).Appended? {
      var line, lines := StampLine(a.stamp), CompleteLines(file);
      StampReads(a.stamp);
      var ended, whole := LinesWritten(file, line, a.cut);
      var more := if ended then lines + [Tail(file) + ['~']] else lines;
      if ended {
        forall c
          ensures !Stamps(over, Tail(file) + ['~'], c)
        {
          TornIsNoStamp(over, Tail(file), c);
        }
        OnceMore(over, lines, Tail(file) + ['~']);
      } else {
        assert lines + [] == lines;
      }
      assert forall c | Held(over, more, c) :: Held(over, lines, c);
      if whole {
        OnceMore(over, more, line);
      } else {
        assert more + [] == more;
      }
    }
  }

  /**
   Over every run of recorded stamps, each write cut off anywhere, no checkpoint is stamped by two lines, the file
   stays within its bound, and the lines that were complete stay as they were.
   */
  lemma {:induction false} RunsStampOnce(over: Imprint, file: Bytes, attempts: seq<Attempt>)
    requires StampedOnce(over, CompleteLines(file)) && |file| <= MAX_STAMPS
    requires forall a | a in attempts :: IsAttempt(a)
    ensures var now := RunAttempts(over, file, attempts);
            && StampedOnce(over, CompleteLines(now)) && |now| <= MAX_STAMPS
            && CompleteLines(file) <= CompleteLines(now)
  {
    hide StampedOnce, Exec, CompleteLines;
    if attempts != [] {
      var front := attempts[..|attempts| - 1];
      RunsStampOnce(over, file, front);
      ExecKeepsOnce(over, RunAttempts(over, file, front), attempts[|attempts| - 1]);
    }
  }

  /**
   Recording a stamp again: after a write that was not cut off nothing is appended a second time, exactly when the
   token is a stamp over the checkpoint it is kept with.
   */
  lemma RecordedOnce(over: Imprint, file: Bytes, stamp: Stamp, again: Bytes)
    requires IsCheckpoint(stamp.checkpoint) && IsToken(stamp.token) && IsToken(again)
    requires RecordOf(over, file, stamp).Appended?
    requires |StampLine(Stamp(stamp.checkpoint, again))| < MAX_STAMP_LINE
    ensures var now := file + RecordOf(over, file, stamp).data;
            RecordOf(over, now, Stamp(stamp.checkpoint, again)) == AlreadyHeld <==>
            IsOver(over, stamp.token, stamp.checkpoint)
  {
    hide SplitLines, ParseStamp, StampLine, IsCheckpoint, IsToken;
    var data, c, lines := RecordOf(over, file, stamp).data, stamp.checkpoint, CompleteLines(file);
    StampReads(stamp);
    var ended, whole := LinesWritten(file, StampLine(stamp), |data|);
    TornIsNoStamp(over, Tail(file), c);
    var now := CompleteLines(file + data);
    assert Stamps(over, StampLine(stamp), c) <==> IsOver(over, stamp.token, c);
    assert now[|now| - 1] == StampLine(stamp);
    assert forall i | 0 <= i < |lines| :: now[i] == lines[i];
    assert forall i | 0 <= i < |now| - 1 :: !Stamps(over, now[i], c);
  }

  // ----- A token kept with the wrong checkpoint -----

  /** A checkpoint and a token that fit any bound. */
  const SOME_STAMP: Stamp := Stamp(Checkpoint(Zeros(32), 1, ZeroDigest()), ['t'])

  lemma SomeStampIs()
    ensures IsCheckpoint(SOME_STAMP.checkpoint) && IsToken(SOME_STAMP.token)
    ensures |StampLine(SOME_STAMP)| <= 400
  {
    hide Encode, EncodeMembers, AllHex, IsHex, CheckpointMembers;
    SomeCheckpointSize();
    ObjectSize(CheckpointMembers(SOME_STAMP.checkpoint));
    ObjectSize(StampMembers(SOME_STAMP));
    TextSize(VERSION);
    TextSize(SOME_STAMP.token);
    var token := Member(TOKEN, Text(SOME_STAMP.token), End);
    var version := Member(STAMP_VERSION, Text(VERSION), token);
    assert Sidecar.SizeOf(token) <= 20;
    assert Sidecar.SizeOf(version) <= 50;
  }

  lemma SomeCheckpointSize()
    ensures CheckpointMembers(SOME_STAMP.checkpoint).Member?
    ensures Sidecar.SizeOf(CheckpointMembers(SOME_STAMP.checkpoint)) <= 200
  {
    hide Encode, AllHex, IsHex;
    var c := SOME_STAMP.checkpoint;
    TextSize(c.trail);
    TextSize(c.digest);
    TextSize(VERSION);
    var trail := Member(TRAIL, Text(c.trail), End);
    var sequence := Member(SEQUENCE, Number(FromNat(1)), trail);
    var digest := Member(RECORD_DIGEST, Text(c.digest), sequence);
    NumberSize(1);
    assert Sidecar.SizeOf(trail) <= 50;
    assert Sidecar.SizeOf(sequence) <= 70;
    assert Sidecar.SizeOf(digest) <= 170;
  }

  lemma NumberSize(n: nat)
    requires n < 10
    ensures |Encode(Number(FromNat(n)))| == 1
  {
  }

  lemma ObjectSize(ms: Members)
    requires ms.Member?
    ensures |Encode(Object(ms))| <= Sidecar.SizeOf(ms) + 1
  {
    hide Sidecar.SizeOf;
    Sidecar.EncodedSize(ms);
  }

  lemma TextSize(text: Bytes)
    ensures |Encode(Text(text))| == |text| + 2
  {
  }

  /** Such a token is kept and the checkpoint stays unstamped: recording it again keeps it again. */
  lemma RecordedAgain()
    ensures var over := (_: Bytes, _: Checkpoint) => false;
            && RecordOf(over, [], SOME_STAMP).Appended?
            && RecordOf(over, RecordOf(over, [], SOME_STAMP).data, SOME_STAMP).Appended?
  {
    hide StampLine, SplitLines, ParseStamp;
    SomeStampIs();
    var over := (_: Bytes, _: Checkpoint) => false;
    assert [] + (StampLine(SOME_STAMP) + ['\n']) == StampLine(SOME_STAMP) + ['\n'];
    assert EndOfTorn(StampLine(SOME_STAMP) + ['\n']) == [];
  }
}
