/**
 What is signed says what it is signed for: two messages are one only where all that they tell is the same, and a message
 about a record is never one about a rotation.
 */
module Messages {
  import opened Octets
  import opened Decimal
  import opened Json
  import opened Chain
  import opened Records
  import opened Checkpoints
  import opened Sidecar
  import opened Witness

  lemma Cancels(prefix: Bytes, a: Bytes, b: Bytes)
    requires prefix + a == prefix + b
    ensures a == b
  {
    assert (prefix + a)[|prefix|..] == a && (prefix + b)[|prefix|..] == b;
  }

  /** Two objects of plain members with one encoding are one object. */
  lemma OneReading(a: Members, b: Members)
    requires ValidMembers(a) && ValidMembers(b) && Encode(Object(a)) == Encode(Object(b))
    ensures a == b
  {
    hide Encode, ReadValue, ValidMembers;
    ValueIsValid(a);
    ValueIsValid(b);
    ValueReadsBack(Object(a), []);
    ValueReadsBack(Object(b), []);
    assert Encode(Object(a)) + [] == Encode(Object(a));
    assert Encode(Object(b)) + [] == Encode(Object(b));
  }

  lemma NumbersDiffer(m: nat, n: nat)
    requires FromNat(m) == FromNat(n)
    ensures m == n
  {
    ReadsBack(m);
    ReadsBack(n);
  }

  lemma ThreeAreValid(a: Bytes, x: Bytes, b: Bytes, n: nat, c: Bytes, y: Bytes)
    requires AllPlain(a) && AllPlain(x) && AllPlain(b) && AllPlain(c) && AllPlain(y)
    ensures ValidMembers(Member(a, Text(x), Member(b, Number(FromNat(n)), Member(c, Text(y), End))))
  {
    hide AllPlain;
    var last := Member(c, Text(y), End);
    assert ValidMembers(last.rest) && ValidValue(Text(x)) && ValidValue(Text(y)) && ValidValue(Number(FromNat(n)));
    assert ValidMembers(last);
    assert ValidMembers(Member(b, Number(FromNat(n)), last));
  }

  lemma RotatedAreValid(at: nat, next: Bytes, trail: Bytes)
    requires AllPlain(next) && AllPlain(trail)
    ensures ValidMembers(Member(AT, Number(FromNat(at)), Member(NEXT, Text(next), Member(TRAIL, Text(trail), End))))
  {
    hide AllPlain;
    SidecarNamesArePlain();
    var last := Member(NEXT, Text(next), Member(TRAIL, Text(trail), End));
    assert ValidValue(Text(next)) && ValidValue(Text(trail)) && ValidValue(Number(FromNat(at)));
    assert ValidMembers(last.rest);
    assert ValidMembers(last);
  }

  /** A record's message fixes its trail, its sequence and its digest. */
  lemma RecordMessageBinds(trail: Bytes, n: nat, record: Bytes, otherTrail: Bytes, otherN: nat, otherRecord: Bytes)
    requires AllPlain(trail) && AllPlain(record) && AllPlain(otherTrail) && AllPlain(otherRecord)
    requires RecordMessage(trail, n, record) == RecordMessage(otherTrail, otherN, otherRecord)
    ensures trail == otherTrail && n == otherN && record == otherRecord
  {
    hide AllPlain, Encode;
    SidecarNamesArePlain();
    ThreeAreValid(RECORD, record, SEQUENCE, n, TRAIL, trail);
    ThreeAreValid(RECORD, otherRecord, SEQUENCE, otherN, TRAIL, otherTrail);
    var a := Member(RECORD, Text(record), Member(SEQUENCE, Number(FromNat(n)), Member(TRAIL, Text(trail), End)));
    var b := Member(RECORD, Text(otherRecord),
                    Member(SEQUENCE, Number(FromNat(otherN)), Member(TRAIL, Text(otherTrail), End)));
    Cancels(RECORD_PREFIX, Encode(Object(a)), Encode(Object(b)));
    OneReading(a, b);
    NumbersDiffer(n, otherN);
  }

  /** A rotation's fixes its trail, its line and the next key. */
  lemma RotationMessageBinds(trail: Bytes, at: nat, next: Bytes, otherTrail: Bytes, otherAt: nat, otherNext: Bytes)
    requires AllPlain(trail) && AllPlain(next) && AllPlain(otherTrail) && AllPlain(otherNext)
    requires RotationMessage(trail, at, next) == RotationMessage(otherTrail, otherAt, otherNext)
    ensures trail == otherTrail && at == otherAt && next == otherNext
  {
    hide AllPlain, Encode;
    SidecarNamesArePlain();
    RotatedAreValid(at, next, trail);
    RotatedAreValid(otherAt, otherNext, otherTrail);
    var a := Member(AT, Number(FromNat(at)), Member(NEXT, Text(next), Member(TRAIL, Text(trail), End)));
    var b := Member(AT, Number(FromNat(otherAt)), Member(NEXT, Text(otherNext), Member(TRAIL, Text(otherTrail), End)));
    Cancels(ROTATION_PREFIX, Encode(Object(a)), Encode(Object(b)));
    OneReading(a, b);
    NumbersDiffer(at, otherAt);
  }

  /** No signature of a record is one of a rotation. */
  lemma KindsApart(trail: Bytes, n: nat, record: Bytes, otherTrail: Bytes, at: nat, next: Bytes)
    ensures RecordMessage(trail, n, record) != RotationMessage(otherTrail, at, next)
  {
    hide Encode;
    assert RECORD_PREFIX[22] == 'r' && ROTATION_PREFIX[22] == 'k';
    assert RecordMessage(trail, n, record)[22] == 'r' && RotationMessage(otherTrail, at, next)[22] == 'k';
  }

  // ----- A witness's statement -----

  predicate NoQuote(text: Bytes) { '"' !in text }

  lemma QuoteIn(a: Bytes, b: Bytes, x: Bytes, y: Bytes)
    requires |a| < |b| && a + (['"'] + x) == b + (['"'] + y)
    ensures !NoQuote(b)
  {
    assert (a + (['"'] + x))[|a|] == '"';
    assert (b + (['"'] + y))[|a|] == b[|a|];
  }

  lemma SameLength(a: Bytes, b: Bytes, x: Bytes, y: Bytes)
    requires |a| == |b| && a + x == b + y
    ensures a == b && x == y
  {
    assert (a + x)[..|a|] == a && (b + y)[..|b|] == b;
    assert (a + x)[|a|..] == x && (b + y)[|b|..] == y;
  }

  lemma QuoteEnds(a: Bytes, b: Bytes, x: Bytes, y: Bytes)
    requires NoQuote(a) && NoQuote(b) && a + (['"'] + x) == b + (['"'] + y)
    ensures a == b && x == y
  {
    if |a| < |b| {
      QuoteIn(a, b, x, y);
      assert false;
    } else if |b| < |a| {
      QuoteIn(b, a, y, x);
      assert false;
    } else {
      SameLength(a, b, ['"'] + x, ['"'] + y);
      Cancels(['"'], x, y);
    }
  }

  /** What follows a quoted text, and the text, are fixed by both together. */
  lemma QuotedBinds(a: Bytes, b: Bytes, x: Bytes, y: Bytes)
    requires NoQuote(a) && NoQuote(b) && Quoted(a) + x == Quoted(b) + y
    ensures a == b && x == y
  {
    assert Quoted(a) + x == ['"'] + (a + (['"'] + x));
    assert Quoted(b) + y == ['"'] + (b + (['"'] + y));
    Cancels(['"'], a + (['"'] + x), b + (['"'] + y));
    QuoteEnds(a, b, x, y);
  }

  lemma NumeralBinds(m: nat, n: nat, x: Bytes, y: Bytes)
    requires x != [] && y != [] && !IsDigit(x[0]) && !IsDigit(y[0]) && FromNat(m) + x == FromNat(n) + y
    ensures m == n && x == y
  {
    DigitsReadBack(FromNat(m), x);
    DigitsReadBack(FromNat(n), y);
    NumbersDiffer(m, n);
  }

  lemma FourRegrouped(a: Bytes, b: Bytes, c: Bytes, d: Bytes, x: Bytes)
    ensures a + b + c + d + x == a + (b + (c + (d + x)))
  {
    Regroup(a + b + c, d, x);
    Regroup(a + b, c, d + x);
    Regroup(a, b, c + (d + x));
  }

  function AfterSequence(c: Checkpoint, x: Bytes): Bytes { OF_TRAIL + (Quoted(c.trail) + x) }

  function AfterDigest(c: Checkpoint, x: Bytes): Bytes { OF_SEQUENCE + (FromNat(c.sequence) + AfterSequence(c, x)) }

  lemma CheckpointTextIs(c: Checkpoint, x: Bytes)
    ensures CheckpointText(c) + x == (OF_CHECKPOINT + OF_DIGEST) + (Quoted(c.digest) + AfterDigest(c, x))
  {
    hide Quoted, FromNat;
    var first := OF_CHECKPOINT + OF_DIGEST;
    var front := first + Quoted(c.digest);
    FourRegrouped(front + OF_SEQUENCE, FromNat(c.sequence), OF_TRAIL, Quoted(c.trail), x);
    Regroup(front, OF_SEQUENCE, FromNat(c.sequence) + AfterSequence(c, x));
    Regroup(first, Quoted(c.digest), AfterDigest(c, x));
  }

  lemma CommaNext(text: Bytes, rest: Bytes)
    requires text != [] && text[0] == ','
    ensures text + rest != [] && !IsDigit((text + rest)[0])
  {
  }

  lemma TrailBinds(c: Checkpoint, d: Checkpoint, x: Bytes, y: Bytes)
    requires NoQuote(c.trail) && NoQuote(d.trail) && AfterDigest(c, x) == AfterDigest(d, y)
    ensures c.sequence == d.sequence && c.trail == d.trail && x == y
  {
    hide Quoted, FromNat, NoQuote;
    CommaNext(OF_TRAIL, Quoted(c.trail) + x);
    CommaNext(OF_TRAIL, Quoted(d.trail) + y);
    Cancels(OF_SEQUENCE, FromNat(c.sequence) + AfterSequence(c, x), FromNat(d.sequence) + AfterSequence(d, y));
    NumeralBinds(c.sequence, d.sequence, AfterSequence(c, x), AfterSequence(d, y));
    Cancels(OF_TRAIL, Quoted(c.trail) + x, Quoted(d.trail) + y);
    QuotedBinds(c.trail, d.trail, x, y);
  }

  /** Whatever follows, a checkpoint's text fixes the checkpoint and what follows. */
  lemma CheckpointTextBinds(c: Checkpoint, d: Checkpoint, x: Bytes, y: Bytes)
    requires NoQuote(c.digest) && NoQuote(c.trail) && NoQuote(d.digest) && NoQuote(d.trail)
    requires CheckpointText(c) + x == CheckpointText(d) + y
    ensures c == d && x == y
  {
    hide Quoted, NoQuote, CheckpointText, AfterDigest;
    CheckpointTextIs(c, x);
    CheckpointTextIs(d, y);
    Cancels(OF_CHECKPOINT + OF_DIGEST, Quoted(c.digest) + AfterDigest(c, x), Quoted(d.digest) + AfterDigest(d, y));
    QuotedBinds(c.digest, d.digest, AfterDigest(c, x), AfterDigest(d, y));
    TrailBinds(c, d, x, y);
  }

  lemma KindBinds(a: Kind, b: Kind, x: Bytes, y: Bytes)
    requires Quoted(KindName(a)) + x == Quoted(KindName(b)) + y
    ensures a == b && x == y
  {
    hide Quoted;
    assert CHECKPOINT[1] == 'h' && CONFLICT[1] == 'o' && RETIREMENT[1] == 'e';
    assert NoQuote(CHECKPOINT) && NoQuote(CONFLICT) && NoQuote(RETIREMENT);
    QuotedBinds(KindName(a), KindName(b), x, y);
  }

  function PrevText(prev: Bytes): Bytes { if prev == [] then NULL else Quoted(prev) }

  lemma PrevBinds(a: Bytes, b: Bytes, x: Bytes, y: Bytes)
    requires NoQuote(a) && NoQuote(b) && PrevText(a) + x == PrevText(b) + y
    ensures a == b && x == y
  {
    hide NoQuote;
    assert NULL[0] == 'n';
    assert a != [] ==> (PrevText(a) + x)[0] == '"';
    assert b != [] ==> (PrevText(b) + y)[0] == '"';
    assert a == [] ==> (PrevText(a) + x)[0] == 'n';
    assert b == [] ==> (PrevText(b) + y)[0] == 'n';
    if a == [] {
      Cancels(NULL, x, y);
    } else {
      QuotedBinds(a, b, x, y);
    }
  }

  function AfterKind(a: Statement, x: Bytes): Bytes { OF_PREV + (PrevText(a.prev) + x) }

  function AfterKey(a: Statement, x: Bytes): Bytes { OF_KIND + (Quoted(KindName(a.kind)) + AfterKind(a, x)) }

  function AfterIndex(a: Statement, x: Bytes): Bytes { OF_KEY_ID + (Quoted(a.keyId) + AfterKey(a, x)) }

  lemma LinkTextIs(a: Statement, x: Bytes)
    ensures LinkText(a) + x == OF_INDEX + (FromNat(a.index) + AfterIndex(a, x))
  {
    hide Quoted, FromNat, KindName;
    var front := OF_INDEX + FromNat(a.index);
    var upTo := front + OF_KEY_ID + Quoted(a.keyId);
    FourRegrouped(upTo + OF_KIND, Quoted(KindName(a.kind)), OF_PREV, PrevText(a.prev), x);
    Regroup(upTo, OF_KIND, Quoted(KindName(a.kind)) + AfterKind(a, x));
    Regroup(front + OF_KEY_ID, Quoted(a.keyId), AfterKey(a, x));
    Regroup(front, OF_KEY_ID, Quoted(a.keyId) + AfterKey(a, x));
    Regroup(OF_INDEX, FromNat(a.index), AfterIndex(a, x));
  }

  lemma KeyBinds(a: Statement, b: Statement, x: Bytes, y: Bytes)
    requires NoQuote(a.keyId) && NoQuote(b.keyId) && AfterIndex(a, x) == AfterIndex(b, y)
    ensures a.keyId == b.keyId && AfterKey(a, x) == AfterKey(b, y)
  {
    hide Quoted, NoQuote, AfterKey;
    Cancels(OF_KEY_ID, Quoted(a.keyId) + AfterKey(a, x), Quoted(b.keyId) + AfterKey(b, y));
    QuotedBinds(a.keyId, b.keyId, AfterKey(a, x), AfterKey(b, y));
  }

  lemma RestBinds(a: Statement, b: Statement, x: Bytes, y: Bytes)
    requires NoQuote(a.prev) && NoQuote(b.prev) && AfterKey(a, x) == AfterKey(b, y)
    ensures a.kind == b.kind && a.prev == b.prev && x == y
  {
    hide Quoted, NoQuote, KindName, PrevText;
    Cancels(OF_KIND, Quoted(KindName(a.kind)) + AfterKind(a, x), Quoted(KindName(b.kind)) + AfterKind(b, y));
    KindBinds(a.kind, b.kind, AfterKind(a, x), AfterKind(b, y));
    Cancels(OF_PREV, PrevText(a.prev) + x, PrevText(b.prev) + y);
    PrevBinds(a.prev, b.prev, x, y);
  }

  lemma LinkTextBinds(a: Statement, b: Statement, x: Bytes, y: Bytes)
    requires NoQuote(a.keyId) && NoQuote(a.prev) && NoQuote(b.keyId) && NoQuote(b.prev)
    requires LinkText(a) + x == LinkText(b) + y
    ensures a.index == b.index && a.keyId == b.keyId && a.kind == b.kind && a.prev == b.prev && x == y
  {
    hide LinkText, FromNat, NoQuote, AfterKey, Quoted;
    LinkTextIs(a, x);
    LinkTextIs(b, y);
    CommaNext(OF_KEY_ID, Quoted(a.keyId) + AfterKey(a, x));
    CommaNext(OF_KEY_ID, Quoted(b.keyId) + AfterKey(b, y));
    Cancels(OF_INDEX, FromNat(a.index) + AfterIndex(a, x), FromNat(b.index) + AfterIndex(b, y));
    NumeralBinds(a.index, b.index, AfterIndex(a, x), AfterIndex(b, y));
    KeyBinds(a, b, x, y);
    RestBinds(a, b, x, y);
  }

  predicate Unquoted(st: Statement) {
    && NoQuote(st.checkpoint.digest) && NoQuote(st.checkpoint.trail) && NoQuote(st.keyId) && NoQuote(st.prev)
    && NoQuote(st.witnessedAt)
  }

  function AtText(a: Statement): Bytes { OF_WITNESSED + (Quoted(a.witnessedAt) + ['}']) }

  lemma SignedTextIs(a: Statement)
    ensures SignedText(a) == WITNESS_PREFIX + (CheckpointText(a.checkpoint) + (LinkText(a) + AtText(a)))
  {
    hide CheckpointText, LinkText, Quoted;
    var front := WITNESS_PREFIX + CheckpointText(a.checkpoint);
    Regroup(front + LinkText(a) + OF_WITNESSED, Quoted(a.witnessedAt), ['}']);
    Regroup(front + LinkText(a), OF_WITNESSED, Quoted(a.witnessedAt) + ['}']);
    Regroup(front, LinkText(a), AtText(a));
    Regroup(WITNESS_PREFIX, CheckpointText(a.checkpoint), LinkText(a) + AtText(a));
  }

  /** The text a witness signs fixes all of its statement but the signature itself. */
  lemma SignedTextBinds(a: Statement, b: Statement)
    requires Unquoted(a) && Unquoted(b) && SignedText(a) == SignedText(b)
    ensures a == b.(signature := a.signature)
  {
    hide CheckpointText, LinkText, Quoted, NoQuote, SignedText;
    SignedTextIs(a);
    SignedTextIs(b);
    Cancels(WITNESS_PREFIX, CheckpointText(a.checkpoint) + (LinkText(a) + AtText(a)),
            CheckpointText(b.checkpoint) + (LinkText(b) + AtText(b)));
    CheckpointTextBinds(a.checkpoint, b.checkpoint, LinkText(a) + AtText(a), LinkText(b) + AtText(b));
    LinkTextBinds(a, b, AtText(a), AtText(b));
    Cancels(OF_WITNESSED, Quoted(a.witnessedAt) + ['}'], Quoted(b.witnessedAt) + ['}']);
    QuotedBinds(a.witnessedAt, b.witnessedAt, ['}'], ['}']);
  }
}
