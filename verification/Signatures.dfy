/**
 What a signature sidecar is held to, beside the trail it signs: the declarative statement that the checker
 reading both in step refines.
 */
module Signatures {
  import opened Octets
  import opened Chain
  import opened Sidecar
  import Coverage

  /** A key that is not trusted for a sequence or after it. */
  datatype Revocation = Revocation(key: Key, from: nat)

  datatype SignatureOptions = SignatureOptions(keys: seq<Key>, revoked: seq<Revocation>)

  datatype SignatureFindingName =
    | SignatureInvalid | SignatureRecordMismatch | SignatureNoRecord | SignatureKeyRevoked
    | RotationInvalid | SidecarOutOfOrder | SignatureMissing

  datatype SignatureFinding = SignatureFinding(name: SignatureFindingName, line: nat)

  function ParseLines(lines: seq<Bytes>): (items: seq<Item>)
    ensures |items| == |lines|
  {
    if lines == [] then [] else ParseLines(lines[..|lines| - 1]) + [ParseLine(lines[|lines| - 1])]
  }

  /** A sidecar's items, in order: what follows its last newline is one that cannot be read. */
  function ItemsOf(sidecar: Bytes): seq<Item> {
    var items := ParseLines(CompleteLines(sidecar));
    if Tail(sidecar) == [] then items else items + [Unreadable]
  }

  /** What a sidecar is read beside: the scheme, and a trail's lines with the digest function. */
  datatype Beside = Beside(s: Scheme, h: Hash, lines: seq<Bytes>)

  /** How far a sidecar is read: what is kept of the items read, and what was found. */
  datatype Progress = Progress(lastPlace: nat, current: Key, keyIndex: nat, unreadable: nat, rotations: nat,
                               signedAt: seq<nat>, through: nat, found: seq<SignatureFinding>)

  function Start(first: Key): Progress { Progress(0, first, 0, 0, 0, [], 0, []) }

  /** Its place falls back, or repeats one where a signature may not. */
  predicate OutOfOrder(lastPlace: nat, item: Item)
    requires !item.Unreadable?
  {
    Place(item) < lastPlace || (item.RecordSignature? && Place(item) == lastPlace)
  }

  /** Whose trail n settled lines are: only undamaged chained lines say so. */
  function TrailThrough(lines: seq<Bytes>, n: nat): Bytes
    requires n <= |lines|
  {
    if n == 0 then []
    else if Chained(lines[n - 1]) && !Damaged(lines, n - 1) then LinkOf(lines[n - 1]).value.trail
    else TrailThrough(lines, n - 1)
  }

  /** The key is revoked at this sequence. */
  predicate Revoked(revoked: seq<Revocation>, key: Key, sequence: nat) {
    exists r :: r in revoked && r.key == key && sequence >= r.from
  }

  /**
   What is wrong with a signature, beside the line its sequence names, under a current key; nothing when it counts.
   */
  function RecordFinding(b: Beside, options: SignatureOptions, current: Key, item: Item): Option<SignatureFindingName>
    requires item.RecordSignature? && 0 < item.sequence <= |b.lines|
  {
    var i := item.sequence - 1;
    if Damaged(b.lines, i) || !Chained(b.lines[i]) || LinkOf(b.lines[i]).value.trail != item.trail
    then Some(SignatureNoRecord)
    else if DigestOf(b.h, b.lines[i]) != item.record then Some(SignatureRecordMismatch)
    else if item.keyId != KeyId(b.s, current) ||
            !Verifies(b.s, current, RecordMessage(item.trail, item.sequence, item.record), item.signature)
    then Some(SignatureInvalid)
    else if Revoked(options.revoked, current, item.sequence) then Some(SignatureKeyRevoked)
    else None
  }

  /** What is wrong with a rotation under a current key, given the order of keys expected; nothing when it is taken. */
  function RotationFinding(b: Beside, options: SignatureOptions, current: Key, keyIndex: nat, trail: Bytes, item: Item)
    : Option<SignatureFindingName>
    requires item.KeyRotation?
  {
    if trail == [] || item.trail != trail then Some(RotationInvalid)
    else if item.keyId != KeyId(b.s, current) ||
            !Verifies(b.s, current, RotationMessage(item.trail, item.at, item.next), item.signature)
    then Some(RotationInvalid)
    else if Revoked(options.revoked, current, item.at) then Some(SignatureKeyRevoked)
    else if !Acceptable(b.s, item.next) then Some(RotationInvalid)
    else if |options.keys| > 1 && (keyIndex + 1 >= |options.keys| || item.next != options.keys[keyIndex + 1])
    then Some(RotationInvalid)
    else None
  }

  function Note(p: Progress, name: SignatureFindingName, line: nat): Progress {
    p.(found := p.found + [SignatureFinding(name, line)])
  }

  /** What one more item makes of what was read: each is held to the line at its own number. */
  function Step(b: Beside, options: SignatureOptions, p: Progress, item: Item): Progress {
    if item.Unreadable? then p.(unreadable := p.unreadable + 1)
    else if OutOfOrder(p.lastPlace, item) then Note(p, SidecarOutOfOrder, NumberOf(item))
    else
      var q := p.(lastPlace := Place(item));
      if NumberOf(item) == 0 || NumberOf(item) > |b.lines| then Note(q, SignatureNoRecord, NumberOf(item))
      else if item.RecordSignature? then
        (match RecordFinding(b, options, p.current, item)
         case Some(name) => Note(q, name, item.sequence)
         case None =>
           q.(signedAt := p.signedAt + [item.sequence],
              through := if SoundThrough(b.h, b.lines, item.sequence) then item.sequence else p.through))
      else
        (match RotationFinding(b, options, p.current, p.keyIndex, TrailThrough(b.lines, item.at), item)
         case Some(name) => Note(q, name, item.at)
         case None => q.(current := item.next, keyIndex := p.keyIndex + 1, rotations := p.rotations + 1))
  }

  /** What the first k items come to, the first key being the first one given. */
  function After(b: Beside, options: SignatureOptions, items: seq<Item>, k: nat): Progress
    requires k <= |items| && options.keys != []
  {
    if k == 0 then Start(options.keys[0]) else Step(b, options, After(b, options, items, k - 1), items[k - 1])
  }

  /** What was found stays found. */
  lemma {:induction false} FoundGrows(b: Beside, options: SignatureOptions, items: seq<Item>, k: nat, n: nat)
    requires k <= n <= |items| && options.keys != []
    ensures After(b, options, items, k).found <= After(b, options, items, n).found
  {
    hide RecordFinding, RotationFinding, SoundThrough, TrailThrough;
    if k < n {
      FoundGrows(b, options, items, k, n - 1);
    }
  }

  // ----- What is counted signed -----

  ghost predicate Increasing(sequences: seq<nat>) {
    forall i, j | 0 <= i < j < |sequences| :: sequences[i] < sequences[j]
  }

  /** Every sequence counted signed is that of a chained line that is not damaged. */
  ghost predicate OfRecords(lines: seq<Bytes>, sequences: seq<nat>) {
    forall n | n in sequences :: 0 < n <= |lines| && Chained(lines[n - 1]) && !Damaged(lines, n - 1)
  }

  /** The greatest of the sequences that the chain is sound through, and 0 when it is sound through none. */
  ghost predicate IsThrough(h: Hash, lines: seq<Bytes>, sequences: seq<nat>, through: nat) {
    && (through > 0 ==> through in sequences && through <= |lines| && SoundThrough(h, lines, through))
    && (forall n | n in sequences && 0 < n <= |lines| && SoundThrough(h, lines, n) :: n <= through)
  }

  ghost predicate CountedWell(b: Beside, p: Progress) {
    && Increasing(p.signedAt) && OfRecords(b.lines, p.signedAt) && IsThrough(b.h, b.lines, p.signedAt, p.through)
    && (forall n | n in p.signedAt :: 2 * n <= p.lastPlace)
  }

  /**
   Whatever a sidecar holds, the sequences counted signed increase, each is of an undamaged chained line, and
   the signed coverage reaches the highest of them that no failed check of the chain is at or before.
   */
  lemma {:induction false} SignedIsCountedWell(b: Beside, options: SignatureOptions, items: seq<Item>, k: nat)
    requires k <= |items| && options.keys != []
    ensures CountedWell(b, After(b, options, items, k))
  {
    hide Step, CountedWell;
    if k == 0 {
      StartCountsWell(b, options.keys[0]);
    } else {
      SignedIsCountedWell(b, options, items, k - 1);
      StepCountsWell(b, options, After(b, options, items, k - 1), items[k - 1]);
    }
  }

  lemma StartCountsWell(b: Beside, first: Key)
    ensures CountedWell(b, Start(first))
  {
  }

  lemma StepCountsWell(b: Beside, options: SignatureOptions, p: Progress, item: Item)
    requires CountedWell(b, p)
    ensures CountedWell(b, Step(b, options, p, item))
  {
    hide LinkOf, Damaged, SoundThrough, TrailThrough, DigestOf, KeyId, Verifies, Revoked, RotationFinding, Acceptable,
         Increasing, OfRecords, IsThrough;
    var q := Step(b, options, p, item);
    if q.signedAt != p.signedAt {
      OneMoreSigned(b, p, item.sequence);
    }
  }

  /** One more record counted signed, past every one before it. */
  lemma OneMoreSigned(b: Beside, p: Progress, n: nat)
    requires CountedWell(b, p) && p.lastPlace < 2 * n
    requires 0 < n <= |b.lines| && Chained(b.lines[n - 1]) && !Damaged(b.lines, n - 1)
    ensures var signedAt := p.signedAt + [n];
            && Increasing(signedAt) && OfRecords(b.lines, signedAt)
            && IsThrough(b.h, b.lines, signedAt, if SoundThrough(b.h, b.lines, n) then n else p.through)
            && forall k | k in signedAt :: 2 * k <= 2 * n
  {
    hide LinkOf, Damaged, SoundThrough;
    forall i | 0 <= i < |p.signedAt|
      ensures p.signedAt[i] < n
    {
      assert p.signedAt[i] in p.signedAt;
    }
  }

  /** A sidecar is read to its end: the key in force, what is signed, and what was found. */
  function ReadSidecar(b: Beside, options: SignatureOptions, sidecar: Bytes): Progress
    requires options.keys != []
  {
    After(b, options, ItemsOf(sidecar), |ItemsOf(sidecar)|)
  }

  /** The line of this number is a chained record, and not damaged. */
  predicate RecordAt(lines: seq<Bytes>, number: nat)
    requires 0 < number <= |lines|
  {
    Chained(lines[number - 1]) && !Damaged(lines, number - 1)
  }

  function RecordNumbers(lines: seq<Bytes>, n: nat): set<nat>
    requires n <= |lines|
  {
    set k | 0 < k <= n && RecordAt(lines, k)
  }

  function NumbersIn(sequences: seq<nat>): set<nat> { set n | n in sequences }

  lemma {:induction false} IncreasingCounted(sequences: seq<nat>)
    requires Increasing(sequences)
    ensures |NumbersIn(sequences)| == |sequences|
  {
    if sequences != [] {
      var front, last := sequences[..|sequences| - 1], sequences[|sequences| - 1];
      IncreasingCounted(front);
      LastIsNew(sequences);
      assert NumbersIn(sequences) == NumbersIn(front) + {last};
    }
  }

  lemma LastIsNew(sequences: seq<nat>)
    requires sequences != [] && Increasing(sequences)
    ensures sequences[|sequences| - 1] !in NumbersIn(sequences[..|sequences| - 1])
    ensures forall n :: n in sequences <==> n in sequences[..|sequences| - 1] || n == sequences[|sequences| - 1]
  {
    var front := sequences[..|sequences| - 1];
    assert sequences == front + [sequences[|sequences| - 1]];
  }

  lemma {:induction false} RecordNumbersCounted(lines: seq<Bytes>, n: nat)
    requires n <= |lines|
    ensures |RecordNumbers(lines, n)| == Coverage.ChainedUpTo(lines, n)
  {
    hide LinkOf, Damaged;
    if n == 0 {
      assert RecordNumbers(lines, 0) == {};
    } else {
      RecordNumbersCounted(lines, n - 1);
      assert RecordNumbers(lines, n) == RecordNumbers(lines, n - 1) + (if RecordAt(lines, n) then {n} else {});
    }
  }

  /** No more records are signed than are chained. */
  lemma SignedWithinChained(b: Beside, options: SignatureOptions, sidecar: Bytes)
    requires options.keys != []
    ensures |ReadSidecar(b, options, sidecar).signedAt| <= Coverage.ChainedUpTo(b.lines, |b.lines|)
  {
    hide Step, After, ItemsOf, IsThrough, Increasing, Chained, Damaged;
    var items := ItemsOf(sidecar);
    SignedIsCountedWell(b, options, items, |items|);
    var signedAt := After(b, options, items, |items|).signedAt;
    IncreasingCounted(signedAt);
    RecordNumbersCounted(b.lines, |b.lines|);
    SubsetIsSmaller(NumbersIn(signedAt), RecordNumbers(b.lines, |b.lines|));
  }

  lemma {:induction false} SubsetIsSmaller(a: set<nat>, b: set<nat>)
    requires a <= b
    ensures |a| <= |b|
    decreases a
  {
    if a != {} {
      var n :| n in a;
      SubsetIsSmaller(a - {n}, b - {n});
    }
  }
}
