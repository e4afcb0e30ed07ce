/**
 The checker that reads the sidecar alongside the trail. It consumes items as trail lines settle, looks one item
 ahead, and never goes back in either file; what it finds is what each item deserves beside the whole trail.
 */
module SignatureReader {
  import opened Octets
  import opened Chain
  import opened Checkpoints
  import opened Reading
  import opened Sidecar
  import opened Signatures
  import opened Verifier
  import Coverage

  /** The items read so far end at the offset, or the sidecar is read to its end. */
  ghost predicate ReaderAt(sidecar: Bytes, offset: nat, ended: bool, read: nat) {
    var complete := CompleteLines(sidecar);
    if ended then read == |ItemsOf(sidecar)|
    else read <= |complete| && offset <= |sidecar| && sidecar[..offset] == Join(complete[..read])
  }

  lemma LineReadAt(sidecar: Bytes, offset: nat, read: nat, text: Bytes, next: nat)
    requires ReaderAt(sidecar, offset, false, read) && offset <= next <= |sidecar| && '\n' !in text
    ensures sidecar[offset..next] == text + ['\n'] ==>
              && ReaderAt(sidecar, next, false, read + 1)
              && read < |ItemsOf(sidecar)| && ItemsOf(sidecar)[read] == ParseLine(text)
    ensures sidecar[offset..next] == text && next == |sidecar| ==>
              if text == [] then read == |ItemsOf(sidecar)|
              else read + 1 == |ItemsOf(sidecar)| && ItemsOf(sidecar)[read] == Unreadable
  {
    hide SplitLines, Join, ParseLine;
    var complete := CompleteLines(sidecar);
    JoinOfSplit(sidecar);
    assert sidecar == sidecar[..offset] + sidecar[offset..];
    assert sidecar[..next] == sidecar[..offset] + sidecar[offset..next];
    if sidecar[offset..next] == text + ['\n'] {
      FirstOfRest(sidecar, complete[..read], text, sidecar[next..]);
      ParsedAt(complete, read);
    }
    if sidecar[offset..next] == text && next == |sidecar| {
      SplitOfJoin(complete[..read], text);
      assert sidecar == Join(complete[..read]) + text;
      assert complete == complete[..read];
      assert Tail(sidecar) == text;
    }
  }

  /** The complete lines of a file that goes on after these with this one. */
  lemma FirstOfRest(sidecar: Bytes, before: seq<Bytes>, text: Bytes, rest: Bytes)
    requires AreLines(before) && '\n' !in text && sidecar == Join(before) + (text + ['\n']) + rest
    requires before <= CompleteLines(sidecar)
    ensures |before| < |CompleteLines(sidecar)| && CompleteLines(sidecar)[|before|] == text
    ensures CompleteLines(sidecar)[..|before| + 1] == before + [text]
    ensures Join(before) + (text + ['\n']) == Join(before + [text])
  {
    hide SplitLines, Join, AreLines;
    var all := before + [text];
    JoinSnoc(before, text);
    Regroup(Join(before), text, ['\n']);
    OneMoreIsLines(before, text);
    SplitOfJoin(all, []);
    assert Join(all) + [] == Join(all);
    assert sidecar == Join(all) + rest;
    SplitAppend(Join(all), rest);
    assert CompleteLines(sidecar) == all + SplitLines(Tail(Join(all)) + rest).lines;
  }

  lemma OneMoreIsLines(lines: seq<Bytes>, text: Bytes)
    requires AreLines(lines) && '\n' !in text
    ensures AreLines(lines + [text])
  {
  }

  lemma {:induction false} ParsedAt(lines: seq<Bytes>, i: nat)
    requires i < |lines|
    ensures ParseLines(lines)[i] == ParseLine(lines[i])
  {
    hide ParseLine;
    if i < |lines| - 1 {
      ParsedAt(lines[..|lines| - 1], i);
    }
  }

  /** The items not yet taken begin with none that belongs before this line. */
  predicate BeginsAt(items: seq<Item>, taken: nat, number: nat) {
    number <= 1 || taken >= |items| || (!items[taken].Unreadable? && Place(items[taken]) >= 2 * number)
  }

  /** From this item on, those that are taken while the line of this number is settled. */
  function TakenFrom(items: seq<Item>, from: nat, number: nat): (to: nat)
    requires from <= |items|
    ensures from <= to <= |items|
    decreases |items| - from
  {
    if from < |items| && (items[from].Unreadable? || Place(items[from]) <= 2 * number + 1)
    then TakenFrom(items, from + 1, number) else from
  }

  class SignatureChecker {
    const s: Scheme
    const h: Hash
    const options: SignatureOptions
    const sidecar: Bytes
    /** The lines of the trail the sidecar is read beside. */
    ghost const trail: seq<Bytes>

    var offset: nat
    var ahead: Option<Item>
    var ended: bool

    var current: Key
    var keyIndex: nat
    /** The place of the latest item that was in order. */
    var lastPlace: nat
    /** Whose trail the settled lines are. */
    var lastTrail: Bytes

    var lines: nat
    var unreadable: nat
    var rotations: nat
    var signed: nat
    var signedAt: seq<nat>
    var through: nat
    var reported: seq<SignatureFinding>

    /** How many items are taken. */
    ghost var taken: nat

    constructor (s: Scheme, h: Hash, options: SignatureOptions, sidecar: Bytes, ghost trail: seq<Bytes>)
      requires options.keys != []
      ensures this.s == s && this.h == h && this.options == options && this.sidecar == sidecar && this.trail == trail
      ensures Stands() && lastTrail == [] && lastPlace == 0 && taken == 0
    {
      this.s, this.h, this.options, this.sidecar, this.trail := s, h, options, sidecar, trail;
      offset, ahead, ended := 0, None, false;
      current, keyIndex, lastPlace, lastTrail := options.keys[0], 0, 0, [];
      lines, unreadable, rotations, signed, signedAt, through, reported := 0, 0, 0, 0, [], 0, [];
      taken := 0;
    }

    ghost function Besides(): Beside { Beside(s, h, trail) }

    /** The line peeked at, if any, is the next one, and everything taken is accounted for. */
    ghost predicate Stands()
      reads this
    {
      && options.keys != []
      && ReaderAt(sidecar, offset, ended, lines) && lines == taken + (if ahead.Some? then 1 else 0)
      && taken <= |ItemsOf(sidecar)| && (ahead.Some? ==> taken < |ItemsOf(sidecar)| && ahead.value == ItemsOf(sidecar)[taken])
      && Read() == After(Besides(), options, ItemsOf(sidecar), taken) && signed == |signedAt|
    }

    ghost function Read(): Progress
      reads this
    {
      Progress(lastPlace, current, keyIndex, unreadable, rotations, signedAt, through, reported)
    }

    // ----- Reading -----

    /** One line of the sidecar, a piece at a time; of a line over the bound nothing is kept. */
    method ReadLine() returns (line: Bytes, overlong: bool, terminated: bool, ghost text: Bytes)
      modifies `offset
      requires offset <= |sidecar|
      ensures old(offset) <= offset <= |sidecar| && '\n' !in text
      ensures sidecar[old(offset)..offset] == if terminated then text + ['\n'] else text
      ensures !terminated ==> offset == |sidecar|
      ensures overlong == (|text| > MAX_SIDECAR_LINE) && (!overlong ==> line == text) && (overlong ==> line == [])
    {
      line, overlong, terminated, text := [], false, false, [];
      var full := true;
      while full
        invariant old(offset) <= offset <= |sidecar| && '\n' !in text
        invariant sidecar[old(offset)..offset] == if terminated then text + ['\n'] else text
        invariant full ==> !terminated
        invariant !full && !terminated ==> offset == |sidecar|
        invariant overlong == (|text| > MAX_SIDECAR_LINE) && (!overlong ==> line == text) && (overlong ==> line == [])
        decreases |sidecar| - offset, full
      {
        var piece, next;
        piece, full, next := ReadSlice(sidecar, offset);
        assert sidecar[old(offset)..next] == sidecar[old(offset)..offset] + piece;
        offset := next;
        if piece != [] && piece[|piece| - 1] == '\n' {
          piece, terminated := piece[..|piece| - 1], true;
        }
        text := text + piece;
        if !overlong {
          if |line| + |piece| > MAX_SIDECAR_LINE {
            overlong, line := true, [];
          } else {
            line := line + piece;
          }
        }
      }
    }

    /** Makes the next untaken item, if there is one, the one ahead; asking again changes nothing. */
    method Peek()
      modifies `offset, `ahead, `ended, `lines
      requires Stands()
      ensures Stands() && ahead == if taken < |ItemsOf(sidecar)| then Some(ItemsOf(sidecar)[taken]) else None
    {
      hide ItemsOf, After, ParseLine, Join;
      if ahead.Some? || ended {
        return;
      }
      var line, overlong, terminated, text := ReadLine();
      LineReadAt(sidecar, old(offset), lines, text, offset);
      if !terminated && |line| == 0 && !overlong {
        ended := true;
        return;
      }
      lines := lines + 1;
      var item := Unreadable;
      if terminated && !overlong {
        item := ParseLine(line);
      }
      LongIsUnreadable(text);
      if !terminated {
        ended := true;
      }
      ahead := Some(item);
    }

    // ----- Checking an item -----

    /** Looks for a revocation of the current key that has begun by a sequence. */
    method IsRevoked(sequence: nat) returns (revoked: bool)
      ensures revoked == Revoked(options.revoked, current, sequence)
    {
      var i := 0;
      while i < |options.revoked|
        invariant 0 <= i <= |options.revoked|
        invariant forall j | 0 <= j < i :: options.revoked[j].key != current || sequence < options.revoked[j].from
      {
        if options.revoked[i].key == current && sequence >= options.revoked[i].from {
          assert options.revoked[i] in options.revoked;
          return true;
        }
        i := i + 1;
      }
      return false;
    }

    /**
     One signature against the settled line. The two numbers are never compared: the caller's requires says that they
     are equal, and the merge establishes it.
     */
    method CheckRecord(item: Item, settled: SeenLine, earliest: nat) returns (name: Option<SignatureFindingName>)
      modifies `signed, `signedAt, `through
      requires item.RecordSignature? && 0 < item.sequence <= |trail|
      requires settled == SettledLine(h, trail, item.sequence - 1)
      requires earliest == Earliest(Reported(h, trail, item.sequence)) && signed == |signedAt|
      ensures name == RecordFinding(Besides(), options, current, item)
      ensures signedAt == (if name.Some? then old(signedAt) else old(signedAt) + [item.sequence])
      ensures through == (if name.None? && SoundThrough(h, trail, item.sequence) then item.sequence else old(through))
      ensures signed == |signedAt|
    {
      hide LinkOf, HeadBefore, LineFindings, MemberFindings, OfDiscontinuityKind, DigestOf, Damaged, Verifies, KeyId,
           RecordMessage, Revoked, Reported, Earliest, SoundThrough, Clear;
      SettledIs(h, trail, item.sequence);
      ClearAtLine(h, trail, item.sequence);
      if settled.damaged || settled.link.None? || settled.link.value.trail != item.trail {
        return Some(SignatureNoRecord);
      }
      if settled.digest != item.record {
        return Some(SignatureRecordMismatch);
      }
      if item.keyId != KeyId(s, current) ||
         !Verifies(s, current, RecordMessage(item.trail, item.sequence, item.record), item.signature)
      {
        return Some(SignatureInvalid);
      }
      var revoked := IsRevoked(item.sequence);
      if revoked {
        return Some(SignatureKeyRevoked);
      }
      signed := signed + 1;
      signedAt := signedAt + [item.sequence];
      if Clear(earliest, item.sequence) {
        through := item.sequence;
      }
      return None;
    }

    /**
     One rotation against the current key and the keys given; the current key changes exactly when nothing is wrong.
     */
    method CheckRotation(item: Item) returns (name: Option<SignatureFindingName>)
      modifies `current, `keyIndex, `rotations
      requires item.KeyRotation? && options.keys != []
      ensures name == RotationFinding(Besides(), options, old(current), old(keyIndex), lastTrail, item)
      ensures if name.Some? then current == old(current) && keyIndex == old(keyIndex) && rotations == old(rotations)
              else current == item.next && keyIndex == old(keyIndex) + 1 && rotations == old(rotations) + 1
    {
      hide Verifies, KeyId, RotationMessage, Revoked, Acceptable;
      if lastTrail == [] || item.trail != lastTrail {
        return Some(RotationInvalid);
      }
      if item.keyId != KeyId(s, current) ||
         !Verifies(s, current, RotationMessage(item.trail, item.at, item.next), item.signature)
      {
        return Some(RotationInvalid);
      }
      var revoked := IsRevoked(item.at);
      if revoked {
        return Some(SignatureKeyRevoked);
      }
      if !Acceptable(s, item.next) {
        return Some(RotationInvalid);
      }
      if |options.keys| > 1 && (keyIndex + 1 >= |options.keys| || item.next != options.keys[keyIndex + 1]) {
        return Some(RotationInvalid);
      }
      current := item.next;
      keyIndex := keyIndex + 1;
      rotations := rotations + 1;
      return None;
    }

    /**
     One item makes one declarative step. An item in order comes with the settled line of its own number, or, with no
     line, is beyond the last one.
     */
    method Check(item: Item, settled: Option<SeenLine>, earliest: nat, ghost number: nat)
      modifies `unreadable, `lastPlace, `signed, `signedAt, `through, `current, `keyIndex, `rotations, `reported
      requires options.keys != [] && signed == |signedAt|
      requires !item.Unreadable? && !OutOfOrder(lastPlace, item) ==>
                 if settled.Some? then NumberOf(item) == number else NumberOf(item) > |trail|
      requires settled.Some? ==>
                 && 0 < number <= |trail| && settled.value == SettledLine(h, trail, number - 1)
                 && earliest == Earliest(Reported(h, trail, number)) && lastTrail == TrailThrough(trail, number)
      ensures Read() == Step(Besides(), options, old(Read()), item) && signed == |signedAt|
    {
      hide SettledLine, Reported, Earliest, TrailThrough, SoundThrough, RecordFinding, RotationFinding;
      if item.Unreadable? {
        unreadable := unreadable + 1;
        return;
      }
      var place := Place(item);
      if place < lastPlace || (item.RecordSignature? && place == lastPlace) {
        reported := reported + [SignatureFinding(SidecarOutOfOrder, NumberOf(item))];
        return;
      }
      lastPlace := place;
      var name := None;
      if settled.None? {
        name := Some(SignatureNoRecord);
      } else if item.RecordSignature? {
        name := CheckRecord(item, settled.value, earliest);
      } else {
        name := CheckRotation(item);
      }
      if name.Some? {
        reported := reported + [SignatureFinding(name.value, NumberOf(item))];
      }
    }

    /** Consumes the line peeked at. */
    method Take()
      modifies `ahead, `taken
      requires Stands() && ahead.Some?
      ensures ahead == None && taken == old(taken) + 1 && lines == taken
    {
      ahead := None;
      taken := taken + 1;
    }

    /** Takes the item peeked at and holds it to its rule. */
    method TakeItem(settled: Option<SeenLine>, earliest: nat, ghost number: nat)
      modifies this
      requires Stands() && ahead.Some?
      requires !ahead.value.Unreadable? && !OutOfOrder(lastPlace, ahead.value) ==>
                 if settled.Some? then NumberOf(ahead.value) == number else NumberOf(ahead.value) > |trail|
      requires settled.Some? ==>
                 && 0 < number <= |trail| && settled.value == SettledLine(h, trail, number - 1)
                 && earliest == Earliest(Reported(h, trail, number)) && lastTrail == TrailThrough(trail, number)
      ensures Stands() && taken == old(taken) + 1 && lastTrail == old(lastTrail)
      ensures lastPlace == PlaceAfter(old(lastPlace), ItemsOf(sidecar)[old(taken)])
    {
      hide Step, ItemsOf, ReaderAt, SettledLine, Reported, Earliest, TrailThrough;
      var item := ahead.value;
      ghost var before := taken;
      Take();
      Check(item, settled, earliest, number);
      StepPlaces(Besides(), options, After(Besides(), options, ItemsOf(sidecar), before), item);
    }

    /**
     Consumes, for one settled line, all items whose place is no later than just after it, and leaves the first
     item that is in order and later.
     */
    method Settle(settled: SeenLine, earliest: nat)
      modifies this
      requires Stands() && 0 < settled.number <= |trail| && settled == SettledLine(h, trail, settled.number - 1)
      requires earliest == Earliest(Reported(h, trail, settled.number))
      requires lastTrail == TrailThrough(trail, settled.number - 1)
      requires lastPlace <= 2 * settled.number - 1 && BeginsAt(ItemsOf(sidecar), taken, settled.number)
      ensures Stands() && lastTrail == TrailThrough(trail, settled.number)
      ensures lastPlace <= 2 * settled.number + 1 && BeginsAt(ItemsOf(sidecar), taken, settled.number + 1)
      ensures old(taken) <= |ItemsOf(sidecar)| && taken == TakenFrom(ItemsOf(sidecar), old(taken), settled.number)
    {
      hide Stands, ItemsOf, SettledLine, Reported, Earliest, LinkOf, Damaged;
      StandsTaken();
      SettledIs(h, trail, settled.number);
      if settled.link.Some? && !settled.damaged {
        SetLastTrail(settled.link.value.trail);
      }
      var limit := 2 * settled.number + 1;
      ghost var items := ItemsOf(sidecar);
      while true
        invariant Stands() && taken <= |items| && lastTrail == TrailThrough(trail, settled.number)
        invariant lastPlace <= limit && (lastPlace >= 2 * settled.number || BeginsAt(items, taken, settled.number))
        invariant TakenFrom(items, old(taken), settled.number) == TakenFrom(items, taken, settled.number)
        decreases |items| - taken
      {
        Peek();
        StandsTaken();
        if ahead.None? || (!ahead.value.Unreadable? && Place(ahead.value) > limit) {
          break;
        }
        InStep(items, taken, settled.number, lastPlace);
        TakeItem(Some(settled), earliest, settled.number);
        StandsTaken();
      }
    }

    lemma StandsTaken()
      requires Stands()
      ensures taken <= |ItemsOf(sidecar)| && (ahead.Some? ==> taken < |ItemsOf(sidecar)| && ahead.value == ItemsOf(sidecar)[taken])
      ensures ahead.Some? && !ahead.value.Unreadable? ==> NumberOf(ahead.value) >= 1
    {
      hide ItemsOf, After, ReaderAt;
      if ahead.Some? {
        ItemInRange(sidecar, taken);
      }
    }

    lemma FoundSoFar()
      requires Stands()
      ensures taken <= |ItemsOf(sidecar)| && options.keys != []
      ensures reported == After(Besides(), options, ItemsOf(sidecar), taken).found
    {
      hide ItemsOf, After, ReaderAt;
    }

    method SetLastTrail(trail: Bytes)
      modifies `lastTrail
      requires Stands()
      ensures Stands() && lastTrail == trail
    {
      hide ItemsOf, After, ReaderAt;
      lastTrail := trail;
    }

    /** Consumes all remaining items, none of which can be in order and have its line. */
    method Finish()
      modifies this
      requires Stands() && lastPlace <= 2 * |trail| + 1 && BeginsAt(ItemsOf(sidecar), taken, |trail| + 1)
      ensures Stands() && taken == |ItemsOf(sidecar)|
    {
      hide Stands, ItemsOf, SettledLine, Reported, Earliest, TrailThrough;
      StandsTaken();
      ghost var items := ItemsOf(sidecar);
      while true
        invariant Stands() && taken <= |items|
        invariant lastPlace >= 2 * |trail| + 2 || BeginsAt(items, taken, |trail| + 1)
        decreases |items| - taken
      {
        Peek();
        StandsTaken();
        if ahead.None? {
          break;
        }
        PastTheEnd(items, taken, |trail|, lastPlace);
        TakeItem(None, 0, 0);
        StandsTaken();
      }
    }
  }

  /** Where the checker has come to, once one more item is taken. */
  function PlaceAfter(lastPlace: nat, item: Item): nat {
    if item.Unreadable? || OutOfOrder(lastPlace, item) then lastPlace else Place(item)
  }

  lemma StepPlaces(b: Beside, options: SignatureOptions, p: Progress, item: Item)
    ensures Step(b, options, p, item).lastPlace == PlaceAfter(p.lastPlace, item)
  {
    hide RecordFinding, RotationFinding, SoundThrough, TrailThrough;
  }

  lemma ItemInRange(sidecar: Bytes, i: nat)
    requires i < |ItemsOf(sidecar)|
    ensures !ItemsOf(sidecar)[i].Unreadable? ==> NumberOf(ItemsOf(sidecar)[i]) >= 1
  {
    hide ParseLine, ParseLines, CompleteLines;
    if i < |CompleteLines(sidecar)| {
      ParsedAt(CompleteLines(sidecar), i);
    }
  }

  /** An item in order, taken while a line is settled, is at that line's own number. */
  lemma InStep(items: seq<Item>, taken: nat, number: nat, lastPlace: nat)
    requires taken < |items| && number > 0 && (lastPlace >= 2 * number || BeginsAt(items, taken, number))
    requires items[taken].Unreadable? || Place(items[taken]) <= 2 * number + 1
    requires !items[taken].Unreadable? ==> NumberOf(items[taken]) >= 1
    ensures !items[taken].Unreadable? && !OutOfOrder(lastPlace, items[taken]) ==> NumberOf(items[taken]) == number
    ensures var after := PlaceAfter(lastPlace, items[taken]);
            && (lastPlace <= 2 * number + 1 ==> after <= 2 * number + 1)
            && (after >= 2 * number || BeginsAt(items, taken + 1, number))
  {
  }

  /** An item in order, taken once the trail has ended, is past its end. */
  lemma PastTheEnd(items: seq<Item>, taken: nat, end: nat, lastPlace: nat)
    requires taken < |items| && (lastPlace >= 2 * end + 2 || BeginsAt(items, taken, end + 1))
    requires !items[taken].Unreadable? ==> NumberOf(items[taken]) >= 1
    ensures !items[taken].Unreadable? && !OutOfOrder(lastPlace, items[taken]) ==> NumberOf(items[taken]) > end
    ensures PlaceAfter(lastPlace, items[taken]) >= 2 * end + 2 || BeginsAt(items, taken + 1, end + 1)
  {
  }

  /** What is reported of the signatures. */
  datatype SignedCoverage = SignedCoverage(signedRecords: nat, unsignedRecords: nat, through: nat, afterThrough: nat,
                                           requirementMet: bool, keyInForce: Key, found: seq<SignatureFinding>)

  /** The sequences past the one the signed coverage reaches: records signed beyond a break. */
  function Above(sequences: seq<nat>, through: nat): (above: set<nat>) {
    set n | n in sequences && n > through
  }

  method AfterThrough(signedAt: seq<nat>, through: nat) returns (count: nat)
    requires Increasing(signedAt)
    ensures count == |Above(signedAt, through)|
  {
    count := 0;
    assert Above(signedAt[..0], through) == {};
    var i := 0;
    while i < |signedAt|
      invariant 0 <= i <= |signedAt| && count == |Above(signedAt[..i], through)|
    {
      AboveSnoc(signedAt, through, i);
      if signedAt[i] > through {
        count := count + 1;
      }
      i := i + 1;
    }
    assert signedAt[..i] == signedAt;
  }

  lemma AboveSnoc(sequences: seq<nat>, through: nat, i: nat)
    requires i < |sequences| && Increasing(sequences)
    ensures Above(sequences[..i + 1], through) ==
            Above(sequences[..i], through) + (if sequences[i] > through then {sequences[i]} else {})
    ensures sequences[i] !in Above(sequences[..i], through)
  {
    assert sequences[..i + 1] == sequences[..i] + [sequences[i]];
  }

  /** A checker that has taken every item of its sidecar. */
  ghost predicate Finished(checker: SignatureChecker)
    reads checker
  {
    && checker.options.keys != [] && checker.signed == |checker.signedAt|
    && checker.Read() == ReadSidecar(checker.Besides(), checker.options, checker.sidecar)
  }

  /**
   Signed coverage of a trail. Signed and unsigned records are all the chained ones; through is the greatest sound
   signed sequence, and signatures beyond it are counted on their own.
   */
  ghost predicate SignedAsRead(b: Beside, options: SignatureOptions, sidecar: Bytes, requireThrough: nat, r: SignedCoverage)
    requires options.keys != []
  {
    var p := ReadSidecar(b, options, sidecar);
    && r.signedRecords == |p.signedAt| && r.keyInForce == p.current && r.through == p.through
    && r.signedRecords + r.unsignedRecords == Coverage.ChainedUpTo(b.lines, |b.lines|)
    && IsThrough(b.h, b.lines, p.signedAt, r.through) && OfRecords(b.lines, p.signedAt)
    && r.afterThrough == |Above(p.signedAt, r.through)|
    && r.requirementMet == (requireThrough == 0 || r.through >= requireThrough)
    && r.found == if r.requirementMet then p.found
                  else p.found + [SignatureFinding(SignatureMissing, requireThrough)]
  }

  method ReportSigned(checker: SignatureChecker, chained: nat, requireThrough: nat) returns (r: SignedCoverage)
    requires Finished(checker) && chained == Coverage.ChainedUpTo(checker.trail, |checker.trail|)
    ensures SignedAsRead(checker.Besides(), checker.options, checker.sidecar, requireThrough, r)
  {
    hide IsThrough, OfRecords, Increasing, ReadSidecar;
    SignedWithinChained(checker.Besides(), checker.options, checker.sidecar);
    ReadCountsWell(checker.Besides(), checker.options, checker.sidecar);
    var after := AfterThrough(checker.signedAt, checker.through);
    var met := requireThrough == 0 || checker.through >= requireThrough;
    var found := checker.reported;
    if !met {
      found := found + [SignatureFinding(SignatureMissing, requireThrough)];
    }
    r := SignedCoverage(checker.signed, chained - checker.signed, checker.through, after, met, checker.current, found);
  }

  lemma ReadCountsWell(b: Beside, options: SignatureOptions, sidecar: Bytes)
    requires options.keys != []
    ensures CountedWell(b, ReadSidecar(b, options, sidecar))
  {
    hide CountedWell, After, ItemsOf;
    SignedIsCountedWell(b, options, ItemsOf(sidecar), |ItemsOf(sidecar)|);
  }

  lemma NothingThrough(lines: seq<Bytes>)
    ensures TrailThrough(lines, 0) == []
  {
  }

  lemma LongIsUnreadable(text: Bytes)
    ensures |text| > MAX_SIDECAR_LINE ==> ParseLine(text) == Unreadable
  {
  }

  lemma SettledIs(h: Hash, lines: seq<Bytes>, n: nat)
    requires 0 < n <= |lines|
    ensures var settled := SettledLine(h, lines, n - 1);
            && settled.damaged == Damaged(lines, n - 1) && settled.link == LinkOf(lines[n - 1])
            && settled.digest == DigestOf(h, lines[n - 1])
  {
    hide LineFindings, MemberFindings, HeadBefore, LinkOf, Excuses, OfDiscontinuityKind;
  }

  /** When a line is settled, the lowest failed check is after it exactly when the trail is sound through it. */
  lemma ClearAtLine(h: Hash, lines: seq<Bytes>, n: nat)
    requires n <= |lines|
    ensures Clear(Earliest(Reported(h, lines, n)), n) <==> SoundThrough(h, lines, n)
  {
    hide Reported, SoundThrough, Earliest, Clear;
    ReportedLines(h, lines, n);
    SoundIsReported(h, lines, n, n);
    ClearOf(Reported(h, lines, n), n);
  }
}
