/**
 What it means that a sidecar's reading counts a record signed, hands the trail on to a key, or finds something wrong,
 said of the item, of the line at its number and of the key in force, and of nothing in between.
 */
module Attested {
  import opened Octets
  import opened Chain
  import opened Sidecar
  import opened Signatures
  import opened Soundness
  import SignatureReader

  /** The key in force once the first k items are read. */
  function KeyAfter(b: Beside, options: SignatureOptions, items: seq<Item>, k: nat): Key
    requires k <= |items| && options.keys != []
  {
    After(b, options, items, k).current
  }

  /** No readable item before this one has a later place, or, for a signature, the same one. */
  ghost predicate InOrder(items: seq<Item>, k: nat)
    requires k < |items| && !items[k].Unreadable?
  {
    forall i | 0 <= i < k && !items[i].Unreadable? ::
      if items[k].RecordSignature? then Place(items[i]) < Place(items[k]) else Place(items[i]) <= Place(items[k])
  }

  /** The key was trusted at this sequence. */
  ghost predicate Trusted(options: SignatureOptions, key: Key, n: nat) {
    forall r | r in options.revoked :: !(r.key == key && n >= r.from)
  }

  /** The line of this number is a record of this trail that stands. */
  predicate RecordOfTrail(lines: seq<Bytes>, n: nat, trail: Bytes) {
    0 < n <= |lines| && Stands(lines, n - 1) && LinkOf(lines[n - 1]).value.trail == trail
  }

  /** Signed with this key, under its name, over this message. */
  predicate SignedWith(s: Scheme, key: Key, message: Bytes, keyId: Bytes, signature: Bytes) {
    keyId == s.keyId(key) && s.verify(key, message, signature)
  }

  /** This item is a signature, with the key in force, of the record that stands at its own sequence. */
  ghost predicate Signs(b: Beside, options: SignatureOptions, items: seq<Item>, k: nat)
    requires k < |items| && options.keys != []
  {
    var item, key := items[k], KeyAfter(b, options, items, k);
    && item.RecordSignature? && InOrder(items, k)
    && RecordOfTrail(b.lines, item.sequence, item.trail)
    && item.record == b.h(b.lines[item.sequence - 1])
    && SignedWith(b.s, key, RecordMessage(item.trail, item.sequence, item.record), item.keyId, item.signature)
    && Trusted(options, key, item.sequence)
  }

  /** The last record that stands among the first n lines is of this trail. */
  ghost predicate TrailSoFar(lines: seq<Bytes>, n: nat, trail: Bytes) {
    exists k :: 0 <= k < n <= |lines| && Stands(lines, k) && TrailAt(lines, k) == trail
                && forall m | k < m < n :: !Stands(lines, m)
  }

  /** This item is a rotation, by the key then in force, after a line of this trail, to a key that may come next. */
  ghost predicate HandsOver(b: Beside, options: SignatureOptions, items: seq<Item>, k: nat)
    requires k < |items| && options.keys != []
  {
    var item, key := items[k], KeyAfter(b, options, items, k);
    && item.KeyRotation? && InOrder(items, k)
    && 0 < item.at <= |b.lines| && TrailSoFar(b.lines, item.at, item.trail)
    && SignedWith(b.s, key, RotationMessage(item.trail, item.at, item.next), item.keyId, item.signature)
    && Trusted(options, key, item.at)
    && b.s.acceptable(item.next)
    && (|options.keys| > 1 ==> Expects(b, options, items, k, item.next))
  }

  /** Of the keys given in order, this is the one after as many as were handed over. */
  ghost predicate Expects(b: Beside, options: SignatureOptions, items: seq<Item>, k: nat, next: Key)
    requires k <= |items| && options.keys != []
  {
    var index := After(b, options, items, k).keyIndex + 1;
    index < |options.keys| && options.keys[index] == next
  }

  // ----- Order -----

  /** The last place is the greatest of all readable items so far. */
  ghost predicate IsGreatest(items: seq<Item>, k: nat, place: nat)
    requires k <= |items|
  {
    && (forall i | 0 <= i < k && !items[i].Unreadable? :: Place(items[i]) <= place)
    && (place > 0 ==> exists i :: 0 <= i < k && !items[i].Unreadable? && Place(items[i]) == place)
  }

  lemma {:induction false} LastPlaceIsGreatest(b: Beside, options: SignatureOptions, items: seq<Item>, k: nat)
    requires k <= |items| && options.keys != []
    ensures IsGreatest(items, k, After(b, options, items, k).lastPlace)
  {
    hide RecordFinding, RotationFinding, SoundThrough, TrailThrough;
    if k > 0 {
      LastPlaceIsGreatest(b, options, items, k - 1);
      var before, place := After(b, options, items, k - 1).lastPlace, After(b, options, items, k).lastPlace;
      if place == before && place > 0 {
        var i :| 0 <= i < k - 1 && !items[i].Unreadable? && Place(items[i]) == place;
      }
    }
  }

  lemma OrderIs(b: Beside, options: SignatureOptions, items: seq<Item>, k: nat)
    requires k < |items| && options.keys != [] && !items[k].Unreadable?
    ensures OutOfOrder(After(b, options, items, k).lastPlace, items[k]) <==>
            !InOrder(items, k) || (items[k].RecordSignature? && Place(items[k]) == 0)
  {
    hide After;
    LastPlaceIsGreatest(b, options, items, k);
    var place := After(b, options, items, k).lastPlace;
    if place > 0 {
      var i :| 0 <= i < k && !items[i].Unreadable? && Place(items[i]) == place;
    }
  }

  lemma {:induction false} TrailSoFarIs(lines: seq<Bytes>, n: nat, trail: Bytes)
    requires n <= |lines|
    ensures TrailSoFar(lines, n, trail) <==> TrailThrough(lines, n) == trail && trail != []
  {
    hide LinkOf, Damaged;
    if n > 0 {
      if Stands(lines, n - 1) {
        IdentityIsSome(lines[n - 1]);
      } else {
        TrailSoFarIs(lines, n - 1, trail);
        if TrailSoFar(lines, n - 1, trail) {
          var k :| 0 <= k < n - 1 && Stands(lines, k) && TrailAt(lines, k) == trail
                   && forall m | k < m < n - 1 :: !Stands(lines, m);
          assert forall m | k < m < n :: !Stands(lines, m);
        }
      }
    }
  }

  // ----- What an item is found for -----

  /** When an item is found to be wrong in this way. */
  ghost predicate Wrong(b: Beside, options: SignatureOptions, items: seq<Item>, k: nat, name: SignatureFindingName)
    requires k < |items| && options.keys != []
  {
    var item, key := items[k], KeyAfter(b, options, items, k);
    !item.Unreadable? && NumberOf(item) > 0 &&
    match name
    case SidecarOutOfOrder => !InOrder(items, k)
    case SignatureNoRecord =>
      InOrder(items, k)
      && (NumberOf(item) > |b.lines| || (item.RecordSignature? && !RecordOfTrail(b.lines, item.sequence, item.trail)))
    case SignatureRecordMismatch =>
      InOrder(items, k) && item.RecordSignature? && RecordOfTrail(b.lines, item.sequence, item.trail)
      && item.record != b.h(b.lines[item.sequence - 1])
    case SignatureInvalid =>
      InOrder(items, k) && item.RecordSignature? && RecordOfTrail(b.lines, item.sequence, item.trail)
      && item.record == b.h(b.lines[item.sequence - 1])
      && !SignedWith(b.s, key, RecordMessage(item.trail, item.sequence, item.record), item.keyId, item.signature)
    case SignatureKeyRevoked =>
      InOrder(items, k) && !Trusted(options, key, NumberOf(item)) &&
      (if item.RecordSignature?
       then RecordOfTrail(b.lines, item.sequence, item.trail) && item.record == b.h(b.lines[item.sequence - 1])
            && SignedWith(b.s, key, RecordMessage(item.trail, item.sequence, item.record), item.keyId, item.signature)
       else item.at <= |b.lines| && TrailSoFar(b.lines, item.at, item.trail)
            && SignedWith(b.s, key, RotationMessage(item.trail, item.at, item.next), item.keyId, item.signature))
    case RotationInvalid =>
      InOrder(items, k) && item.KeyRotation? && item.at <= |b.lines| &&
      (|| !TrailSoFar(b.lines, item.at, item.trail)
       || !SignedWith(b.s, key, RotationMessage(item.trail, item.at, item.next), item.keyId, item.signature)
       || (Trusted(options, key, item.at)
           && (!b.s.acceptable(item.next)
               || (|options.keys| > 1 && !Expects(b, options, items, k, item.next)))))
    case SignatureMissing => false
  }

  lemma RevokedIs(options: SignatureOptions, key: Key, n: nat)
    ensures Revoked(options.revoked, key, n) <==> !Trusted(options, key, n)
  {
  }

  /** A signature in order, at a line: it signs it, or is wrong in exactly the way that is found. */
  lemma SignatureMeans(b: Beside, options: SignatureOptions, items: seq<Item>, k: nat)
    requires k < |items| && options.keys != [] && items[k].RecordSignature? && InOrder(items, k)
    requires 0 < items[k].sequence <= |b.lines|
    ensures var found := RecordFinding(b, options, KeyAfter(b, options, items, k), items[k]);
            && (found.None? <==> Signs(b, options, items, k))
            && forall name :: found == Some(name) <==> Wrong(b, options, items, k, name)
  {
    hide KeyAfter, InOrder, Damaged, LinkOf, RecordMessage, Revoked, Trusted, TrailSoFar;
    RevokedIs(options, KeyAfter(b, options, items, k), items[k].sequence);
  }

  lemma RotationMeans(b: Beside, options: SignatureOptions, items: seq<Item>, k: nat)
    requires k < |items| && options.keys != [] && items[k].KeyRotation? && InOrder(items, k)
    requires 0 < items[k].at <= |b.lines|
    ensures var p := After(b, options, items, k);
            var found := RotationFinding(b, options, p.current, p.keyIndex, TrailThrough(b.lines, items[k].at), items[k]);
            && (found.None? <==> HandsOver(b, options, items, k))
            && forall name :: found == Some(name) <==> Wrong(b, options, items, k, name)
  {
    hide After, InOrder, TrailThrough, RotationMessage, Revoked, Trusted, TrailSoFar;
    RevokedIs(options, KeyAfter(b, options, items, k), items[k].at);
    TrailSoFarIs(b.lines, items[k].at, items[k].trail);
  }

  // ----- One item more -----

  /** All that one item more does: it counts the record signed, hands the key over, or is found wrong. */
  lemma ItemMeans(b: Beside, options: SignatureOptions, items: seq<Item>, k: nat)
    requires k < |items| && options.keys != []
    requires !items[k].Unreadable? ==> NumberOf(items[k]) > 0
    ensures var p, q, item := After(b, options, items, k), After(b, options, items, k + 1), items[k];
            && (if Signs(b, options, items, k) then q.signedAt == p.signedAt + [item.sequence] else q.signedAt == p.signedAt)
            && (if HandsOver(b, options, items, k)
                then q.current == item.next && q.keyIndex == p.keyIndex + 1 && q.rotations == p.rotations + 1
                else q.current == p.current && q.keyIndex == p.keyIndex && q.rotations == p.rotations)
            && q.unreadable == p.unreadable + (if item.Unreadable? then 1 else 0)
            && (forall name | Wrong(b, options, items, k, name) ::
                  q.found == p.found + [SignatureFinding(name, NumberOf(item))])
            && ((forall name :: !Wrong(b, options, items, k, name)) ==> q.found == p.found)
  {
    hide After, InOrder, TrailThrough, RotationMessage, RecordMessage, Trusted, TrailSoFar, RecordFinding, RotationFinding,
         SoundThrough, RecordOfTrail, SignedWith, Expects;
    var p, item := After(b, options, items, k), items[k];
    AfterNext(b, options, items, k);
    if !item.Unreadable? {
      OrderIs(b, options, items, k);
      if !InOrder(items, k) || NumberOf(item) > |b.lines| {
        NotAtALine(b, options, items, k);
        assert Wrong(b, options, items, k, if InOrder(items, k) then SignatureNoRecord else SidecarOutOfOrder);
      } else if item.RecordSignature? {
        SignatureMeans(b, options, items, k);
      } else {
        RotationMeans(b, options, items, k);
      }
    }
  }

  lemma AfterNext(b: Beside, options: SignatureOptions, items: seq<Item>, k: nat)
    requires k < |items| && options.keys != []
    ensures After(b, options, items, k + 1) == Step(b, options, After(b, options, items, k), items[k])
  {
    hide Step;
  }

  /** Out of order, or past the trail's end, an item is found wrong in one way and does nothing. */
  lemma NotAtALine(b: Beside, options: SignatureOptions, items: seq<Item>, k: nat)
    requires k < |items| && options.keys != [] && !items[k].Unreadable? && NumberOf(items[k]) > 0
    requires !InOrder(items, k) || NumberOf(items[k]) > |b.lines|
    ensures !Signs(b, options, items, k) && !HandsOver(b, options, items, k)
    ensures forall name :: Wrong(b, options, items, k, name) <==>
                           name == if InOrder(items, k) then SignatureNoRecord else SidecarOutOfOrder
  {
    hide KeyAfter, InOrder, Trusted, TrailSoFar, SignedWith, Expects, RecordMessage, RotationMessage;
    var item := items[k];
    assert item.KeyRotation? ==> NumberOf(item) == item.at;
    assert item.RecordSignature? ==> NumberOf(item) == item.sequence;
    forall name: SignatureFindingName
      ensures Wrong(b, options, items, k, name) <==>
              name == if InOrder(items, k) then SignatureNoRecord else SidecarOutOfOrder
    {
      match name
      case SidecarOutOfOrder =>
      case SignatureNoRecord =>
      case SignatureRecordMismatch =>
      case SignatureInvalid =>
      case SignatureKeyRevoked =>
      case RotationInvalid =>
      case SignatureMissing =>
    }
  }

  // ----- A whole sidecar -----

  /** Every readable item is about some line. */
  ghost predicate AllNumbered(items: seq<Item>) { forall i | 0 <= i < |items| :: ItemNumbered(items[i]) }

  predicate ItemNumbered(item: Item) { !item.Unreadable? ==> NumberOf(item) > 0 }

  ghost predicate SignsNumber(b: Beside, options: SignatureOptions, items: seq<Item>, j: nat, n: nat)
    requires options.keys != []
  {
    j < |items| && Signs(b, options, items, j) && items[j].sequence == n
  }

  ghost predicate WrongSo(b: Beside, options: SignatureOptions, items: seq<Item>, j: nat, f: SignatureFinding)
    requires options.keys != []
  {
    j < |items| && Wrong(b, options, items, j, f.name) && NumberOf(items[j]) == f.line
  }

  /** A sequence is counted signed exactly when one of the items signs its record. */
  lemma {:induction false} CountedAre(b: Beside, options: SignatureOptions, items: seq<Item>, k: nat, n: nat)
    requires k <= |items| && options.keys != [] && AllNumbered(items)
    ensures n in After(b, options, items, k).signedAt <==>
            exists j: nat :: j < k && SignsNumber(b, options, items, j, n)
  {
    hide Signs, HandsOver, Wrong, Step;
    if k > 0 {
      CountedAre(b, options, items, k - 1, n);
      assert ItemNumbered(items[k - 1]);
      ItemMeans(b, options, items, k - 1);
      if n in After(b, options, items, k).signedAt {
        if n !in After(b, options, items, k - 1).signedAt {
          assert SignsNumber(b, options, items, k - 1, n);
        }
      }
    }
  }

  /** And a finding is made exactly when one of them is wrong so. */
  lemma {:induction false} FoundAre(b: Beside, options: SignatureOptions, items: seq<Item>, k: nat, f: SignatureFinding)
    requires k <= |items| && options.keys != [] && AllNumbered(items)
    ensures f in After(b, options, items, k).found <==>
            exists j: nat :: j < k && WrongSo(b, options, items, j, f)
  {
    hide Signs, HandsOver, Wrong, Step;
    if k > 0 {
      FoundAre(b, options, items, k - 1, f);
      assert ItemNumbered(items[k - 1]);
      ItemMeans(b, options, items, k - 1);
      if f in After(b, options, items, k).found && f !in After(b, options, items, k - 1).found {
        assert WrongSo(b, options, items, k - 1, f);
      }
    }
  }

  /** Where several keys are given in order, the key in force is always the one after as many as were handed over. */
  lemma {:induction false} KeyIsGiven(b: Beside, options: SignatureOptions, items: seq<Item>, k: nat)
    requires k <= |items| && options.keys != [] && AllNumbered(items)
    ensures var p := After(b, options, items, k);
            && p.keyIndex == p.rotations
            && (|options.keys| > 1 ==> p.keyIndex < |options.keys| && p.current == options.keys[p.keyIndex])
  {
    hide Signs, Wrong, Step, InOrder, TrailSoFar, SignedWith, Trusted;
    if k > 0 {
      KeyIsGiven(b, options, items, k - 1);
      assert ItemNumbered(items[k - 1]);
      ItemMeans(b, options, items, k - 1);
    }
  }

  lemma SidecarNumbered(sidecar: Bytes)
    ensures AllNumbered(ItemsOf(sidecar))
  {
    hide ItemsOf, ParseLine;
    forall i | 0 <= i < |ItemsOf(sidecar)|
      ensures ItemNumbered(ItemsOf(sidecar)[i])
    {
      SignatureReader.ItemInRange(sidecar, i);
    }
  }

  /** Of a whole sidecar: what is counted signed, what is found, and which key is in force. */
  lemma SidecarMeans(b: Beside, options: SignatureOptions, sidecar: Bytes)
    requires options.keys != []
    ensures var items, p := ItemsOf(sidecar), ReadSidecar(b, options, sidecar);
            && (forall n: nat :: n in p.signedAt <==>
                  exists j: nat :: j < |items| && SignsNumber(b, options, items, j, n))
            && (forall f :: f in p.found <==> exists j: nat :: j < |items| && WrongSo(b, options, items, j, f))
            && (|options.keys| > 1 ==> p.keyIndex < |options.keys| && p.current == options.keys[p.keyIndex])
  {
    hide Signs, Wrong, After, ItemsOf, SignsNumber, WrongSo, AllNumbered;
    var items := ItemsOf(sidecar);
    SidecarNumbered(sidecar);
    KeyIsGiven(b, options, items, |items|);
    forall n: nat {
      CountedAre(b, options, items, |items|, n);
    }
    forall f {
      FoundAre(b, options, items, |items|, f);
    }
  }
}
