/**
 The signature sidecar's lines: record signatures and key rotations, each a JSON object of exactly seven members.
 Signing is a parameter, an ideal scheme: nothing of it is assumed but what a statement says it needs.
 */
module Sidecar {
  import opened Octets
  import opened Decimal
  import opened Json
  import opened Chain
  import opened Records

  /** The longest sidecar line that is read. */
  const MAX_SIDECAR_LINE: nat := 4096

  /** A public key and a signature, in the hexadecimal form a line holds them in. */
  predicate IsKey(text: Bytes) { |text| == 64 && AllHex(text) }

  predicate IsSignature(text: Bytes) { |text| == 128 && AllHex(text) }

  type Key = text: Bytes | IsKey(text) witness Zeros(64)

  type Signature = text: Bytes | IsSignature(text) witness Zeros(128)

  /** Signing with a key's private half, checking with its public one, the name of a key, and the keys refused. */
  datatype Scheme = Scheme(sign: (Key, Bytes) -> Signature, verify: (Key, Bytes, Bytes) -> bool,
                           keyId: Key -> Identity, acceptable: Key -> bool)

  function Sign(s: Scheme, key: Key, message: Bytes): Signature { s.sign(key, message) }

  predicate Verifies(s: Scheme, key: Key, message: Bytes, signature: Bytes) { s.verify(key, message, signature) }

  function KeyId(s: Scheme, key: Key): Identity { s.keyId(key) }

  predicate Acceptable(s: Scheme, key: Key) { s.acceptable(key) }

  /** What a signature made with a key is checked with, it holds. */
  ghost predicate Complete(s: Scheme) {
    forall key: Key, message: Bytes :: Verifies(s, key, message, Sign(s, key, message))
  }

  // ----- What is signed -----

  const RECORD_PREFIX: Bytes := "judgment-pack-runtime/record-signature/1:"
  const ROTATION_PREFIX: Bytes := "judgment-pack-runtime/key-rotation/1:"

  const NEXT: Bytes := "next"
  const RECORD: Bytes := "record"
  const KEY_ID: Bytes := "keyId"
  const SIDECAR_VERSION: Bytes := "sidecarVersion"
  const SIGNATURE: Bytes := "signature"
  const RECORD_SIGNATURE: Bytes := "record-signature"
  const KEY_ROTATION: Bytes := "key-rotation"

  function RecordMessage(trail: Bytes, sequence: nat, record: Bytes): Bytes {
    RECORD_PREFIX +
    Encode(Object(Member(RECORD, Text(record), Member(SEQUENCE, Number(FromNat(sequence)), Member(TRAIL, Text(trail), End)))))
  }

  function RotationMessage(trail: Bytes, at: nat, next: Bytes): Bytes {
    ROTATION_PREFIX +
    Encode(Object(Member(AT, Number(FromNat(at)), Member(NEXT, Text(next), Member(TRAIL, Text(trail), End)))))
  }

  // ----- One line -----

  datatype Item =
    | Unreadable
    | RecordSignature(keyId: Bytes, trail: Bytes, sequence: nat, record: Bytes, signature: Bytes)
    | KeyRotation(keyId: Bytes, trail: Bytes, at: nat, next: Key, signature: Bytes)

  /** The trail line an item is about. */
  function NumberOf(item: Item): nat
    requires !item.Unreadable?
  {
    if item.KeyRotation? then item.at else item.sequence
  }

  /** Where a readable item belongs among the trail's lines: a rotation just after the line it follows. */
  function Place(item: Item): nat
    requires !item.Unreadable?
  {
    if item.KeyRotation? then 2 * item.at + 1 else 2 * item.sequence
  }

  predicate InRange(n: nat) { 1 <= n < MAX_SAFE_INTEGER }

  /** What seven members say, each of the form its kind gives it. */
  function ItemOf(ms: Members): Item {
    if |Names(ms)| != 7 || TextAt(ms, SIDECAR_VERSION) != Some(VERSION) then Unreadable
    else
      match (TextAt(ms, KIND), TextAt(ms, KEY_ID), TextAt(ms, TRAIL), TextAt(ms, SIGNATURE))
      case (Some(kind), Some(keyId), Some(trail), Some(signature)) =>
        if !IsIdentity(keyId) || !IsIdentity(trail) || !IsSignature(signature) then Unreadable
        else if kind == RECORD_SIGNATURE then
          (match (IntegerAt(ms, SEQUENCE), TextAt(ms, RECORD))
           case (Some(sequence), Some(record)) =>
             if InRange(sequence) && IsDigest(record)
             then RecordSignature(keyId, trail, sequence, record, signature) else Unreadable
           case _ => Unreadable)
        else if kind == KEY_ROTATION then
          (match (IntegerAt(ms, AT), TextAt(ms, NEXT))
           case (Some(at), Some(next)) =>
             if InRange(at) && IsKey(next) then KeyRotation(keyId, trail, at, next, signature) else Unreadable
           case _ => Unreadable)
        else Unreadable
      case _ => Unreadable
  }

  function ParseLine(line: Bytes): (item: Item)
    ensures item.RecordSignature? ==> InRange(item.sequence)
    ensures item.KeyRotation? ==> InRange(item.at)
  {
    if |line| > MAX_SIDECAR_LINE then Unreadable
    else
      match ReadObject(line)
      case None => Unreadable
      case Some(ms) => ItemOf(ms)
  }

  /** An item a writer writes: its values are of the forms it is read by. */
  predicate IsItem(item: Item) {
    match item
    case Unreadable => false
    case RecordSignature(keyId, trail, sequence, record, signature) =>
      IsIdentity(keyId) && IsIdentity(trail) && InRange(sequence) && IsDigest(record) && IsSignature(signature)
    case KeyRotation(keyId, trail, at, next, signature) =>
      IsIdentity(keyId) && IsIdentity(trail) && InRange(at) && IsSignature(signature)
  }

  function Closing(signature: Bytes, trail: Bytes): Members {
    Member(SIDECAR_VERSION, Text(VERSION), Member(SIGNATURE, Text(signature), Member(TRAIL, Text(trail), End)))
  }

  /** The members an item is written with, sorted by name. */
  function ItemMembers(item: Item): Members
    requires !item.Unreadable?
  {
    match item
    case RecordSignature(keyId, trail, sequence, record, signature) =>
      Member(KEY_ID, Text(keyId), Member(KIND, Text(RECORD_SIGNATURE), Member(RECORD, Text(record),
        Member(SEQUENCE, Number(FromNat(sequence)), Closing(signature, trail)))))
    case KeyRotation(keyId, trail, at, next, signature) =>
      Member(AT, Number(FromNat(at)), Member(KEY_ID, Text(keyId), Member(KIND, Text(KEY_ROTATION),
        Member(NEXT, Text(next), Closing(signature, trail)))))
  }

  /** One item as a line, without the newline that ends it. */
  function ItemLine(item: Item): Bytes
    requires !item.Unreadable?
  {
    Encode(Object(ItemMembers(item)))
  }

  // ----- What is written reads back -----

  lemma HexIsPlain(text: Bytes)
    requires AllHex(text)
    ensures AllPlain(text)
  {
  }

  lemma SidecarNamesDiffer()
    ensures KEY_ID != KIND && KEY_ID != RECORD && KEY_ID != SEQUENCE && KEY_ID != SIDECAR_VERSION && KEY_ID != SIGNATURE
    ensures KEY_ID != TRAIL && KEY_ID != AT && KEY_ID != NEXT && KIND != RECORD && KIND != SEQUENCE
    ensures KIND != SIDECAR_VERSION && KIND != SIGNATURE && KIND != TRAIL && KIND != AT && KIND != NEXT
    ensures RECORD != SEQUENCE && RECORD != SIDECAR_VERSION && RECORD != SIGNATURE && RECORD != TRAIL
    ensures SEQUENCE != SIDECAR_VERSION && SEQUENCE != SIGNATURE && SEQUENCE != TRAIL
    ensures SIDECAR_VERSION != SIGNATURE && SIDECAR_VERSION != TRAIL && SIGNATURE != TRAIL
    ensures AT != NEXT && AT != SIDECAR_VERSION && AT != SIGNATURE && AT != TRAIL
    ensures NEXT != SIDECAR_VERSION && NEXT != SIGNATURE && NEXT != TRAIL
    ensures RECORD_SIGNATURE != KEY_ROTATION
  {
    assert KEY_ID[0] == 'k' && KEY_ID[1] == 'e' && KIND[0] == 'k' && KIND[1] == 'i' && RECORD[0] == 'r' && AT[0] == 'a';
    assert SEQUENCE[0] == 's' && SEQUENCE[1] == 'e' && SIDECAR_VERSION[0] == 's' && SIDECAR_VERSION[1] == 'i';
    assert SIDECAR_VERSION[2] == 'd' && SIGNATURE[0] == 's' && SIGNATURE[1] == 'i' && SIGNATURE[2] == 'g';
    assert TRAIL[0] == 't' && NEXT[0] == 'n' && RECORD_SIGNATURE[0] == 'r' && KEY_ROTATION[0] == 'k';
  }

  lemma SidecarNamesArePlain()
    ensures AllPlain(KEY_ID) && AllPlain(KIND) && AllPlain(RECORD) && AllPlain(SEQUENCE) && AllPlain(SIDECAR_VERSION)
    ensures AllPlain(SIGNATURE) && AllPlain(TRAIL) && AllPlain(AT) && AllPlain(NEXT)
    ensures AllPlain(RECORD_SIGNATURE) && AllPlain(KEY_ROTATION) && AllPlain(VERSION)
  {
  }

  lemma ClosingReads(signature: Bytes, trail: Bytes)
    requires IsSignature(signature) && IsIdentity(trail)
    ensures var ms := Closing(signature, trail);
            && ValidMembers(ms) && NamedOnce(ms) && Names(ms) == [SIDECAR_VERSION, SIGNATURE, TRAIL]
            && Lookup(ms, SIDECAR_VERSION) == Some(Text(VERSION)) && Lookup(ms, SIGNATURE) == Some(Text(signature))
            && Lookup(ms, TRAIL) == Some(Text(trail))
  {
    hide ValidMembers, NamedOnce, Names, Lookup, AllPlain, AllHex;
    SidecarNamesDiffer();
    SidecarNamesArePlain();
    HexIsPlain(signature);
    HexIsPlain(trail);
    NoMembers();
    var last := Member(TRAIL, Text(trail), End);
    OneMore(TRAIL, Text(trail), End);
    OneMore(SIGNATURE, Text(signature), last);
    OneMore(SIDECAR_VERSION, Text(VERSION), Member(SIGNATURE, Text(signature), last));
  }

  lemma SignatureMembersRead(item: Item)
    requires item.RecordSignature? && IsItem(item)
    ensures var ms := ItemMembers(item); ValidMembers(ms) && NamedOnce(ms) && ItemOf(ms) == item
  {
    hide ValidMembers, NamedOnce, Names, Lookup, AllPlain, AllHex, Closing, IsDigest, InRange;
    SidecarNamesDiffer();
    SidecarNamesArePlain();
    HexIsPlain(item.keyId);
    IdentityIsPlain(item.record);
    ReadsBack(item.sequence);
    ClosingReads(item.signature, item.trail);
    var closing := Closing(item.signature, item.trail);
    var sequenced := Member(SEQUENCE, Number(FromNat(item.sequence)), closing);
    OneMore(SEQUENCE, Number(FromNat(item.sequence)), closing);
    var recorded := Member(RECORD, Text(item.record), sequenced);
    OneMore(RECORD, Text(item.record), sequenced);
    var kinded := Member(KIND, Text(RECORD_SIGNATURE), recorded);
    OneMore(KIND, Text(RECORD_SIGNATURE), recorded);
    OneMore(KEY_ID, Text(item.keyId), kinded);
  }

  /** A rotation after a line past the last one every reader counts exactly is one no reader reads. */
  lemma RotationMembersRead(item: Item)
    requires item.KeyRotation? && IsIdentity(item.keyId) && IsIdentity(item.trail) && IsSignature(item.signature)
    ensures var ms := ItemMembers(item);
            ValidMembers(ms) && NamedOnce(ms) && ItemOf(ms) == if InRange(item.at) then item else Unreadable
  {
    hide ValidMembers, NamedOnce, Names, Lookup, AllPlain, AllHex, Closing, InRange;
    SidecarNamesDiffer();
    SidecarNamesArePlain();
    HexIsPlain(item.keyId);
    HexIsPlain(item.next);
    ReadsBack(item.at);
    ClosingReads(item.signature, item.trail);
    var closing := Closing(item.signature, item.trail);
    var nexted := Member(NEXT, Text(item.next), closing);
    OneMore(NEXT, Text(item.next), closing);
    var kinded := Member(KIND, Text(KEY_ROTATION), nexted);
    OneMore(KIND, Text(KEY_ROTATION), nexted);
    var keyed := Member(KEY_ID, Text(item.keyId), kinded);
    OneMore(KEY_ID, Text(item.keyId), kinded);
    OneMore(AT, Number(FromNat(item.at)), keyed);
  }

  // ----- Its length -----

  lemma {:induction false} NumeralLength(n: nat, k: nat)
    requires 0 < k && n < PowerOfTen(k)
    ensures |FromNat(n)| <= k
  {
    if n >= 10 {
      NumeralLength(n / 10, k - 1);
    }
  }

  lemma {:induction false} PowersMultiply(j: nat, k: nat)
    ensures PowerOfTen(j + k) == PowerOfTen(j) * PowerOfTen(k)
  {
    if j > 0 {
      PowersMultiply(j - 1, k);
      assert PowerOfTen(j + k) == 10 * PowerOfTen(j - 1 + k);
      assert PowerOfTen(j) * PowerOfTen(k) == 10 * (PowerOfTen(j - 1) * PowerOfTen(k));
    }
  }

  lemma SafeNumeralLength(n: nat)
    requires n < MAX_SAFE_INTEGER
    ensures |FromNat(n)| <= 16
  {
    assert PowerOfTen(2) == 100;
    PowersMultiply(2, 2);
    PowersMultiply(4, 4);
    PowersMultiply(8, 8);
    NumeralLength(n, 16);
  }

  /** The bytes an object's members take, with the braces, commas and quotes about them. */
  function SizeOf(ms: Members): nat {
    if ms.End? then 0 else |ms.name| + |Encode(ms.value)| + 4 + SizeOf(ms.rest)
  }

  lemma {:induction false} EncodedSize(ms: Members)
    requires ms.Member?
    ensures |EncodeMembers(ms)| <= SizeOf(ms)
  {
    hide Encode;
    if ms.rest.Member? {
      EncodedSize(ms.rest);
    }
    assert |EncodeClosing(ms)| <= SizeOf(ms.rest) + 1;
    assert |EncodeNamed(ms)| == 1 + |Encode(ms.value)| + |EncodeClosing(ms)|;
  }

  lemma ItemFits(item: Item)
    requires IsItem(item)
    ensures |ItemLine(item)| <= MAX_SIDECAR_LINE
  {
    hide EncodeMembers, AllHex, IsHex;
    var ms := ItemMembers(item);
    EncodedSize(ms);
    SafeNumeralLength(NumberOf(item));
    var closing := Closing(item.signature, item.trail);
    var last := Member(TRAIL, Text(item.trail), End);
    assert SizeOf(last) <= 100;
    assert SizeOf(closing) <= 300;
    match item
    case RecordSignature(keyId, trail, sequence, record, signature) =>
      var sequenced := Member(SEQUENCE, Number(FromNat(sequence)), closing);
      var recorded := Member(RECORD, Text(record), sequenced);
      assert SizeOf(sequenced) <= 400;
      assert SizeOf(recorded) <= 500;
    case KeyRotation(keyId, trail, at, next, signature) =>
      var nexted := Member(NEXT, Text(next), closing);
      var kinded := Member(KIND, Text(KEY_ROTATION), nexted);
      assert SizeOf(nexted) <= 400;
      assert SizeOf(kinded) <= 500;
  }

  /** A written item reads back as itself, and its line holds no newline. */
  lemma ItemReads(item: Item)
    requires IsItem(item)
    ensures ParseLine(ItemLine(item)) == item && '\n' !in ItemLine(item)
  {
    hide ItemMembers, ValidMembers, NamedOnce, ItemOf, Encode, ReadValue, IsDigest, IsIdentity;
    ItemFits(item);
    if item.RecordSignature? {
      SignatureMembersRead(item);
    } else {
      RotationMembersRead(item);
    }
    var ms := ItemMembers(item);
    ValueIsValid(ms);
    ValueReadsBack(Object(ms), []);
    assert Encode(Object(ms)) + [] == Encode(Object(ms));
    EncodedIsPrintable(Object(ms));
  }

  /** A rotation's line holds no newline, and reads back where its number is in range. */
  lemma RotationReads(item: Item)
    requires item.KeyRotation? && IsIdentity(item.keyId) && IsIdentity(item.trail) && IsSignature(item.signature)
    ensures ParseLine(ItemLine(item)) == (if InRange(item.at) then item else Unreadable)
    ensures '\n' !in ItemLine(item)
  {
    hide ItemMembers, ValidMembers, NamedOnce, ItemOf, Encode, ReadValue, IsIdentity, InRange;
    RotationMembersRead(item);
    if InRange(item.at) {
      ItemFits(item);
    }
    var ms := ItemMembers(item);
    ValueIsValid(ms);
    ValueReadsBack(Object(ms), []);
    assert Encode(Object(ms)) + [] == Encode(Object(ms));
    EncodedIsPrintable(Object(ms));
  }

  // ----- The byte no line can end in -----

  predicate Consumed(s: Bytes, rest: Bytes) { |rest| < |s| && s[|s| - |rest|..] == rest }

  /** The last byte read was a closing brace. */
  predicate Braced(s: Bytes, rest: Bytes) { Consumed(s, rest) && s[|s| - |rest| - 1] == '}' }

  lemma ConsumedMore(s: Bytes, middle: Bytes, rest: Bytes)
    requires Consumed(s, middle)
    ensures Consumed(middle, rest) ==> Consumed(s, rest)
    ensures Braced(middle, rest) ==> Braced(s, rest)
  {
    if Consumed(middle, rest) {
      var k := |s| - |middle|;
      assert s[|s| - |rest|..] == middle[|middle| - |rest|..];
      assert s[k..][|middle| - |rest| - 1] == s[|s| - |rest| - 1];
    }
  }

  lemma {:induction false} TextConsumes(s: Bytes)
    ensures ReadText(s).Done? ==> Consumed(s, ReadText(s).rest)
  {
    if s != [] && s[0] != '"' && IsPlain(s[0]) {
      TextConsumes(s[1..]);
      assert Consumed(s, s[1..]);
      if ReadText(s[1..]).Done? {
        ConsumedMore(s, s[1..], ReadText(s[1..]).rest);
      }
    }
  }

  lemma {:induction false} DigitsConsume(s: Bytes)
    ensures ReadDigits(s).value != [] ==> Consumed(s, ReadDigits(s).rest)
    ensures ReadDigits(s).value == [] ==> ReadDigits(s).rest == s
  {
    if s != [] && IsDigit(s[0]) {
      DigitsConsume(s[1..]);
      assert Consumed(s, s[1..]);
      ConsumedMore(s, s[1..], ReadDigits(s[1..]).rest);
    }
  }

  lemma {:induction false} ValueConsumes(s: Bytes)
    ensures ReadValue(s).Done? ==> Consumed(s, ReadValue(s).rest)
    ensures ReadValue(s).Done? && ReadValue(s).value.Object? ==> Braced(s, ReadValue(s).rest)
    decreases |s|, 3
  {
    if s == [] {
    } else {
      hide ReadText, ReadDigits, ReadMembers;
      assert Consumed(s, s[1..]);
      if s[0] == '"' {
        TextConsumes(s[1..]);
        if ReadText(s[1..]).Done? {
          ConsumedMore(s, s[1..], ReadText(s[1..]).rest);
        }
      } else if s[0] == '{' {
        if !(|s| > 1 && s[1] == '}') {
          MembersConsume(s[1..]);
          if ReadMembers(s[1..]).Done? {
            ConsumedMore(s, s[1..], ReadMembers(s[1..]).rest);
          }
        }
      } else if IsDigit(s[0]) {
        DigitsConsume(s);
      }
    }
  }

  lemma {:induction false} MembersConsume(s: Bytes)
    ensures ReadMembers(s).Done? ==> Braced(s, ReadMembers(s).rest)
    decreases |s|, 2
  {
    hide ReadText, ReadNamed;
    if s != [] && s[0] == '"' {
      assert Consumed(s, s[1..]);
      TextConsumes(s[1..]);
      var name := ReadText(s[1..]);
      if name.Done? {
        ConsumedMore(s, s[1..], name.rest);
        NamedConsumes(name.value, name.rest);
        var r := ReadNamed(name.value, name.rest);
        if r.Done? {
          ConsumedMore(s, name.rest, r.rest);
        }
      }
    }
  }

  lemma {:induction false} NamedConsumes(name: Bytes, s: Bytes)
    ensures ReadNamed(name, s).Done? ==> Braced(s, ReadNamed(name, s).rest)
    decreases |s|, 1
  {
    hide ReadValue, ReadClosing;
    if s != [] && s[0] == ':' {
      assert Consumed(s, s[1..]);
      ValueConsumes(s[1..]);
      var value := ReadValue(s[1..]);
      if value.Done? {
        ConsumedMore(s, s[1..], value.rest);
        ClosingConsumes(name, value.value, value.rest);
        var r := ReadClosing(name, value.value, value.rest);
        if r.Done? {
          ConsumedMore(s, value.rest, r.rest);
        }
      }
    }
  }

  lemma {:induction false} ClosingConsumes(name: Bytes, value: Value, s: Bytes)
    ensures ReadClosing(name, value, s).Done? ==> Braced(s, ReadClosing(name, value, s).rest)
    decreases |s|, 0
  {
    hide ReadMembers;
    if s != [] {
      assert Consumed(s, s[1..]);
      if s[0] == ',' {
        MembersConsume(s[1..]);
        var r := ReadMembers(s[1..]);
        if r.Done? {
          ConsumedMore(s, s[1..], r.rest);
        }
      }
    }
  }

  const TORN_LINE_END: Bytes := "~\n"

  /** A line ended after its own bytes by a tilde is never a sidecar line, whatever it holds. */
  lemma TornStaysUnreadable(torn: Bytes)
    ensures ParseLine(torn + ['~']) == Unreadable
  {
    hide ReadValue, ItemOf;
    ValueConsumes(torn + ['~']);
  }
}
