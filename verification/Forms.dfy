/**
 What the bytes of a line must hold to be read as what they are read as: the members that make a link, a named damage,
 a binding, a signature or a rotation, each by name, kind of value and form, and no others.
 */
module Forms {
  import opened Octets
  import opened Decimal
  import opened Json
  import opened Chain
  import opened Records
  import opened Sidecar
  import opened Checkpoints
  import StampFile

  ghost predicate LowerHex(text: Bytes) { forall c | c in text :: c in "0123456789abcdef" }

  /** A digest's name, and its 64 digits. */
  ghost predicate DigestForm(text: Bytes) { |text| == 71 && text[..7] == "sha256:" && LowerHex(text[7..]) }

  /** An object has members of these names and no others. */
  ghost predicate HasExactly(ms: Members, names: set<Bytes>) { (set n | n in Names(ms)) == names }

  lemma {:induction false} HexIs(text: Bytes)
    ensures AllHex(text) <==> LowerHex(text)
  {
    forall c: char
      ensures IsHex(c) <==> c in "0123456789abcdef"
    {
      OneOfHex(c);
    }
    if LowerHex(text) {
      forall i | 0 <= i < |text|
        ensures IsHex(text[i])
      {
        assert text[i] in text;
      }
    }
  }

  lemma OneOfHex(c: char)
    ensures IsHex(c) <==> c in "0123456789abcdef"
  {
    var digits := "0123456789abcdef";
    if '0' <= c <= '9' {
      assert digits[c as int - '0' as int] == c;
    } else if 'a' <= c <= 'f' {
      assert digits[c as int - 'a' as int + 10] == c;
    }
  }

  lemma DigestIs(text: Bytes)
    ensures IsDigest(text) <==> DigestForm(text)
  {
    if |text| == 71 {
      HexIs(text[7..]);
      assert SHA256 == "sha256:";
      if IsDigest(text) {
        assert forall i | 0 <= i < 64 :: text[7..][i] == text[7 + i];
      }
      if DigestForm(text) {
        assert forall i | 0 <= i < 7 :: text[..7][i] == text[i];
        assert forall i | 7 <= i < 71 :: text[7..][i - 7] == text[i];
      }
    }
  }

  lemma IdentityIs(text: Bytes)
    ensures IsIdentity(text) <==> |text| == 32 && LowerHex(text)
  {
    HexIs(text);
  }

  lemma IntegerIs(ms: Members, name: Bytes, n: nat)
    ensures IntegerAt(ms, name) == Some(n) <==> Lookup(ms, name) == Some(Number(FromNat(n)))
  {
    ReadsBack(n);
    match Lookup(ms, name)
    case Some(Number(digits)) =>
      if IsNumeral(digits) {
        SpelledOnce(digits);
      }
    case _ =>
  }

  // ----- How many names -----

  lemma {:induction false} NamesCounted(ms: Members)
    requires NamedOnce(ms)
    ensures |set n | n in Names(ms)| == |Names(ms)|
  {
    if ms.Member? {
      NamesCounted(ms.rest);
      assert (set n | n in Names(ms)) == {ms.name} + (set n | n in Names(ms.rest));
    } else {
      assert (set n | n in Names(ms)) == {};
    }
  }

  /** With as many members as names, all of them there, there are no others. */
  lemma ExactlyThese(ms: Members, names: set<Bytes>)
    requires NamedOnce(ms)
    ensures HasExactly(ms, names) <==> |Names(ms)| == |names| && forall n | n in names :: Lookup(ms, n).Some?
  {
    NamesCounted(ms);
    var own := set n | n in Names(ms);
    forall n: Bytes
      ensures n in own <==> Lookup(ms, n).Some?
    {
      LookupNames(ms, n);
    }
    if |own| == |names| && names <= own {
      SameSize(names, own);
    }
  }

  lemma SameSize(a: set<Bytes>, b: set<Bytes>)
    requires a <= b && |a| == |b|
    ensures a == b
  {
    assert b == a + (b - a);
    assert |b| == |a| + |b - a|;
  }

  // ----- A record of the chain -----

  ghost predicate HoldsLink(ms: Members, link: Link) {
    && Lookup(ms, "trail") == Some(Text(link.trail)) && |link.trail| == 32 && LowerHex(link.trail)
    && Lookup(ms, "sequence") == Some(Number(FromNat(link.sequence))) && 1 <= link.sequence <= 9007199254740990
    && Lookup(ms, "previous") == Some(Text(link.previous)) && DigestForm(link.previous)
  }

  lemma LinkInIs(ms: Members, link: Link)
    ensures LinkIn(ms) == Some(link) <==> HoldsLink(ms, link)
  {
    hide IsIdentity, IsDigest, DigestForm, LowerHex;
    IntegerIs(ms, SEQUENCE, link.sequence);
    IdentityIs(link.trail);
    DigestIs(link.previous);
    assert TRAIL == "trail" && SEQUENCE == "sequence" && PREVIOUS == "previous";
  }

  /** A line is a chained record exactly when it is short enough to be read and its object holds a link. */
  lemma LinkIs(line: Bytes, link: Link)
    ensures LinkOf(line) == Some(link) <==>
            |line| <= 134217728 && ReadObject(line).Some? && HoldsLink(ReadObject(line).value, link)
  {
    hide LinkIn, ReadObject, HoldsLink;
    if ReadObject(line).Some? {
      LinkInIs(ReadObject(line).value, link);
    }
  }

  lemma KindIs(line: Bytes)
    ensures OfDiscontinuityKind(line) <==>
            && |line| <= 134217728 && ReadObject(line).Some?
            && Lookup(ReadObject(line).value, "kind") == Some(Text("discontinuity"))
  {
    hide ReadObject;
    assert KIND == "kind" && DISCONTINUITY == "discontinuity";
  }

  /** The four members of the object that names a damage. */
  ghost predicate HoldsDamage(inner: Members, damage: Damage) {
    && HasExactly(inner, {"reason", "line", "bytes", "digest"})
    && Lookup(inner, "reason") == Some(Text("incomplete-last-line"))
    && Lookup(inner, "line") == Some(Number(FromNat(damage.line))) && 1 <= damage.line <= 9007199254740990
    && Lookup(inner, "bytes") == Some(Number(FromNat(damage.bytes))) && damage.bytes <= 9007199254740990
    && Lookup(inner, "digest") == Some(Text(damage.digest)) && DigestForm(damage.digest)
  }

  lemma FourNames()
    ensures |{REASON, LINE, BYTES, DIGEST}| == 4
    ensures REASON == "reason" && LINE == "line" && BYTES == "bytes" && DIGEST == "digest"
    ensures INCOMPLETE == "incomplete-last-line" && DISCONTINUITY == "discontinuity"
  {
    assert REASON[0] == 'r' && LINE[0] == 'l' && BYTES[0] == 'b' && DIGEST[0] == 'd';
  }

  /** A damage is named exactly by those four, none of them twice, within what every reader holds. */
  lemma DamageIs(ms: Members, damage: Damage)
    ensures DamageIn(ms) == Some(damage) <==>
            exists inner :: Lookup(ms, "discontinuity") == Some(Object(inner)) && NamedOnce(inner) && HoldsDamage(inner, damage)
  {
    hide IsDigest, DigestForm, NamedOnce, HasExactly, Names;
    FourNames();
    match Lookup(ms, DISCONTINUITY)
    case Some(Object(inner)) =>
      IntegerIs(inner, LINE, damage.line);
      IntegerIs(inner, BYTES, damage.bytes);
      DigestIs(damage.digest);
      if NamedOnce(inner) {
        ExactlyThese(inner, {REASON, LINE, BYTES, DIGEST});
      }
      assert DamageIn(ms) == Some(damage) <==> NamedOnce(inner) && HoldsDamage(inner, damage);
    case _ =>
  }

  // ----- A binding -----

  predicate IsBindingKindLetter(c: char) {
    c in "abcdefghijklm" || c in "nopqrstuvwxyz" || c in "0123456789" || c in "._/-"
  }

  ghost predicate BindingKindForm(kind: Bytes) { 1 <= |kind| <= 128 && forall c | c in kind :: IsBindingKindLetter(c) }

  ghost predicate IsBinding(value: Value, kind: Bytes, digest: Bytes) {
    && BindingKindForm(kind) && DigestForm(digest)
    && (|| value == Object(Member("kind", Text(kind), Member("digest", Text(digest), End)))
        || value == Object(Member("digest", Text(digest), Member("kind", Text(kind), End))))
  }

  lemma OneOfLetters(c: char)
    ensures 'a' <= c <= 'z' <==> c in "abcdefghijklm" || c in "nopqrstuvwxyz"
  {
    if 'a' <= c <= 'm' {
      assert "abcdefghijklm"[c as int - 'a' as int] == c;
    } else if 'n' <= c <= 'z' {
      assert "nopqrstuvwxyz"[c as int - 'n' as int] == c;
    }
  }

  lemma OneOfDigits(c: char)
    ensures '0' <= c <= '9' <==> c in "0123456789"
  {
    if '0' <= c <= '9' {
      assert "0123456789"[c as int - '0' as int] == c;
    }
  }

  lemma OneOfBindingKind(c: char)
    ensures IsBindingKindByte(c) <==> IsBindingKindLetter(c)
  {
    OneOfLetters(c);
    OneOfDigits(c);
    OneOfMarks(c);
  }

  lemma OneOfMarks(c: char)
    ensures c == '.' || c == '_' || c == '/' || c == '-' <==> c in "._/-"
  {
    assert "._/-" == ['.', '_', '/', '-'];
  }

  lemma BindingKindIs(kind: Bytes)
    ensures 1 <= |kind| <= 128 && (forall i | 0 <= i < |kind| :: IsBindingKindByte(kind[i])) <==> BindingKindForm(kind)
  {
    hide IsBindingKindByte, IsBindingKindLetter;
    forall c: char
      ensures IsBindingKindByte(c) <==> IsBindingKindLetter(c)
    {
      OneOfBindingKind(c);
    }
    if BindingKindForm(kind) {
      forall i | 0 <= i < |kind|
        ensures IsBindingKindByte(kind[i])
      {
        assert kind[i] in kind;
      }
    }
  }

  lemma BindingFits(value: Value, kind: Bytes, digest: Bytes)
    requires IsBinding(value, kind, digest)
    ensures value.Object? && |Encode(value)| <= 1024
  {
    hide LowerHex;
    var ms := value.members;
    var last := ms.rest;
    assert |Encode(last.value)| <= 130 && |Encode(ms.value)| <= 130;
    assert EncodeClosing(last) == ['}'];
    assert |EncodeNamed(last)| <= 140;
    assert |EncodeMembers(last)| <= 160;
    assert |EncodeClosing(ms)| <= 170;
    assert |EncodeNamed(ms)| <= 310;
    assert |EncodeMembers(ms)| <= 330;
  }

  lemma TwoMembers(ms: Members)
    requires NamedOnce(ms) && |Names(ms)| == 2 && TextAt(ms, KIND).Some? && TextAt(ms, DIGEST).Some?
    ensures var kind, digest := TextAt(ms, KIND).value, TextAt(ms, DIGEST).value;
            || ms == Member(KIND, Text(kind), Member(DIGEST, Text(digest), End))
            || ms == Member(DIGEST, Text(digest), Member(KIND, Text(kind), End))
  {
    assert KIND[0] == 'k' && DIGEST[0] == 'd';
    assert ms.Member? && ms.rest.Member? && ms.rest.rest.End?;
    OnlyTwo(ms, KIND);
    OnlyTwo(ms, DIGEST);
  }

  lemma OnlyTwo(ms: Members, name: Bytes)
    requires ms.Member? && ms.rest.Member? && ms.rest.rest.End?
    ensures Lookup(ms, name) ==
            if ms.name == name then Some(ms.value) else if ms.rest.name == name then Some(ms.rest.value) else None
  {
    assert Lookup(ms.rest.rest, name) == None;
    assert Lookup(ms.rest, name) == if ms.rest.name == name then Some(ms.rest.value) else None;
  }

  /** A record's binding is well formed exactly when it is a kind and a digest, in either order, and nothing else. */
  lemma BindingIs(ms: Members)
    ensures BindingWellFormed(ms) <==>
            match Lookup(ms, "binding")
            case None => true
            case Some(value) => exists kind: Bytes, digest: Bytes :: IsBinding(value, kind, digest)
  {
    hide IsBindingKindByte, IsDigest, DigestForm, BindingKindForm, Encode, NamedOnce, Names;
    assert BINDING == "binding" && KIND == "kind" && DIGEST == "digest";
    if Lookup(ms, BINDING).Some? {
      var value := Lookup(ms, BINDING).value;
      if BindingWellFormed(ms) {
        var kind, digest := TextAt(value.members, KIND).value, TextAt(value.members, DIGEST).value;
        TwoMembers(value.members);
        BindingKindIs(kind);
        DigestIs(digest);
        assert IsBinding(value, kind, digest);
      }
      if kind: Bytes, digest: Bytes :| IsBinding(value, kind, digest) {
        BindingFits(value, kind, digest);
        BindingRead(value, kind, digest);
        BindingKindIs(kind);
        DigestIs(digest);
      }
    }
  }

  lemma BindingRead(value: Value, kind: Bytes, digest: Bytes)
    requires IsBinding(value, kind, digest)
    ensures NamedOnce(value.members) && |Names(value.members)| == 2
    ensures TextAt(value.members, KIND) == Some(kind) && TextAt(value.members, DIGEST) == Some(digest)
  {
    hide BindingKindForm, DigestForm;
    assert KIND == "kind" && DIGEST == "digest" && KIND[0] == 'k' && DIGEST[0] == 'd';
    var ms := value.members;
    OnlyTwo(ms, KIND);
    OnlyTwo(ms, DIGEST);
    assert Names(ms.rest.rest) == [] && NamedOnce(ms.rest.rest);
    assert Names(ms.rest) == [ms.rest.name] && NamedOnce(ms.rest);
    assert Names(ms) == [ms.name, ms.rest.name];
  }

  // ----- A sidecar's line -----

  ghost predicate SignatureForm(text: Bytes) { |text| == 128 && LowerHex(text) }

  /** What both kinds of line hold. */
  ghost predicate HoldsItem(ms: Members, kind: Bytes, keyId: Bytes, trail: Bytes, signature: Bytes) {
    && Lookup(ms, "sidecarVersion") == Some(Text("1")) && Lookup(ms, "kind") == Some(Text(kind))
    && Lookup(ms, "keyId") == Some(Text(keyId)) && |keyId| == 32 && LowerHex(keyId)
    && Lookup(ms, "trail") == Some(Text(trail)) && |trail| == 32 && LowerHex(trail)
    && Lookup(ms, "signature") == Some(Text(signature)) && SignatureForm(signature)
  }

  ghost predicate HoldsSignature(ms: Members, item: Item) {
    && item.RecordSignature?
    && HasExactly(ms, {"keyId", "kind", "record", "sequence", "sidecarVersion", "signature", "trail"})
    && HoldsItem(ms, "record-signature", item.keyId, item.trail, item.signature)
    && Lookup(ms, "record") == Some(Text(item.record)) && DigestForm(item.record)
    && Lookup(ms, "sequence") == Some(Number(FromNat(item.sequence))) && 1 <= item.sequence <= 9007199254740990
  }

  ghost predicate HoldsRotation(ms: Members, item: Item) {
    && item.KeyRotation?
    && HasExactly(ms, {"at", "keyId", "kind", "next", "sidecarVersion", "signature", "trail"})
    && HoldsItem(ms, "key-rotation", item.keyId, item.trail, item.signature)
    && Lookup(ms, "next") == Some(Text(item.next)) && |item.next| == 64 && LowerHex(item.next)
    && Lookup(ms, "at") == Some(Number(FromNat(item.at))) && 1 <= item.at <= 9007199254740990
  }

  lemma SevenNames()
    ensures |{KEY_ID, KIND, RECORD, SEQUENCE, SIDECAR_VERSION, SIGNATURE, TRAIL}| == 7
    ensures |{AT, KEY_ID, KIND, NEXT, SIDECAR_VERSION, SIGNATURE, TRAIL}| == 7
    ensures KEY_ID == "keyId" && KIND == "kind" && RECORD == "record" && SEQUENCE == "sequence" && TRAIL == "trail"
    ensures SIDECAR_VERSION == "sidecarVersion" && SIGNATURE == "signature" && AT == "at" && NEXT == "next"
    ensures RECORD_SIGNATURE == "record-signature" && KEY_ROTATION == "key-rotation" && VERSION == "1"
    ensures RECORD_SIGNATURE != KEY_ROTATION
  {
    SidecarNamesDiffer();
  }

  lemma RangeIs(n: nat)
    ensures InRange(n) <==> 1 <= n <= 9007199254740990
  {
  }

  lemma TextIs(ms: Members, name: Bytes, text: Bytes)
    ensures TextAt(ms, name) == Some(text) <==> Lookup(ms, name) == Some(Text(text))
  {
  }

  /** The five members that both kinds of line hold, as their readers find them. */
  lemma ItemHolds(ms: Members, kind: Bytes, keyId: Bytes, trail: Bytes, signature: Bytes)
    ensures HoldsItem(ms, kind, keyId, trail, signature) <==>
            && TextAt(ms, SIDECAR_VERSION) == Some(VERSION) && TextAt(ms, KIND) == Some(kind)
            && TextAt(ms, KEY_ID) == Some(keyId) && IsIdentity(keyId)
            && TextAt(ms, TRAIL) == Some(trail) && IsIdentity(trail)
            && TextAt(ms, SIGNATURE) == Some(signature) && IsSignature(signature)
  {
    hide LowerHex, AllHex, Lookup, TextAt;
    SevenNames();
    TextIs(ms, SIDECAR_VERSION, VERSION);
    TextIs(ms, KIND, kind);
    TextIs(ms, KEY_ID, keyId);
    TextIs(ms, TRAIL, trail);
    TextIs(ms, SIGNATURE, signature);
    HexIs(keyId);
    HexIs(trail);
    HexIs(signature);
  }

  /** Where a reader finds a value, there is a member. */
  lemma SomeTexts(ms: Members)
    ensures forall name: Bytes :: TextAt(ms, name).Some? || IntegerAt(ms, name).Some? ==> Lookup(ms, name).Some?
  {
  }

  lemma SignatureIs(ms: Members, item: Item)
    requires NamedOnce(ms) && item.RecordSignature?
    ensures ItemOf(ms) == item <==> HoldsSignature(ms, item)
  {
    hide IsDigest, DigestForm, NamedOnce, HasExactly, Names, Lookup, InRange, TextAt, IntegerAt, HoldsItem, IsIdentity,
         IsSignature;
    SevenNames();
    ExactlyThese(ms, {KEY_ID, KIND, RECORD, SEQUENCE, SIDECAR_VERSION, SIGNATURE, TRAIL});
    ItemHolds(ms, RECORD_SIGNATURE, item.keyId, item.trail, item.signature);
    TextIs(ms, RECORD, item.record);
    SomeTexts(ms);
    IntegerIs(ms, SEQUENCE, item.sequence);
    DigestIs(item.record);
    RangeIs(item.sequence);
  }

  lemma RotationIs(ms: Members, item: Item)
    requires NamedOnce(ms) && item.KeyRotation?
    ensures ItemOf(ms) == item <==> HoldsRotation(ms, item)
  {
    hide IsDigest, NamedOnce, HasExactly, Names, Lookup, InRange, TextAt, IntegerAt, HoldsItem, IsIdentity, IsSignature;
    SevenNames();
    ExactlyThese(ms, {AT, KEY_ID, KIND, NEXT, SIDECAR_VERSION, SIGNATURE, TRAIL});
    ItemHolds(ms, KEY_ROTATION, item.keyId, item.trail, item.signature);
    TextIs(ms, NEXT, item.next);
    SomeTexts(ms);
    HexIs(item.next);
    IntegerIs(ms, AT, item.at);
    RangeIs(item.at);
  }

  /** A sidecar's line is read as an item exactly when its object holds that item and nothing else. */
  lemma ItemIs(line: Bytes, item: Item)
    requires !item.Unreadable?
    ensures ParseLine(line) == item <==>
            && |line| <= 4096 && ReadObject(line).Some?
            && (if item.RecordSignature? then HoldsSignature(ReadObject(line).value, item)
                else HoldsRotation(ReadObject(line).value, item))
  {
    hide ReadValue, ItemOf, HoldsSignature, HoldsRotation, NamedOnce;
    if ReadObject(line).Some? {
      if item.RecordSignature? {
        SignatureIs(ReadObject(line).value, item);
      } else {
        RotationIs(ReadObject(line).value, item);
      }
    }
  }

  // ----- A stamp -----

  /** The four members of a checkpoint. */
  ghost predicate HoldsCheckpoint(ms: Members, c: Checkpoint) {
    && NamedOnce(ms) && HasExactly(ms, {"checkpointVersion", "recordDigest", "sequence", "trail"})
    && Lookup(ms, "checkpointVersion") == Some(Text("1"))
    && Lookup(ms, "recordDigest") == Some(Text(c.digest)) && DigestForm(c.digest)
    && Lookup(ms, "sequence") == Some(Number(FromNat(c.sequence))) && 1 <= c.sequence <= 9007199254740990
    && Lookup(ms, "trail") == Some(Text(c.trail)) && |c.trail| == 32 && LowerHex(c.trail)
  }

  lemma CheckpointNames()
    ensures |{StampFile.CHECKPOINT_VERSION, StampFile.RECORD_DIGEST, SEQUENCE, TRAIL}| == 4
    ensures StampFile.CHECKPOINT_VERSION == "checkpointVersion" && StampFile.RECORD_DIGEST == "recordDigest"
    ensures SEQUENCE == "sequence" && TRAIL == "trail" && VERSION == "1"
    ensures |{StampFile.CHECKPOINT, StampFile.STAMP_VERSION, StampFile.TOKEN}| == 3
    ensures StampFile.CHECKPOINT == "checkpoint" && StampFile.STAMP_VERSION == "stampVersion" && StampFile.TOKEN == "token"
  {
    assert StampFile.CHECKPOINT_VERSION[0] == 'c' && StampFile.RECORD_DIGEST[0] == 'r' && SEQUENCE[0] == 's' && TRAIL[0] == 't';
    assert StampFile.CHECKPOINT[0] == 'c' && StampFile.STAMP_VERSION[0] == 's' && StampFile.TOKEN[0] == 't';
  }

  lemma CheckpointInIs(ms: Members, c: Checkpoint)
    ensures StampFile.CheckpointIn(ms) == Some(c) <==> HoldsCheckpoint(ms, c)
  {
    hide IsIdentity, IsDigest, DigestForm, LowerHex, NamedOnce, HasExactly, Names, Lookup, TextAt, IntegerAt;
    CheckpointNames();
    TextIs(ms, StampFile.CHECKPOINT_VERSION, VERSION);
    TextIs(ms, StampFile.RECORD_DIGEST, c.digest);
    TextIs(ms, TRAIL, c.trail);
    IntegerIs(ms, SEQUENCE, c.sequence);
    IdentityIs(c.trail);
    DigestIs(c.digest);
    SomeTexts(ms);
    if NamedOnce(ms) {
      ExactlyThese(ms, {StampFile.CHECKPOINT_VERSION, StampFile.RECORD_DIGEST, SEQUENCE, TRAIL});
    }
  }

  /** A line holds a stamp exactly when its object has a checkpoint, the version and a token, and nothing else. */
  lemma StampIs(line: Bytes, stamp: StampFile.Stamp)
    ensures StampFile.ParseStamp(line) == Some(stamp) <==>
            && 0 < |line| <= 2097152 && ReadObject(line).Some?
            && HoldsStamp(ReadObject(line).value, stamp)
  {
    hide ReadValue, StampFile.StampIn, HoldsStamp, NamedOnce;
    if ReadObject(line).Some? {
      StampInIs(ReadObject(line).value, stamp);
    }
  }

  ghost predicate HoldsStamp(ms: Members, stamp: StampFile.Stamp) {
    && HasExactly(ms, {"checkpoint", "stampVersion", "token"})
    && (exists inner :: Lookup(ms, "checkpoint") == Some(Object(inner)) && HoldsCheckpoint(inner, stamp.checkpoint))
    && Lookup(ms, "stampVersion") == Some(Text("1"))
    && Lookup(ms, "token") == Some(Text(stamp.token)) && stamp.token != []
  }

  lemma StampInIs(ms: Members, stamp: StampFile.Stamp)
    requires NamedOnce(ms)
    ensures StampFile.StampIn(ms) == Some(stamp) <==> HoldsStamp(ms, stamp)
  {
    hide NamedOnce, HasExactly, Names, HoldsCheckpoint, StampFile.CheckpointIn;
    CheckpointNames();
    ExactlyThese(ms, {StampFile.CHECKPOINT, StampFile.STAMP_VERSION, StampFile.TOKEN});
    match Lookup(ms, StampFile.CHECKPOINT)
    case Some(Object(inner)) =>
      CheckpointInIs(inner, stamp.checkpoint);
      if StampFile.CheckpointIn(inner).Some? {
        CheckpointInIs(inner, StampFile.CheckpointIn(inner).value);
      }
    case _ =>
  }
}
