/** The lines a writer writes: a record's members in their order, the three that chain it after its version. */
module Records {
  import opened Octets
  import opened Decimal
  import opened Json
  import opened Torn
  import opened Chain

  const RECORD_VERSION: Bytes := "recordVersion"
  const VERSION: Bytes := "1"
  const RUN: Bytes := "run"
  const AT: Bytes := "at"
  const SURFACE: Bytes := "surface"
  const REPAIR_SURFACE: Bytes := "audit repair"
  const TOOL: Bytes := "tool"

  /** The members of a record after those that chain it. */
  predicate IsBody(ms: Members) {
    && ValidMembers(ms) && NamedOnce(ms) && BindingWellFormed(ms)
    && (forall name | name in Names(ms) :: !ChainName(name))
  }

  predicate ChainName(name: Bytes) {
    name == RECORD_VERSION || name == TRAIL || name == SEQUENCE || name == PREVIOUS
  }

  /** The members of a record of a decision, which is never a discontinuity. */
  predicate IsRecordBody(ms: Members) { IsBody(ms) && TextAt(ms, KIND) != Some(DISCONTINUITY) }

  predicate IsLink(link: Link) { IsIdentity(link.trail) && IsDigest(link.previous) }

  function Chaining(link: Option<Link>, body: Members): Members {
    match link
    case None => body
    case Some(l) =>
      Member(TRAIL, Text(l.trail),
             Member(SEQUENCE, Number(FromNat(l.sequence)), Member(PREVIOUS, Text(l.previous), body)))
  }

  function RecordMembers(link: Option<Link>, body: Members): Members {
    Member(RECORD_VERSION, Text(VERSION), Chaining(link, body))
  }

  /** One record as a line, without the newline that ends it. */
  function RecordLine(link: Option<Link>, body: Members): Bytes { Encode(Object(RecordMembers(link, body))) }

  predicate IsRecord(link: Option<Link>, body: Members) { IsBody(body) && (link.Some? ==> IsLink(link.value)) }

  // ----- An encoded line -----

  predicate AllPrintable(text: Bytes) { forall i | 0 <= i < |text| :: ' ' <= text[i] }

  lemma {:induction false} EncodedIsPrintable(v: Value)
    requires ValidValue(v)
    ensures AllPrintable(Encode(v))
    decreases v, 3
  {
    if v.Object? && v.members.Member? {
      MembersArePrintable(v.members);
    }
  }

  lemma {:induction false} MembersArePrintable(ms: Members)
    requires ms.Member? && ValidMembers(ms)
    ensures AllPrintable(EncodeMembers(ms))
    decreases ms, 2
  {
    EncodedIsPrintable(ms.value);
    if ms.rest.Member? {
      MembersArePrintable(ms.rest);
    }
    assert AllPrintable(EncodeClosing(ms));
    assert AllPrintable(EncodeNamed(ms));
  }

  lemma IdentityIsPlain(text: Bytes)
    requires IsIdentity(text) || IsDigest(text)
    ensures AllPlain(text)
  {
    forall i | 0 <= i < |text|
      ensures IsPlain(text[i])
    {
      if IsDigest(text) && i < 7 {
        assert text[i] == SHA256[i];
      }
    }
  }

  lemma {:induction false} LookupNames(ms: Members, name: Bytes)
    ensures Lookup(ms, name).None? <==> name !in Names(ms)
  {
    if ms.Member? {
      LookupNames(ms.rest, name);
    }
  }

  /** What one more member, named as none of the others is, adds to an object. */
  lemma OneMore(name: Bytes, value: Value, rest: Members)
    requires AllPlain(name) && ValidValue(value) && ValidMembers(rest) && NamedOnce(rest) && name !in Names(rest)
    ensures var ms := Member(name, value, rest);
            && ValidMembers(ms) && NamedOnce(ms) && Names(ms) == [name] + Names(rest)
            && Lookup(ms, name) == Some(value)
            && forall other | other != name :: Lookup(ms, other) == Lookup(rest, other)
  {
  }

  lemma RecordIsValid(link: Option<Link>, body: Members)
    requires IsRecord(link, body)
    ensures ValidMembers(RecordMembers(link, body)) && NamedOnce(RecordMembers(link, body))
  {
    hide BindingWellFormed, IsIdentity, IsDigest, ValidMembers, NamedOnce, Names, Lookup, AllPlain;
    ChainNamesDiffer();
    if link.Some? {
      var l := link.value;
      IdentityIsPlain(l.trail);
      IdentityIsPlain(l.previous);
      var previous := Member(PREVIOUS, Text(l.previous), body);
      OneMore(PREVIOUS, Text(l.previous), body);
      var sequence := Member(SEQUENCE, Number(FromNat(l.sequence)), previous);
      OneMore(SEQUENCE, Number(FromNat(l.sequence)), previous);
      OneMore(TRAIL, Text(l.trail), sequence);
    }
    OneMore(RECORD_VERSION, Text(VERSION), Chaining(link, body));
  }

  /** The names that chain a record, and its version, are four. */
  lemma ChainNamesDiffer()
    ensures RECORD_VERSION != TRAIL && RECORD_VERSION != SEQUENCE && RECORD_VERSION != PREVIOUS
    ensures TRAIL != SEQUENCE && TRAIL != PREVIOUS && SEQUENCE != PREVIOUS
    ensures AllPlain(RECORD_VERSION) && AllPlain(TRAIL) && AllPlain(SEQUENCE) && AllPlain(PREVIOUS) && AllPlain(VERSION)
    ensures ChainName(RECORD_VERSION) && ChainName(TRAIL) && ChainName(SEQUENCE) && ChainName(PREVIOUS)
  {
    assert RECORD_VERSION[0] == 'r' && TRAIL[0] == 't' && SEQUENCE[0] == 's' && PREVIOUS[0] == 'p';
  }

  /** A record reads back as the members it was written with, and holds no newline. */
  lemma RecordReads(link: Option<Link>, body: Members)
    requires IsRecord(link, body)
    ensures ReadObject(RecordLine(link, body)) == Some(RecordMembers(link, body))
    ensures '\n' !in RecordLine(link, body)
  {
    hide IsRecord, ValidMembers, NamedOnce, Encode, ReadValue, RecordMembers;
    RecordIsValid(link, body);
    var v := Object(RecordMembers(link, body));
    ValueIsValid(v.members);
    ValueReadsBack(v, []);
    assert Encode(v) + [] == Encode(v);
    EncodedIsPrintable(v);
  }

  lemma ValueIsValid(ms: Members)
    requires ValidMembers(ms)
    ensures ValidValue(Object(ms))
  {
  }

  /** It opens as every record does. */
  lemma RecordOpens(link: Option<Link>, body: Members)
    ensures Opens(RecordLine(link, body))
  {
    hide EncodeNamed, Chaining;
    var ms := RecordMembers(link, body);
    var named := RECORD_VERSION + (['"'] + EncodeNamed(ms));
    assert named[0] == RECORD_VERSION[0] == 'r';
    assert EncodeMembers(ms) == ['"'] + named;
    assert Encode(Object(ms)) == ['{'] + EncodeMembers(ms);
  }

  /** Any beginning of a record, written as the rest of a line, leaves that line broken. */
  lemma RecordCutIsBroken(link: Option<Link>, body: Members, k: nat)
    requires IsRecord(link, body) && 0 < k <= |RecordLine(link, body)|
    ensures Broken(RecordLine(link, body)[..k])
    ensures k < |RecordLine(link, body)| ==> ReadObject(RecordLine(link, body)[..k]).None?
  {
    hide IsRecord, ValidMembers, Encode, Broken, ReadObject, Chaining, Opens;
    RecordIsValid(link, body);
    RecordOpens(link, body);
    BeginningIsBroken(RecordMembers(link, body), k);
  }

  // ----- What a reader makes of it -----

  lemma LookupInBody(link: Option<Link>, body: Members, name: Bytes)
    requires !ChainName(name)
    ensures Lookup(RecordMembers(link, body), name) == Lookup(body, name)
  {
    if link.Some? {
      var previous := Member(PREVIOUS, Text(link.value.previous), body);
      var sequence := Member(SEQUENCE, Number(FromNat(link.value.sequence)), previous);
      assert Lookup(previous, name) == Lookup(body, name);
      assert Lookup(sequence, name) == Lookup(previous, name);
    }
  }

  /** A record's link is read back, when its sequence is one every reader holds exactly. */
  lemma LinkReads(link: Option<Link>, body: Members)
    requires IsRecord(link, body)
    ensures LinkIn(RecordMembers(link, body)) ==
            if link.Some? && 1 <= link.value.sequence < MAX_SAFE_INTEGER then link else None
  {
    hide IsDigest, IsIdentity, NamedOnce, Names, ValidMembers, BindingWellFormed;
    var ms := RecordMembers(link, body);
    ChainNamesDiffer();
    LookupNames(body, TRAIL);
    if link.Some? {
      var l := link.value;
      ReadsBack(l.sequence);
      var previous := Member(PREVIOUS, Text(l.previous), body);
      var sequence := Member(SEQUENCE, Number(FromNat(l.sequence)), previous);
      var trail := Member(TRAIL, Text(l.trail), sequence);
      assert Lookup(trail, TRAIL) == Some(Text(l.trail));
      assert Lookup(sequence, SEQUENCE) == Some(Number(FromNat(l.sequence)));
      assert Lookup(trail, SEQUENCE) == Lookup(sequence, SEQUENCE);
      assert Lookup(previous, PREVIOUS) == Some(Text(l.previous));
      assert Lookup(sequence, PREVIOUS) == Lookup(previous, PREVIOUS);
      assert Lookup(trail, PREVIOUS) == Lookup(sequence, PREVIOUS);
      assert forall name | name != RECORD_VERSION :: Lookup(ms, name) == Lookup(trail, name);
    } else {
      assert Lookup(ms, TRAIL) == Lookup(body, TRAIL);
    }
  }

  lemma MarksAreNoChainNames()
    ensures !ChainName(KIND) && !ChainName(BINDING) && !ChainName(DISCONTINUITY)
  {
    assert RECORD_VERSION[0] == 'r' && TRAIL[0] == 't' && SEQUENCE[0] == 's' && PREVIOUS[0] == 'p';
    assert KIND[0] == 'k' && BINDING[0] == 'b' && DISCONTINUITY[0] == 'd';
  }

  /** How a line within the bound that holds a record is classified. */
  lemma RecordIsRead(link: Option<Link>, body: Members)
    requires IsRecord(link, body) && !Oversized(RecordLine(link, body))
    ensures var line := RecordLine(link, body);
            && LinkOf(line) == (if link.Some? && 1 <= link.value.sequence < MAX_SAFE_INTEGER then link else None)
            && OfDiscontinuityKind(line) == (TextAt(body, KIND) == Some(DISCONTINUITY))
            && DamageNamedBy(line) == DamageIn(body)
            && !BindingMalformed(line)
  {
    hide ReadObject, RecordMembers, RecordLine, LinkIn, NamedOnce, Names, ChainName;
    RecordReads(link, body);
    LinkReads(link, body);
    MarksAreNoChainNames();
    LookupInBody(link, body, KIND);
    LookupInBody(link, body, BINDING);
    LookupInBody(link, body, DISCONTINUITY);
  }

  // ----- The record a repair writes -----

  function DamageMembers(damage: Damage): Members {
    Member(REASON, Text(INCOMPLETE),
           Member(LINE, Number(FromNat(damage.line)),
                  Member(BYTES, Number(FromNat(damage.bytes)), Member(DIGEST, Text(damage.digest), End))))
  }

  /** The build that wrote a record, its own account of itself. */
  predicate IsTool(tool: Members) { ValidMembers(tool) }

  /** What a discontinuity record holds after the members that chain it. */
  function DiscontinuityBody(run: Bytes, at: Bytes, tool: Members, damage: Damage): Members {
    Member(RUN, Text(run), Member(AT, Text(at), Member(KIND, Text(DISCONTINUITY), Member(SURFACE, Text(REPAIR_SURFACE),
      Member(TOOL, Object(tool), Member(DISCONTINUITY, Object(DamageMembers(damage)), End))))))
  }

  lemma DamageNamesDiffer()
    ensures REASON != LINE && REASON != BYTES && REASON != DIGEST && LINE != BYTES && LINE != DIGEST && BYTES != DIGEST
    ensures AllPlain(REASON) && AllPlain(LINE) && AllPlain(BYTES) && AllPlain(DIGEST) && AllPlain(INCOMPLETE)
  {
    assert REASON[0] == 'r' && LINE[0] == 'l' && BYTES[0] == 'b' && DIGEST[0] == 'd';
  }

  lemma DamageMembersRead(damage: Damage)
    requires IsDigest(damage.digest)
    ensures var ms := DamageMembers(damage);
            && ValidMembers(ms) && NamedOnce(ms) && |Names(ms)| == 4 && TextAt(ms, REASON) == Some(INCOMPLETE)
            && IntegerAt(ms, LINE) == Some(damage.line) && IntegerAt(ms, BYTES) == Some(damage.bytes)
            && TextAt(ms, DIGEST) == Some(damage.digest)
  {
    hide IsDigest, ValidMembers, NamedOnce, Names, Lookup, AllPlain;
    IdentityIsPlain(damage.digest);
    ReadsBack(damage.line);
    ReadsBack(damage.bytes);
    DamageNamesDiffer();
    NoMembers();
    var digest := Member(DIGEST, Text(damage.digest), End);
    OneMore(DIGEST, Text(damage.digest), End);
    var bytes := Member(BYTES, Number(FromNat(damage.bytes)), digest);
    OneMore(BYTES, Number(FromNat(damage.bytes)), digest);
    var line := Member(LINE, Number(FromNat(damage.line)), bytes);
    OneMore(LINE, Number(FromNat(damage.line)), bytes);
    OneMore(REASON, Text(INCOMPLETE), line);
  }

  lemma NoMembers()
    ensures ValidMembers(End) && NamedOnce(End) && Names(End) == []
  {
  }

  /** A discontinuity names the damage it was written for, where every reader holds the numbers exactly. */
  lemma DiscontinuityReads(run: Bytes, at: Bytes, tool: Members, damage: Damage)
    requires AllPlain(run) && AllPlain(at) && IsTool(tool) && IsDigest(damage.digest)
    ensures var body := DiscontinuityBody(run, at, tool, damage);
            && IsBody(body) && TextAt(body, KIND) == Some(DISCONTINUITY)
            && (1 <= damage.line < MAX_SAFE_INTEGER && damage.bytes < MAX_SAFE_INTEGER ==> DamageIn(body) == Some(damage))
  {
    hide IsDigest, DamageMembers, BindingWellFormed, ChainName, DiscontinuityBody, NamedOnce, ValidMembers, Names;
    var body := DiscontinuityBody(run, at, tool, damage);
    DamageMembersRead(damage);
    DiscontinuityBodyIs(run, at, tool, damage);
    MarksDiffer();
    LookupNames(body, BINDING);
    NoBinding(body);
  }

  lemma NoBinding(ms: Members)
    requires Lookup(ms, BINDING).None?
    ensures BindingWellFormed(ms)
  {
  }

  lemma MarksDiffer()
    ensures RUN != AT && RUN != KIND && RUN != SURFACE && RUN != TOOL && RUN != DISCONTINUITY
    ensures AT != KIND && AT != SURFACE && AT != TOOL && AT != DISCONTINUITY
    ensures KIND != SURFACE && KIND != TOOL && KIND != DISCONTINUITY
    ensures SURFACE != TOOL && SURFACE != DISCONTINUITY && TOOL != DISCONTINUITY
    ensures forall name | name in [RUN, AT, KIND, SURFACE, TOOL, DISCONTINUITY] ::
              !ChainName(name) && name != BINDING && AllPlain(name)
    ensures AllPlain(REPAIR_SURFACE)
  {
    assert RUN[0] == 'r' && AT[0] == 'a' && KIND[0] == 'k' && SURFACE[0] == 's' && TOOL[0] == 't' &&
           DISCONTINUITY[0] == 'd' && BINDING[0] == 'b';
    assert RUN[1] == 'u' && SURFACE[1] == 'u' && TOOL[1] == 'o';
    assert RECORD_VERSION[0] == 'r' && TRAIL[0] == 't' && SEQUENCE[0] == 's' && PREVIOUS[0] == 'p';
    assert RECORD_VERSION[1] == 'e' && TRAIL[1] == 'r' && SEQUENCE[1] == 'e';
  }

  lemma DiscontinuityBodyIs(run: Bytes, at: Bytes, tool: Members, damage: Damage)
    requires AllPlain(run) && AllPlain(at) && IsTool(tool)
    requires ValidMembers(DamageMembers(damage))
    ensures var body := DiscontinuityBody(run, at, tool, damage);
            && ValidMembers(body) && NamedOnce(body)
            && Lookup(body, KIND) == Some(Text(DISCONTINUITY))
            && Lookup(body, DISCONTINUITY) == Some(Object(DamageMembers(damage)))
            && Names(body) == [RUN, AT, KIND, SURFACE, TOOL, DISCONTINUITY]
  {
    hide DamageMembers, ValidMembers, NamedOnce, Names, Lookup, AllPlain, ChainName;
    MarksDiffer();
    KindIsPlain();
    NoMembers();
    var marks := [RUN, AT, KIND, SURFACE, TOOL, DISCONTINUITY];
    assert marks[0] in marks && marks[1] in marks && marks[2] in marks && marks[3] in marks && marks[4] in marks &&
           marks[5] in marks;
    var discontinuity := Member(DISCONTINUITY, Object(DamageMembers(damage)), End);
    OneMore(DISCONTINUITY, Object(DamageMembers(damage)), End);
    var tooled := Member(TOOL, Object(tool), discontinuity);
    OneMore(TOOL, Object(tool), discontinuity);
    var surfaced := Member(SURFACE, Text(REPAIR_SURFACE), tooled);
    OneMore(SURFACE, Text(REPAIR_SURFACE), tooled);
    var kinded := Member(KIND, Text(DISCONTINUITY), surfaced);
    OneMore(KIND, Text(DISCONTINUITY), surfaced);
    var dated := Member(AT, Text(at), kinded);
    OneMore(AT, Text(at), kinded);
    OneMore(RUN, Text(run), dated);
  }

  lemma KindIsPlain()
    ensures AllPlain(DISCONTINUITY)
  {
  }
}
