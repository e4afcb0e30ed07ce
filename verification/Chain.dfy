/**
 What a line of a trail is, and what the lines of a trail are held to: the declarative statement of the chain
 that the streaming verifier refines. The digest function is a parameter throughout, so nothing here depends
 on which one it is, and no property of it is assumed.
 */
module Chain {
  import opened Octets
  import opened Json

  /** The longest line that is read whole. */
  const MAX_LINE: nat := 134217728

  /** Sequences stop short of this, so that every JSON reader holds the next one exactly. */
  const MAX_SAFE_INTEGER: nat := 9007199254740991

  predicate IsHex(c: char) { '0' <= c <= '9' || 'a' <= c <= 'f' }

  predicate AllHex(text: Bytes) { forall i | 0 <= i < |text| :: IsHex(text[i]) }

  const SHA256: Bytes := "sha256:"

  predicate IsDigest(text: Bytes) {
    && |text| == 71
    && (forall i | 0 <= i < 7 :: text[i] == SHA256[i])
    && (forall i | 7 <= i < 71 :: IsHex(text[i]))
  }

  predicate IsIdentity(text: Bytes) { |text| == 32 && AllHex(text) }

  function Zeros(n: nat): (text: Bytes)
    ensures |text| == n && AllHex(text)
  {
    seq(n, _ => '0')
  }

  function ZeroDigest(): (text: Bytes)
    ensures IsDigest(text)
  {
    SHA256 + Zeros(64)
  }

  type Digest = text: Bytes | IsDigest(text) witness ZeroDigest()

  type Identity = text: Bytes | IsIdentity(text) witness Zeros(32)

  /** A digest function, in the form a digest is written in. */
  type Hash = Bytes -> Digest

  function DigestOf(h: Hash, text: Bytes): Digest { h(text) }

  // ----- One line -----

  const TRAIL: Bytes := "trail"
  const SEQUENCE: Bytes := "sequence"
  const PREVIOUS: Bytes := "previous"
  const KIND: Bytes := "kind"
  const DISCONTINUITY: Bytes := "discontinuity"
  const REASON: Bytes := "reason"
  const INCOMPLETE: Bytes := "incomplete-last-line"
  const LINE: Bytes := "line"
  const BYTES: Bytes := "bytes"
  const DIGEST: Bytes := "digest"
  const BINDING: Bytes := "binding"

  datatype Link = Link(trail: Bytes, sequence: nat, previous: Bytes)

  /** The three members that make a line a chained one. */
  function LinkIn(ms: Members): Option<Link> {
    match (TextAt(ms, TRAIL), IntegerAt(ms, SEQUENCE), TextAt(ms, PREVIOUS))
    case (Some(trail), Some(sequence), Some(previous)) =>
      if IsIdentity(trail) && 1 <= sequence < MAX_SAFE_INTEGER && IsDigest(previous)
      then Some(Link(trail, sequence, previous)) else None
    case _ => None
  }

  /** The damage a discontinuity names: a line, and its length and digest as they were. */
  datatype Damage = Damage(line: nat, bytes: nat, digest: Bytes)

  function DamageIn(ms: Members): Option<Damage> {
    match ObjectAt(ms, DISCONTINUITY)
    case None => None
    case Some(inner) =>
      if !NamedOnce(inner) || |Names(inner)| != 4 || TextAt(inner, REASON) != Some(INCOMPLETE) then None
      else
        match (IntegerAt(inner, LINE), IntegerAt(inner, BYTES), TextAt(inner, DIGEST))
        case (Some(line), Some(bytes), Some(digest)) =>
          if 1 <= line < MAX_SAFE_INTEGER && bytes < MAX_SAFE_INTEGER && IsDigest(digest)
          then Some(Damage(line, bytes, digest)) else None
        case _ => None
  }

  predicate IsBindingKindByte(c: char) {
    'a' <= c <= 'z' || '0' <= c <= '9' || c == '.' || c == '_' || c == '/' || c == '-'
  }

  /** A record's binding, where it has one, is exactly a kind and a digest, each of its form. */
  predicate BindingWellFormed(ms: Members) {
    match Lookup(ms, BINDING)
    case None => true
    case Some(value) =>
      && value.Object? && |Encode(value)| <= 1024
      && NamedOnce(value.members) && |Names(value.members)| == 2
      && (match (TextAt(value.members, KIND), TextAt(value.members, DIGEST))
          case (Some(kind), Some(digest)) =>
            1 <= |kind| <= 128 && (forall i | 0 <= i < |kind| :: IsBindingKindByte(kind[i])) && IsDigest(digest)
          case _ => false)
  }

  predicate Oversized(line: Bytes) { |line| > MAX_LINE }

  /** No member of an oversized line is ever looked at. */
  function MembersOf(line: Bytes): Option<Members> {
    if Oversized(line) then None else ReadObject(line)
  }

  function LinkOf(line: Bytes): Option<Link> {
    match MembersOf(line)
    case None => None
    case Some(ms) => LinkIn(ms)
  }

  predicate Chained(line: Bytes) { LinkOf(line).Some? }

  predicate OfDiscontinuityKind(line: Bytes) {
    match MembersOf(line)
    case None => false
    case Some(ms) => TextAt(ms, KIND) == Some(DISCONTINUITY)
  }

  function DamageNamedBy(line: Bytes): Option<Damage> {
    match MembersOf(line)
    case None => None
    case Some(ms) => DamageIn(ms)
  }

  predicate BindingMalformed(line: Bytes) {
    match MembersOf(line)
    case None => false
    case Some(ms) => !BindingWellFormed(ms)
  }

  // ----- The lines of a trail -----

  /** Whose trail these lines are: the trail member of their last chained one, empty when none is chained. */
  function LastTrail(lines: seq<Bytes>): Bytes {
    if lines == [] then []
    else if Chained(lines[|lines| - 1]) then LinkOf(lines[|lines| - 1]).value.trail
    else LastTrail(lines[..|lines| - 1])
  }

  /** What a record follows: the identity it carries on, where there is one, and the digest it links to. */
  datatype Head = Head(trail: Bytes, previous: Digest)

  /**
   The head that a record standing at index i is held to. It links to one line where line i - 1 is chained, and
   otherwise to the join of all i lines; an oversized line i - 1 leaves no head at all.
   */
  function HeadBefore(h: Hash, lines: seq<Bytes>, i: nat): Option<Head>
    requires i <= |lines|
  {
    if i > 0 && Oversized(lines[i - 1]) then None
    else if i > 0 && Chained(lines[i - 1]) then
      Some(Head(LinkOf(lines[i - 1]).value.trail, DigestOf(h, lines[i - 1])))
    else Some(Head(LastTrail(lines[..i]), DigestOf(h, Join(lines[..i]))))
  }

  /**
   Whether line i names line i - 1 damaged and is believed. It must be chained and give that line's number, and
   line i - 1 must be short enough to have been read and must not be of discontinuity kind.
   */
  predicate Excuses(lines: seq<Bytes>, i: nat)
    requires i < |lines|
  {
    && i > 0
    && Chained(lines[i])
    && OfDiscontinuityKind(lines[i])
    && DamageNamedBy(lines[i]).Some?
    && DamageNamedBy(lines[i]).value.line == i
    && DamageNamedBy(lines[i]).value.bytes <= MAX_LINE
    && !Oversized(lines[i - 1])
    && !OfDiscontinuityKind(lines[i - 1])
  }

  predicate Damaged(lines: seq<Bytes>, i: nat)
    requires i < |lines|
  {
    i + 1 < |lines| && Excuses(lines, i + 1)
  }

  /** What the line at index i is held to: a discontinuity links over the line it excuses. */
  function Expected(h: Hash, lines: seq<Bytes>, i: nat): Option<Head>
    requires i < |lines|
  {
    if Excuses(lines, i) then HeadBefore(h, lines, i - 1) else HeadBefore(h, lines, i)
  }

  datatype FindingName =
    | IncompleteLastLine | LineTooLong
    | DiscontinuityMalformed | DiscontinuityMismatch
    | SequenceMismatch | PreviousMismatch | TrailMismatch
    | BindingIsMalformed
    | CheckpointBeyondTrail | CheckpointNotChained | CheckpointTrailMismatch | CheckpointRecordMismatch
    | CheckpointCoverageMissing | StampCheckpointMismatch

  datatype Finding = Finding(name: FindingName, line: nat)

  function DiscontinuityFindings(h: Hash, lines: seq<Bytes>, i: nat): seq<Finding>
    requires i < |lines|
  {
    if !OfDiscontinuityKind(lines[i]) then []
    else if !Excuses(lines, i) then [Finding(DiscontinuityMalformed, i + 1)]
    else
      var named := DamageNamedBy(lines[i]).value;
      if |lines[i - 1]| != named.bytes || DigestOf(h, lines[i - 1]) != named.digest
      then [Finding(DiscontinuityMismatch, i + 1)] else []
  }

  function LinkFindings(link: Link, expected: Option<Head>, number: nat): seq<Finding> {
    (if link.sequence != number then [Finding(SequenceMismatch, number)] else []) +
    (match expected
     case None => []
     case Some(head) =>
       (if link.previous != head.previous then [Finding(PreviousMismatch, number)] else []) +
       (if head.trail != [] && link.trail != head.trail then [Finding(TrailMismatch, number)] else []))
  }

  /** The checks of the chain that the line at index i fails. */
  function LineFindings(h: Hash, lines: seq<Bytes>, i: nat): seq<Finding>
    requires i < |lines|
  {
    if Oversized(lines[i]) then [Finding(LineTooLong, i + 1)]
    else
      match LinkOf(lines[i])
      case None => []
      case Some(link) =>
        DiscontinuityFindings(h, lines, i) + LinkFindings(link, Expected(h, lines, i), i + 1)
  }

  /** Findings that leave the chain itself as it is. */
  function MemberFindings(lines: seq<Bytes>, i: nat): seq<Finding>
    requires i < |lines|
  {
    if BindingMalformed(lines[i]) then [Finding(BindingIsMalformed, i + 1)] else []
  }

  /** What is reported of one line: nothing of a line named damaged, everything of any other. */
  function ReportedOf(h: Hash, lines: seq<Bytes>, i: nat): seq<Finding>
    requires i < |lines|
  {
    if Damaged(lines, i) then [] else LineFindings(h, lines, i) + MemberFindings(lines, i)
  }

  /** What is reported of the first k lines. */
  function Reported(h: Hash, lines: seq<Bytes>, k: nat): seq<Finding>
    requires k <= |lines|
  {
    if k == 0 then [] else Reported(h, lines, k - 1) + ReportedOf(h, lines, k - 1)
  }

  /** One finding more, at the number after the complete lines, when the file does not end in a newline. */
  function WithTail(findings: seq<Finding>, tail: Bytes, number: nat): seq<Finding> {
    if tail == [] then findings else findings + [Finding(IncompleteLastLine, number)]
  }

  /** Everything the reading of a trail reports. */
  function AllFindings(h: Hash, file: Bytes): seq<Finding> {
    var lines := CompleteLines(file);
    WithTail(Reported(h, lines, |lines|), Tail(file), |lines| + 1)
  }

  /** A finding about a record's own members moves no coverage; every other one does. */
  predicate OfTheChain(finding: Finding) { finding.name != BindingIsMalformed }

  predicate AllOfTheChain(findings: seq<Finding>) { forall f | f in findings :: OfTheChain(f) }

  predicate NoneOfTheChain(findings: seq<Finding>) { forall f | f in findings :: !OfTheChain(f) }

  lemma ChainFindingsAreOfTheChain(h: Hash, lines: seq<Bytes>, i: nat)
    requires i < |lines|
    ensures AllOfTheChain(LineFindings(h, lines, i)) && NoneOfTheChain(MemberFindings(lines, i))
  {
    hide Excuses, Expected, LinkOf, OfDiscontinuityKind, BindingMalformed, DamageNamedBy;
  }

  /** The lowest line a check of the chain failed at, or 0. */
  function Earliest(findings: seq<Finding>): nat {
    if findings == [] then 0
    else
      var last := findings[|findings| - 1];
      var before := Earliest(findings[..|findings| - 1]);
      if OfTheChain(last) && (before == 0 || last.line < before) then last.line else before
  }

  lemma EarliestSnoc(findings: seq<Finding>, last: Finding)
    ensures var before := Earliest(findings);
            Earliest(findings + [last]) ==
              if OfTheChain(last) && (before == 0 || last.line < before) then last.line else before
  {
    assert (findings + [last])[..|findings|] == findings;
  }

  /** No check of the chain failed at or before this line. */
  predicate SoundThrough(h: Hash, lines: seq<Bytes>, n: nat)
    requires n <= |lines|
  {
    forall i | 0 <= i < n :: Damaged(lines, i) || LineFindings(h, lines, i) == []
  }

  // ----- What is read later changes nothing said of the lines before it -----

  lemma HeadBeforePrefix(h: Hash, lines: seq<Bytes>, more: seq<Bytes>, i: nat)
    requires i <= |lines|
    ensures HeadBefore(h, lines + more, i) == HeadBefore(h, lines, i)
  {
    hide LinkOf, LastTrail, Join;
    assert (lines + more)[..i] == lines[..i];
  }

  lemma ExcusesPrefix(lines: seq<Bytes>, more: seq<Bytes>, i: nat)
    requires i < |lines|
    ensures Excuses(lines + more, i) == Excuses(lines, i)
    ensures i + 1 < |lines| ==> Damaged(lines + more, i) == Damaged(lines, i)
  {
    hide Chained, OfDiscontinuityKind, DamageNamedBy;
    var all := lines + more;
    assert all[i] == lines[i] && (i > 0 ==> all[i - 1] == lines[i - 1]);
    assert i + 1 < |lines| ==> all[i + 1] == lines[i + 1];
  }

  lemma LineFindingsPrefix(h: Hash, lines: seq<Bytes>, more: seq<Bytes>, i: nat)
    requires i < |lines|
    ensures LineFindings(h, lines + more, i) == LineFindings(h, lines, i)
    ensures MemberFindings(lines + more, i) == MemberFindings(lines, i)
  {
    ExcusesPrefix(lines, more, i);
    assert i == 0 ==> !Excuses(lines, i);
    hide Excuses, HeadBefore, LinkOf, OfDiscontinuityKind, DamageNamedBy, BindingMalformed;
    HeadBeforePrefix(h, lines, more, i);
    assert (lines + more)[i] == lines[i] && (i > 0 ==> (lines + more)[i - 1] == lines[i - 1]);
    if i > 0 {
      HeadBeforePrefix(h, lines, more, i - 1);
    }
  }

  lemma ReportedOfPrefix(h: Hash, lines: seq<Bytes>, more: seq<Bytes>, i: nat)
    requires i + 1 < |lines|
    ensures ReportedOf(h, lines + more, i) == ReportedOf(h, lines, i)
  {
    hide Damaged, LineFindings, MemberFindings;
    LineFindingsPrefix(h, lines, more, i);
    ExcusesPrefix(lines, more, i);
  }

  /** Once the line after it is read, what is reported of a line is final. */
  lemma {:induction false} ReportedPrefix(h: Hash, lines: seq<Bytes>, more: seq<Bytes>, k: nat)
    requires k < |lines|
    ensures Reported(h, lines + more, k) == Reported(h, lines, k)
  {
    hide ReportedOf;
    if k > 0 {
      var all := lines + more;
      ReportedPrefix(h, lines, more, k - 1);
      ReportedOfPrefix(h, lines, more, k - 1);
      assert Reported(h, all, k) == Reported(h, all, k - 1) + ReportedOf(h, all, k - 1);
    }
  }
}
