/** The signing writer and the verifier of its sidecar agree over every run. */
module SidecarAgreement {
  import opened Octets
  import opened Chain
  import opened Writer
  import opened Runs
  import opened Agreement
  import opened Sidecar
  import opened Signatures
  import opened SidecarWriter
  import opened SidecarRuns

  /** One use of a project: a write by a writer that holds a key, one by a writer that signs nothing, or a rotation. */
  datatype Use =
    | Signed(action: Action, key: Key, cut: nat)
    | Unsigned(action: Action)
    | Rotation(key: Key, next: Key, locked: bool, cut: nat)

  /** The two files, with the key that first wrote a whole sidecar line and the key in force since the last one. */
  datatype Project = Project(trail: Bytes, sidecar: Bytes, first: Option<Key>, force: Option<Key>)

  function Readable(items: seq<Item>): nat {
    if items == [] then 0
    else Readable(items[..|items| - 1]) + (if items[|items| - 1].Unreadable? then 0 else 1)
  }

  /** What a key's write makes of the keys: it matters only once one of its lines is whole. */
  function Keyed(p: Project, trail: Bytes, sidecar: Bytes, key: Key, after: Key): Project {
    if Readable(ItemsIn(sidecar)) > Readable(ItemsIn(p.sidecar))
    then Project(trail, sidecar, FirstKey(p.first, key), Some(after))
    else Project(trail, sidecar, p.first, p.force)
  }

  ghost function ExecUse(s: Scheme, h: Hash, p: Project, use: Use): Project {
    match use
    case Signed(action, key, cut) =>
      var items := SignaturesOf(s, h, key, SignedLines(h, p.trail, action));
      var data := if items == [] then [] else SidecarData(s, p.sidecar, key, Join(ItemLines(items)));
      Keyed(p, Exec(h, p.trail, action), p.sidecar + CutOff(data, cut), key, key)
    case Unsigned(action) => p.(trail := Exec(h, p.trail, action))
    case Rotation(key, next, locked, cut) =>
      var data := RotationData(s, h, p.trail, p.sidecar, key, next, locked);
      Keyed(p, p.trail, p.sidecar + CutOff(data, cut), key, next)
  }

  ghost function RunUses(s: Scheme, h: Hash, p: Project, uses: seq<Use>): Project {
    if uses == [] then p else ExecUse(s, h, RunUses(s, h, p, uses[..|uses| - 1]), uses[|uses| - 1])
  }

  /** A key is only handed over to one a verifier accepts. */
  predicate IsUse(s: Scheme, use: Use) {
    match use
    case Signed(action, _, _) => IsAction(action)
    case Unsigned(action) => IsAction(action)
    case Rotation(_, next, _, _) => Acceptable(s, next)
  }

  ghost predicate AreUses(s: Scheme, uses: seq<Use>) { forall use | use in uses :: IsUse(s, use) }

  /** Another key than the one in force, with the same short name: a signature's line does not tell them apart. */
  predicate Namesake(s: Scheme, p: Project, key: Key) {
    p.force.Some? && p.force.value != key && KeyId(s, p.force.value) == KeyId(s, key)
  }

  ghost predicate GoodProject(s: Scheme, h: Hash, base: seq<Bytes>, p: Project) {
    Good(h, base, p.trail) && Holds(s, h, base, ItemsIn(p.sidecar), p.first, p.force)
  }

  // ----- Whole lines counted -----

  lemma {:induction false} ReadableConcat(a: seq<Item>, b: seq<Item>)
    ensures Readable(a + b) == Readable(a) + Readable(b)
  {
    if b == [] {
      assert a + b == a;
    } else {
      ReadableConcat(a, b[..|b| - 1]);
      assert (a + b)[..|a + b| - 1] == a + b[..|b| - 1];
    }
  }

  lemma {:induction false} ReadableAll(items: seq<Item>)
    requires forall i | 0 <= i < |items| :: !items[i].Unreadable?
    ensures Readable(items) == |items|
  {
    if items != [] {
      ReadableAll(items[..|items| - 1]);
    }
  }

  /** As many more lines are whole as items were written whole after the torn line that was ended. */
  lemma ReadableGrows(items: seq<Item>, ended: bool, more: seq<Item>)
    requires forall i | 0 <= i < |more| :: !more[i].Unreadable?
    ensures Readable(items + ((if ended then [Unreadable] else []) + more)) == Readable(items) + |more|
  {
    ReadableConcat(items, (if ended then [Unreadable] else []) + more);
    ReadableConcat(if ended then [Unreadable] else [], more);
    ReadableAll(more);
    assert Readable([]) == 0;
    assert [Unreadable][..0] == [];
  }

  // ----- The key in force -----

  lemma {:induction false} NothingReadableIn(items: seq<Item>)
    requires AllUnreadable(items)
    ensures LastReadableIn(items) == Unreadable
  {
    if items != [] {
      NothingReadableIn(items[..|items| - 1]);
    }
  }

  /** The writer's reading of the sidecar's end says which key is in force, and that any is while none has signed. */
  lemma InForceIs(s: Scheme, h: Hash, base: seq<Bytes>, p: Project, key: Key)
    requires GoodProject(s, h, base, p) && !Namesake(s, p, key)
    ensures IsInForce(s, p.sidecar, key) <==> p.force.None? || p.force.value == key
  {
    hide Good, After, CompleteLines, ParseLines, SequencesOf, LastReadableIn, ItemsWithin, KeyId;
    if p.first.None? {
      NothingReadableIn(ItemsIn(p.sidecar));
    }
  }

  /** After a signature the writer lets a namesake of its key write too. */
  lemma NamesakeMayWrite(s: Scheme, h: Hash, base: seq<Bytes>, p: Project, key: Key)
    requires GoodProject(s, h, base, p) && Namesake(s, p, key)
    ensures IsInForce(s, p.sidecar, key) <==> LastReadableOf(p.sidecar).RecordSignature?
  {
    hide Good, After, CompleteLines, ParseLines, SequencesOf, LastReadableIn, ItemsWithin, KeyId;
    if p.first.None? {
      NothingReadableIn(ItemsIn(p.sidecar));
    }
  }

  /** And what it signs is found invalid, where the key in force does not verify what another signed. */
  lemma NamesakeIsFound(s: Scheme, h: Hash, lines: seq<Bytes>, items: seq<Item>, first: Key, force: Key, key: Key, n: nat)
    requires Holds(s, h, lines, items, Some(first), Some(force))
    requires 0 < n <= |lines| && ItemsWithin(items, n - 1)
    requires Chained(lines[n - 1]) && !Damaged(lines, n - 1) && LinkOf(lines[n - 1]).value.sequence == n
    requires var item := SignatureOf(s, h, key, lines[n - 1]);
             !Verifies(s, force, RecordMessage(item.trail, n, item.record), item.signature)
    ensures var b, item := Beside(s, h, lines), SignatureOf(s, h, key, lines[n - 1]);
            After(b, Only(first), items + [item], |items| + 1).found == [SignatureFinding(SignatureInvalid, n)]
  {
    hide After, SequencesOf, LastReadableIn, LinkOf, Damaged, DigestOf, KeyId, Sign, Verifies, SoundThrough, RecordMessage,
         Holds;
    var b, item := Beside(s, h, lines), SignatureOf(s, h, key, lines[n - 1]);
    ReadyFor(s, h, lines, items, Some(first), Some(force), force, n - 1);
    AfterOneMore(b, Only(first), items, item);
    assert RecordFinding(b, Only(first), force, item) == Some(SignatureInvalid);
  }

  // ----- Steps -----

  lemma ItemsStayWithin(items: seq<Item>, ended: bool, n: nat)
    requires ItemsWithin(items, n)
    ensures ItemsWithin(if ended then items + [Unreadable] else items, n)
  {
  }

  /** What a signed write adds to the sidecar. */
  lemma SignedAdds(s: Scheme, h: Hash, base: seq<Bytes>, p: Project, action: Action, key: Key, cut: nat)
    requires Complete(s) && Good(h, base, p.trail) && IsAction(action)
    requires Holds(s, h, base, ItemsIn(p.sidecar), p.first, p.force) && (p.force.None? || p.force.value == key)
    requires IsInForce(s, p.sidecar, key) && SignaturesOf(s, h, key, SignedLines(h, p.trail, action)) != []
    ensures var now := ExecUse(s, h, p, Signed(action, key, cut));
            var lines := CompleteLines(now.trail);
            && Good(h, lines, now.trail) && Holds(s, h, lines, ItemsIn(now.sidecar), now.first, now.force)
            && (now.force.Some? ==> now.force == p.force || now.force.value == key)
  {
    hide Good, Holds, CompleteLines, ItemsIn, Complete, IsInForce, SidecarData, SignableAt, Join, Exec, Readable, IsItem, Extends,
         SignedLines, IsAction, IsTorn, ItemsWithin, SignaturesOf;
    var written := SignedLines(h, p.trail, action);
    var sigs := SignaturesOf(s, h, key, written);
    NoSignatures(s, h, key);
    SignedLinesStand(h, base, p.trail, action);
    var lines, from := CompleteLines(Exec(h, p.trail, action)), |CompleteLines(p.trail)|;
    HoldsLifts(s, h, base, lines, ItemsIn(p.sidecar), p.first, p.force);
    HeldWithin(s, h, base, ItemsIn(p.sidecar), p.first, p.force);
    WithinMore(ItemsIn(p.sidecar), |base|, from, [], []);
    SignaturesAreItems(s, h, key, written);
    ItemLinesRead(sigs);
    var ended, k := SidecarWritten(s, p.sidecar, key, ItemLines(sigs), cut);
    ParseLinesPrefix(ItemLines(sigs), k);
    var items := ItemsIn(p.sidecar);
    if ended {
      HoldsUnreadable(s, h, lines, items, p.first, p.force);
      items := items + [Unreadable];
    }
    ItemsStayWithin(ItemsIn(p.sidecar), ended, from);
    SignaturesHold(s, h, lines, from, written, items, p.first, p.force, key, k);
    AddsItems(ItemsIn(p.sidecar), ended, sigs[..k]);
    SignedReadable(sigs, k);
    ReadableGrows(ItemsIn(p.sidecar), ended, sigs[..k]);
  }

  lemma SignedReadable(items: seq<Item>, k: nat)
    requires k <= |items| && forall item | item in items :: IsItem(item) && !item.Unreadable?
    ensures forall i | 0 <= i < k :: !items[..k][i].Unreadable?
  {
  }

  lemma NoSignatures(s: Scheme, h: Hash, key: Key)
    ensures SignaturesOf(s, h, key, []) == []
  {
  }

  lemma HeldWithin(s: Scheme, h: Hash, base: seq<Bytes>, items: seq<Item>, first: Option<Key>, force: Option<Key>)
    requires Holds(s, h, base, items, first, force)
    ensures ItemsWithin(items, |base|)
  {
  }

  lemma AddsItems(items: seq<Item>, ended: bool, more: seq<Item>)
    ensures items + ((if ended then [Unreadable] else []) + more) ==
            (if ended then items + [Unreadable] else items) + more
  {
  }

  /** What is true of the trail's identity where a rotation follows it. */
  lemma {:induction false} TrailThroughIsLast(lines: seq<Bytes>, n: nat)
    requires n <= |lines| && (n > 0 ==> !Damaged(lines, n - 1))
    ensures TrailThrough(lines, n) == LastTrail(lines[..n])
  {
    hide LinkOf, OfDiscontinuityKind, DamageNamedBy;
    if n > 0 {
      assert lines[..n][..n - 1] == lines[..n - 1];
      if !Chained(lines[n - 1]) {
        TrailThroughIsLast(lines, n - 1);
      }
    }
  }

  lemma TrailHeadIs(h: Hash, base: seq<Bytes>, trail: Bytes)
    requires Good(h, base, trail) && TrailHeadOf(h, trail).RotatesAfter?
    ensures var lines := CompleteLines(trail);
            && Tail(trail) == [] && lines != []
            && TrailHeadOf(h, trail).head == TrailHead(TrailThrough(lines, |lines|), |lines|)
            && IsIdentity(TrailThrough(lines, |lines|))
  {
    hide SplitLines, LinkOf, LastTrail, TailIsTidy, Shielded, IsIdentity, TrailThrough, LineIsTidy, Damaged;
    var lines := CompleteLines(trail);
    EndsInALine(trail);
    PlainNeverDamages(lines, |lines| - 1);
    TrailThroughIsLast(lines, |lines|);
    assert lines[..|lines|] == lines;
    LastTrailOf(lines);
    if Chained(lines[|lines| - 1]) {
      SoundLineSequence(h, lines, |lines| - 1);
      ChainedIsRead(lines[|lines| - 1]);
    }
  }

  /** What a rotation adds to the sidecar. */
  lemma RotationAdds(s: Scheme, h: Hash, base: seq<Bytes>, p: Project, key: Key, next: Key, cut: nat)
    requires Complete(s) && Acceptable(s, next) && Good(h, base, p.trail)
    requires Holds(s, h, base, ItemsIn(p.sidecar), p.first, p.force) && (p.force.None? || p.force.value == key)
    requires IsInForce(s, p.sidecar, key) && TrailHeadOf(h, p.trail).RotatesAfter? && next != key
    ensures var now := ExecUse(s, h, p, Rotation(key, next, true, cut));
            && Good(h, CompleteLines(now.trail), now.trail)
            && Holds(s, h, CompleteLines(now.trail), ItemsIn(now.sidecar), now.first, now.force)
            && (now.force.Some? ==> now.force == p.force || now.force.value == next)
  {
    hide Good, Holds, CompleteLines, ItemsIn, Complete, IsInForce, SidecarData, Join, Readable, TrailHeadOf, TrailThrough,
         IsIdentity, IsTorn, IsSignature, KeyId, Sign, RotationMessage, Acceptable, ItemLine, InRange, Extends;
    var lines := CompleteLines(p.trail);
    TrailHeadIs(h, base, p.trail);
    Rebase(h, base, p.trail);
    GoodExtends(h, base, p.trail);
    HoldsLifts(s, h, base, lines, ItemsIn(p.sidecar), p.first, p.force);
    var item := RotationOf(s, key, TrailHead(TrailThrough(lines, |lines|), |lines|), next);
    RotationForms(s, key, TrailHead(TrailThrough(lines, |lines|), |lines|), next);
    RotationReads(item);
    OneLine(ItemLine(item));
    var ended, k := SidecarWritten(s, p.sidecar, key, [ItemLine(item)], cut);
    var items := ItemsIn(p.sidecar);
    if ended {
      HoldsUnreadable(s, h, lines, items, p.first, p.force);
      items := items + [Unreadable];
    }
    var more := ParseLines([ItemLine(item)][..k]);
    AddsItems(ItemsIn(p.sidecar), ended, more);
    if k == 0 {
      NothingMore(items, [ItemLine(item)]);
      ReadableGrows(ItemsIn(p.sidecar), ended, []);
    } else {
      ParseOne(ItemLine(item));
      assert [ItemLine(item)][..k] == [ItemLine(item)];
      if InRange(item.at) {
        IdentityIsSomething(TrailThrough(lines, |lines|));
        HoldsRotation(s, h, lines, items, p.first, p.force, key, next);
        ReadableGrows(ItemsIn(p.sidecar), ended, [item]);
      } else {
        HoldsUnreadable(s, h, lines, items, p.first, p.force);
        ReadableSame(ItemsIn(p.sidecar), ended);
      }
    }
  }

  lemma ReadableSame(items: seq<Item>, ended: bool)
    ensures Readable(items + ((if ended then [Unreadable] else []) + [Unreadable])) == Readable(items)
  {
    ReadableConcat(items, (if ended then [Unreadable] else []) + [Unreadable]);
    ReadableConcat(if ended then [Unreadable] else [], [Unreadable]);
    assert Readable([]) == 0 && [Unreadable][..0] == [];
  }

  lemma NothingMore(items: seq<Item>, lines: seq<Bytes>)
    ensures ParseLines(lines[..0]) == [] && items + ParseLines(lines[..0]) == items
  {
  }

  lemma ParseOne(line: Bytes)
    ensures ParseLines([line]) == [ParseLine(line)]
  {
    hide ParseLine;
    assert [line][..0] == [];
  }

  lemma OneLine(line: Bytes)
    requires '\n' !in line
    ensures AreLines([line]) && Join([line]) == line + ['\n']
  {
    JoinSnoc([], line);
    assert [] + [line] == [line] && Join([]) == [];
    assert [] + line == line;
  }

  lemma RotationForms(s: Scheme, key: Key, head: TrailHead, next: Key)
    requires IsIdentity(head.trail)
    ensures var item := RotationOf(s, key, head, next);
            IsIdentity(item.keyId) && IsIdentity(item.trail) && IsSignature(item.signature)
  {
    hide IsIdentity, IsSignature, KeyId, Sign, RotationMessage;
    var keyId: Identity := KeyId(s, key);
    assert IsIdentity(keyId);
    var signature: Signature := Sign(s, key, RotationMessage(head.trail, head.at, next));
    assert IsSignature(signature);
  }

  lemma NothingAdded(p: Project, trail: Bytes, cut: nat, key: Key, after: Key)
    ensures Keyed(p, trail, p.sidecar + CutOff([], cut), key, after) == p.(trail := trail)
  {
    hide Readable, ItemsIn;
    assert p.sidecar + CutOff([], cut) == p.sidecar;
  }

  // ----- What is read of the sidecar after a run -----

  /** What the forward reading of a sidecar says of it: nothing is wrong, and every whole signature counts. */
  ghost predicate AgreesWith(s: Scheme, h: Hash, p: Project) {
    var items := ItemsOf(p.sidecar);
    match p.first
    case None => p.force.None? && AllUnreadable(items)
    case Some(first) =>
      var r := ReadSidecar(Beside(s, h, CompleteLines(p.trail)), Only(first), p.sidecar);
      r.found == [] && p.force == Some(r.current) && r.signedAt == SequencesOf(items)
  }

  lemma GoodAgrees(s: Scheme, h: Hash, base: seq<Bytes>, p: Project)
    requires GoodProject(s, h, base, p)
    ensures AgreesWith(s, h, p)
  {
    hide Good, Extends, CompleteLines, Tail, After, SequencesOf, LastSays, ParseLines, ItemsWithin;
    var lines := CompleteLines(p.trail);
    GoodExtends(h, base, p.trail);
    HoldsLifts(s, h, base, lines, ItemsIn(p.sidecar), p.first, p.force);
    HoldsUnreadable(s, h, lines, ItemsIn(p.sidecar), p.first, p.force);
  }

  lemma NoSidecar(s: Scheme, h: Hash, lines: seq<Bytes>)
    ensures Holds(s, h, lines, ItemsIn([]), None, None)
  {
  }
}
