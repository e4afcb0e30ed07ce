/**
 The exact condition under which a trail and its sidecar agree after a run. All that a signature's line tells of its
 maker is a short name, and a writer may take one key for another by it; whether that does harm is decided by what the
 write leaves whole.
 */
module Namesakes {
  import opened Octets
  import opened Decimal
  import opened Json
  import opened Chain
  import opened Records
  import opened Writer
  import opened Repair
  import opened Runs
  import opened Agreement
  import opened Sidecar
  import opened Signatures
  import opened SidecarWriter
  import opened SidecarRuns
  import opened SidecarAgreement

  /** The sidecar lines a use would write, once its key may. */
  ghost function ToWrite(s: Scheme, h: Hash, p: Project, use: Use): seq<Bytes> {
    match use
    case Signed(action, key, _) => ItemLines(SignaturesOf(s, h, key, SignedLines(h, p.trail, action)))
    case Unsigned(_) => []
    case Rotation(key, next, locked, _) =>
      if next == key || !locked || TrailHeadOf(h, p.trail).NotRotated? then []
      else [ItemLine(RotationOf(s, key, TrailHeadOf(h, p.trail).head, next))]
  }

  /**
   A use slips when a namesake of the key in force makes it, the sidecar's last readable line is a signature, and its
   write reaches the newline of its first line; a rotation's line must also name a place a reader takes.
   */
  ghost predicate Slips(s: Scheme, h: Hash, p: Project, use: Use) {
    match use
    case Unsigned(_) => false
    case Signed(_, key, cut) =>
      && Namesake(s, p, key) && LastReadableOf(p.sidecar).RecordSignature?
      && FirstIsWhole(p.sidecar, ToWrite(s, h, p, use), cut)
    case Rotation(key, _, _, cut) =>
      && Namesake(s, p, key) && LastReadableOf(p.sidecar).RecordSignature?
      && FirstIsWhole(p.sidecar, ToWrite(s, h, p, use), cut) && InRange(TrailHeadOf(h, p.trail).head.at)
  }

  ghost predicate NoneSlips(s: Scheme, h: Hash, p: Project, uses: seq<Use>) {
    forall i | 0 <= i < |uses| :: !Slips(s, h, RunUses(s, h, p, uses[..i]), uses[i])
  }

  /** What one key signs, no other key verifies. */
  ghost predicate Sound(s: Scheme) {
    forall a: Key, b: Key, message: Bytes :: a != b ==> !Verifies(s, a, message, Sign(s, b, message))
  }

  // ----- A use that does not slip keeps the project good -----

  /** A key that may write, and leaves no readable line more, changes neither key. */
  lemma NothingReadableAdded(s: Scheme, h: Hash, base: seq<Bytes>, lines: seq<Bytes>, p: Project, trail: Bytes,
                             sidecar: Bytes, unreadable: seq<Item>, key: Key, after: Key)
    requires Extends(base, lines) && Holds(s, h, base, ItemsIn(p.sidecar), p.first, p.force)
    requires ItemsIn(sidecar) == ItemsIn(p.sidecar) + unreadable && |unreadable| <= 2 && AllUnreadable(unreadable)
    ensures Keyed(p, trail, sidecar, key, after) == Project(trail, sidecar, p.first, p.force)
    ensures Holds(s, h, lines, ItemsIn(sidecar), p.first, p.force)
  {
    hide Holds, Extends, ItemsIn;
    HoldsLifts(s, h, base, lines, ItemsIn(p.sidecar), p.first, p.force);
    ReadableConcat(ItemsIn(p.sidecar), unreadable);
    NoneReadable(unreadable);
    var items := ItemsIn(p.sidecar);
    if |unreadable| > 0 {
      HoldsUnreadable(s, h, lines, items, p.first, p.force);
      assert unreadable[0] == Unreadable;
    }
    if |unreadable| > 1 {
      HoldsUnreadable(s, h, lines, items + [Unreadable], p.first, p.force);
      assert items + unreadable == items + [Unreadable] + [Unreadable];
    } else if |unreadable| == 1 {
      assert items + unreadable == items + [Unreadable];
    } else {
      assert items + unreadable == items;
    }
  }

  lemma {:induction false} NoneReadable(items: seq<Item>)
    requires AllUnreadable(items)
    ensures Readable(items) == 0
  {
    if items != [] {
      NoneReadable(items[..|items| - 1]);
    }
  }

  /** The lines a write adds to the trail, and that those before it stay: what a signed write is made beside. */
  lemma SignedStands(h: Hash, base: seq<Bytes>, trail: Bytes, action: Action)
    requires Good(h, base, trail) && IsAction(action) && SignedLines(h, trail, action) != []
    ensures var lines := CompleteLines(Exec(h, trail, action));
            Good(h, lines, Exec(h, trail, action)) && Extends(base, lines) && |base| <= |lines|
  {
    hide Good, CompleteLines, Exec, SignedLines, SignableAt, Extends, IsAction;
    SignedLinesStand(h, base, trail, action);
  }

  lemma SignedSlipless(s: Scheme, h: Hash, base: seq<Bytes>, p: Project, action: Action, key: Key, cut: nat)
    requires GoodProject(s, h, base, p) && IsAction(action) && IsInForce(s, p.sidecar, key)
    requires ToWrite(s, h, p, Signed(action, key, cut)) != []
    requires !FirstIsWhole(p.sidecar, ToWrite(s, h, p, Signed(action, key, cut)), cut)
    ensures var now := ExecUse(s, h, p, Signed(action, key, cut)); GoodProject(s, h, CompleteLines(now.trail), now)
  {
    hide Good, Holds, CompleteLines, ItemsIn, IsInForce, SidecarData, Exec, SignedLines, IsAction, IsTorn, SignaturesOf,
         IsItem, Extends, Keyed, FirstIsWhole, Join;
    var sigs := SignaturesOf(s, h, key, SignedLines(h, p.trail, action));
    NoSignatures(s, h, key);
    SignedStands(h, base, p.trail, action);
    SignaturesAreItems(s, h, key, SignedLines(h, p.trail, action));
    ItemLinesRead(sigs);
    var ended, k := SidecarWritten(s, p.sidecar, key, ItemLines(sigs), cut);
    NothingMore([], ItemLines(sigs));
    var trail := Exec(h, p.trail, action);
    var unreadable := (if ended then [Unreadable] else []) + [];
    NothingReadableAdded(s, h, base, CompleteLines(trail), p, trail,
                         p.sidecar + CutOff(SidecarData(s, p.sidecar, key, Join(ItemLines(sigs))), cut), unreadable,
                         key, key);
  }

  /** A rotation's write: at most one line, a readable rotation exactly while its place is one a reader takes. */
  lemma RotationWritten(s: Scheme, h: Hash, base: seq<Bytes>, p: Project, key: Key, next: Key, cut: nat)
    returns (ended: bool, k: nat)
    requires Good(h, base, p.trail) && IsInForce(s, p.sidecar, key) && TrailHeadOf(h, p.trail).RotatesAfter?
    ensures var item := RotationOf(s, key, TrailHeadOf(h, p.trail).head, next);
            && k <= 1 && (k > 0 <==> FirstIsWhole(p.sidecar, [ItemLine(item)], cut))
            && ItemsIn(p.sidecar + CutOff(SidecarData(s, p.sidecar, key, ItemLine(item) + ['\n']), cut)) ==
               ItemsIn(p.sidecar) + ((if ended then [Unreadable] else [])
                                     + if k == 0 then [] else [if InRange(item.at) then item else Unreadable])
    ensures var lines := CompleteLines(p.trail);
            && Good(h, lines, p.trail) && Extends(base, lines) && lines != []
            && TrailHeadOf(h, p.trail).head == TrailHead(TrailThrough(lines, |lines|), |lines|)
            && TrailThrough(lines, |lines|) != []
  {
    hide Good, CompleteLines, ItemsIn, IsInForce, SidecarData, TrailHeadOf, TrailThrough, IsIdentity, IsTorn,
         IsSignature, KeyId, Sign, RotationMessage, ItemLine, InRange, Extends, FirstIsWhole, Join;
    var item := RotationOf(s, key, TrailHeadOf(h, p.trail).head, next);
    TrailHeadIs(h, base, p.trail);
    Rebase(h, base, p.trail);
    GoodExtends(h, base, p.trail);
    IdentityIsSomething(TrailHeadOf(h, p.trail).head.trail);
    RotationForms(s, key, TrailHeadOf(h, p.trail).head, next);
    RotationReads(item);
    OneLine(ItemLine(item));
    ended, k := SidecarWritten(s, p.sidecar, key, [ItemLine(item)], cut);
    if k == 0 {
      NothingMore([], [ItemLine(item)]);
    } else {
      assert [ItemLine(item)][..k] == [ItemLine(item)];
      ParseOne(ItemLine(item));
    }
  }

  lemma RotationSlipless(s: Scheme, h: Hash, base: seq<Bytes>, p: Project, key: Key, next: Key, cut: nat)
    requires GoodProject(s, h, base, p) && IsInForce(s, p.sidecar, key) && next != key
    requires TrailHeadOf(h, p.trail).RotatesAfter?
    requires !(FirstIsWhole(p.sidecar, ToWrite(s, h, p, Rotation(key, next, true, cut)), cut)
               && InRange(TrailHeadOf(h, p.trail).head.at))
    ensures var now := ExecUse(s, h, p, Rotation(key, next, true, cut)); GoodProject(s, h, CompleteLines(now.trail), now)
  {
    hide Good, Holds, CompleteLines, ItemsIn, IsInForce, SidecarData, TrailHeadOf, TrailThrough, Extends, Keyed,
         FirstIsWhole, ItemLine, InRange;
    var ended, k := RotationWritten(s, h, base, p, key, next, cut);
    var item := RotationOf(s, key, TrailHeadOf(h, p.trail).head, next);
    var unreadable := (if ended then [Unreadable] else []) + if k == 0 then [] else [Unreadable];
    NothingReadableAdded(s, h, base, CompleteLines(p.trail), p, p.trail,
                         p.sidecar + CutOff(SidecarData(s, p.sidecar, key, ItemLine(item) + ['\n']), cut), unreadable,
                         key, next);
  }

  /** Every use that does not slip keeps the project good, beside the lines it began with or those it now has. */
  lemma UseKeeps(s: Scheme, h: Hash, base: seq<Bytes>, p: Project, use: Use)
    returns (now: seq<Bytes>)
    requires Complete(s) && GoodProject(s, h, base, p) && IsUse(s, use) && !Slips(s, h, p, use)
    ensures GoodProject(s, h, now, ExecUse(s, h, p, use))
  {
    hide Good, Holds, Complete, Namesake, IsInForce, Exec, Keyed, IsAction, TrailHeadOf, Acceptable, SignedLines,
         SignaturesOf, Join, ItemLine, FirstIsWhole, InRange, LastReadableOf;
    now := base;
    match use
    case Unsigned(action) =>
      ExecKeeps(h, base, p.trail, action);
    case Signed(action, key, cut) =>
      if SignaturesOf(s, h, key, SignedLines(h, p.trail, action)) == [] || !IsInForce(s, p.sidecar, key) {
        NothingAdded(p, Exec(h, p.trail, action), cut, key, key);
        ExecKeeps(h, base, p.trail, action);
      } else {
        now := CompleteLines(ExecUse(s, h, p, use).trail);
        if Namesake(s, p, key) {
          NamesakeMayWrite(s, h, base, p, key);
          SignedSlipless(s, h, base, p, action, key, cut);
        } else {
          InForceIs(s, h, base, p, key);
          SignedAdds(s, h, base, p, action, key, cut);
        }
      }
    case Rotation(key, next, locked, cut) =>
      if next == key || !locked || TrailHeadOf(h, p.trail).NotRotated? || !IsInForce(s, p.sidecar, key) {
        NothingAdded(p, p.trail, cut, key, next);
      } else {
        now := CompleteLines(ExecUse(s, h, p, use).trail);
        if Namesake(s, p, key) {
          NamesakeMayWrite(s, h, base, p, key);
          RotationSlipless(s, h, base, p, key, next, cut);
        } else {
          InForceIs(s, h, base, p, key);
          RotationAdds(s, h, base, p, key, next, cut);
        }
      }
  }

  lemma FrontSlips(s: Scheme, h: Hash, p: Project, uses: seq<Use>)
    requires uses != []
    ensures var front := uses[..|uses| - 1];
            NoneSlips(s, h, p, uses) <==>
            NoneSlips(s, h, p, front) && !Slips(s, h, RunUses(s, h, p, front), uses[|uses| - 1])
  {
    hide Slips, RunUses;
    var n := |uses| - 1;
    var front := uses[..n];
    forall i | 0 <= i < n
      ensures uses[..i] == front[..i]
    {
    }
    if NoneSlips(s, h, p, uses) {
      assert !Slips(s, h, RunUses(s, h, p, uses[..n]), uses[n]);
      forall i | 0 <= i < n
        ensures !Slips(s, h, RunUses(s, h, p, front[..i]), front[i])
      {
        assert !Slips(s, h, RunUses(s, h, p, uses[..i]), uses[i]);
      }
    }
    if NoneSlips(s, h, p, front) && !Slips(s, h, RunUses(s, h, p, front), uses[n]) {
      forall i | 0 <= i <= n
        ensures !Slips(s, h, RunUses(s, h, p, uses[..i]), uses[i])
      {
        assert i < n ==> !Slips(s, h, RunUses(s, h, p, front[..i]), front[i]);
      }
    }
  }

  lemma {:induction false} UsesKeep(s: Scheme, h: Hash, base: seq<Bytes>, p: Project, uses: seq<Use>)
    returns (now: seq<Bytes>)
    requires Complete(s) && GoodProject(s, h, base, p) && AreUses(s, uses) && NoneSlips(s, h, p, uses)
    ensures GoodProject(s, h, now, RunUses(s, h, p, uses))
  {
    hide GoodProject, ExecUse, IsUse, Slips, NoneSlips, Complete;
    if uses == [] {
      now := base;
    } else {
      var front := uses[..|uses| - 1];
      FrontSlips(s, h, p, uses);
      var before := UsesKeep(s, h, base, p, front);
      now := UseKeeps(s, h, before, RunUses(s, h, p, front), uses[|uses| - 1]);
    }
  }

  // ----- A use that slips spoils it, for good -----

  /** Something is wrong with the sidecar, read under its first key beside these lines. */
  ghost predicate Spoilt(s: Scheme, h: Hash, base: seq<Bytes>, p: Project) {
    && Good(h, base, p.trail) && p.first.Some? && ItemsWithin(ItemsIn(p.sidecar), |base|)
    && After(Beside(s, h, base), Only(p.first.value), ItemsIn(p.sidecar), |ItemsIn(p.sidecar)|).found != []
  }

  lemma MoreStaysSpoilt(s: Scheme, h: Hash, base: seq<Bytes>, lines: seq<Bytes>, first: Key, items: seq<Item>,
                        more: seq<Item>)
    requires Extends(base, lines) && ItemsWithin(items, |base|)
    requires After(Beside(s, h, base), Only(first), items, |items|).found != []
    ensures After(Beside(s, h, lines), Only(first), items + more, |items + more|).found != []
  {
    hide After, Extends;
    var b := Beside(s, h, lines);
    AfterLifts(s, h, base, lines, Only(first), items, |items|);
    AfterPrefix(b, Only(first), items, more, |items|);
    FoundGrows(b, Only(first), items + more, |items|, |items + more|);
  }

  lemma {:induction false} SignaturesWithin(s: Scheme, h: Hash, key: Key, lines: seq<Bytes>, from: nat,
                                            written: seq<Bytes>)
    requires from + |written| <= |lines| && forall j | 0 <= j < |written| :: SignableAt(lines, from, written, j)
    ensures ItemsWithin(SignaturesOf(s, h, key, written), from + |written|)
  {
    hide Chained, LinkOf, Damaged, DigestOf, KeyId, Sign, RecordMessage;
    if written != [] {
      var front := written[..|written| - 1];
      forall j | 0 <= j < |front|
        ensures SignableAt(lines, from, front, j)
      {
        assert SignableAt(lines, from, written, j);
      }
      SignaturesWithin(s, h, key, lines, from, front);
      assert SignableAt(lines, from, written, |front|);
    }
  }

  lemma {:induction false} FirstSignature(s: Scheme, h: Hash, key: Key, written: seq<Bytes>) returns (j: nat)
    requires SignaturesOf(s, h, key, written) != []
    ensures j < |written| && Chained(written[j])
    ensures SignaturesOf(s, h, key, written)[0] == SignatureOf(s, h, key, written[j])
  {
    hide Chained, SignatureOf;
    var front := written[..|written| - 1];
    if SignaturesOf(s, h, key, front) != [] {
      j := FirstSignature(s, h, key, front);
    } else {
      j := |written| - 1;
    }
  }

  lemma WithinConcat(a: seq<Item>, b: seq<Item>, n: nat)
    requires ItemsWithin(a, n) && ItemsWithin(b, n)
    ensures ItemsWithin(a + b, n)
  {
    hide ItemWithin;
    forall i | 0 <= i < |a + b|
      ensures ItemWithin((a + b)[i], n)
    {
      if i >= |a| {
        assert (a + b)[i] == b[i - |a|];
      }
    }
  }

  /** Whatever is written after it, what is wrong with a sidecar stays. */
  lemma StaysSpoilt(s: Scheme, h: Hash, base: seq<Bytes>, lines: seq<Bytes>, p: Project, now: Project, more: seq<Item>)
    requires Spoilt(s, h, base, p) && Good(h, lines, now.trail) && Extends(base, lines) && now.first == p.first
    requires ItemsIn(now.sidecar) == ItemsIn(p.sidecar) + more && ItemsWithin(more, |lines|)
    ensures Spoilt(s, h, lines, now)
  {
    hide Good, After, Extends, ItemsWithin, ItemsIn;
    WithinMore(ItemsIn(p.sidecar), |base|, |lines|, base, lines);
    WithinConcat(ItemsIn(p.sidecar), more, |lines|);
    MoreStaysSpoilt(s, h, base, lines, p.first.value, ItemsIn(p.sidecar), more);
  }

  lemma KeyedFirst(p: Project, trail: Bytes, sidecar: Bytes, key: Key, after: Key)
    requires p.first.Some?
    ensures var now := Keyed(p, trail, sidecar, key, after);
            now.trail == trail && now.sidecar == sidecar && now.first == p.first
  {
    hide Readable, ItemsIn;
  }

  lemma SignedStaysSpoilt(s: Scheme, h: Hash, base: seq<Bytes>, p: Project, action: Action, key: Key, cut: nat)
    requires Spoilt(s, h, base, p) && IsAction(action) && IsInForce(s, p.sidecar, key)
    requires SignaturesOf(s, h, key, SignedLines(h, p.trail, action)) != []
    ensures var now := ExecUse(s, h, p, Signed(action, key, cut)); Spoilt(s, h, CompleteLines(now.trail), now)
  {
    hide Good, After, CompleteLines, ItemsIn, IsInForce, SidecarData, Exec, SignedLines, IsAction, IsTorn, SignaturesOf,
         IsItem, Extends, Keyed, FirstIsWhole, Join, ItemsWithin, SignableAt;
    var written := SignedLines(h, p.trail, action);
    var sigs := SignaturesOf(s, h, key, written);
    NoSignatures(s, h, key);
    SignedLinesStand(h, base, p.trail, action);
    SignaturesAreItems(s, h, key, written);
    ItemLinesRead(sigs);
    var ended, k := SidecarWritten(s, p.sidecar, key, ItemLines(sigs), cut);
    ParseLinesPrefix(ItemLines(sigs), k);
    var trail, from := Exec(h, p.trail, action), |CompleteLines(p.trail)|;
    SignaturesWithin(s, h, key, CompleteLines(trail), from, written);
    PartWithin(ended, sigs, k, |CompleteLines(trail)|);
    var sidecar := p.sidecar + CutOff(SidecarData(s, p.sidecar, key, Join(ItemLines(sigs))), cut);
    KeyedFirst(p, trail, sidecar, key, key);
    StaysSpoilt(s, h, base, CompleteLines(trail), p, Keyed(p, trail, sidecar, key, key),
                (if ended then [Unreadable] else []) + sigs[..k]);
  }

  lemma PartWithin(ended: bool, items: seq<Item>, k: nat, n: nat)
    requires k <= |items| && ItemsWithin(items, n)
    ensures ItemsWithin((if ended then [Unreadable] else []) + items[..k], n)
  {
    forall i | 0 <= i < k
      ensures ItemWithin(items[..k][i], n)
    {
      assert items[..k][i] == items[i];
    }
    WithinConcat(if ended then [Unreadable] else [], items[..k], n);
  }

  lemma RotationStaysSpoilt(s: Scheme, h: Hash, base: seq<Bytes>, p: Project, key: Key, next: Key, cut: nat)
    requires Spoilt(s, h, base, p) && IsInForce(s, p.sidecar, key) && next != key
    requires TrailHeadOf(h, p.trail).RotatesAfter?
    ensures var now := ExecUse(s, h, p, Rotation(key, next, true, cut)); Spoilt(s, h, CompleteLines(now.trail), now)
  {
    hide Good, After, CompleteLines, ItemsIn, IsInForce, SidecarData, TrailHeadOf, TrailThrough, Extends, Keyed,
         FirstIsWhole, ItemLine, InRange;
    var ended, k := RotationWritten(s, h, base, p, key, next, cut);
    var item := RotationOf(s, key, TrailHeadOf(h, p.trail).head, next);
    var sidecar := p.sidecar + CutOff(SidecarData(s, p.sidecar, key, ItemLine(item) + ['\n']), cut);
    KeyedFirst(p, p.trail, sidecar, key, next);
    StaysSpoilt(s, h, base, CompleteLines(p.trail), p, Keyed(p, p.trail, sidecar, key, next),
                (if ended then [Unreadable] else [])
                + if k == 0 then [] else [if InRange(item.at) then item else Unreadable]);
  }

  /** No use mends a spoilt sidecar. */
  lemma SpoiltStays(s: Scheme, h: Hash, base: seq<Bytes>, p: Project, use: Use)
    returns (now: seq<Bytes>)
    requires Spoilt(s, h, base, p) && IsUse(s, use)
    ensures Spoilt(s, h, now, ExecUse(s, h, p, use))
  {
    hide Good, IsInForce, Exec, Keyed, IsAction, TrailHeadOf, Acceptable, SignedLines, SignaturesOf, Join, ItemLine,
         After, ItemsIn, ItemsWithin;
    now := base;
    match use
    case Unsigned(action) =>
      ExecKeeps(h, base, p.trail, action);
    case Signed(action, key, cut) =>
      if SignaturesOf(s, h, key, SignedLines(h, p.trail, action)) == [] || !IsInForce(s, p.sidecar, key) {
        NothingAdded(p, Exec(h, p.trail, action), cut, key, key);
        ExecKeeps(h, base, p.trail, action);
      } else {
        now := CompleteLines(ExecUse(s, h, p, use).trail);
        SignedStaysSpoilt(s, h, base, p, action, key, cut);
      }
    case Rotation(key, next, locked, cut) =>
      if next == key || !locked || TrailHeadOf(h, p.trail).NotRotated? || !IsInForce(s, p.sidecar, key) {
        NothingAdded(p, p.trail, cut, key, next);
      } else {
        now := CompleteLines(ExecUse(s, h, p, use).trail);
        RotationStaysSpoilt(s, h, base, p, key, next, cut);
      }
  }

  /** Beside these lines, a first item that is found spoils the sidecar whatever is written after it. */
  lemma FoundSpoils(s: Scheme, h: Hash, lines: seq<Bytes>, p: Project, items: seq<Item>, item: Item, more: seq<Item>)
    requires Good(h, lines, p.trail) && p.first.Some?
    requires ItemsIn(p.sidecar) == items + [item] + more && ItemsWithin(items + [item] + more, |lines|)
    requires After(Beside(s, h, lines), Only(p.first.value), items + [item], |items + [item]|).found != []
    ensures Spoilt(s, h, lines, p)
  {
    hide Good, After, ItemsIn;
    var b, options := Beside(s, h, lines), Only(p.first.value);
    AfterPrefix(b, options, items + [item], more, |items + [item]|);
    FoundGrows(b, options, items + [item] + more, |items + [item]|, |items + [item] + more|);
  }

  lemma WholeIsSomething(sidecar: Bytes, lines: seq<Bytes>, cut: nat)
    requires FirstIsWhole(sidecar, lines, cut)
    ensures lines != []
  {
  }

  lemma ForceHasFirst(s: Scheme, h: Hash, lines: seq<Bytes>, p: Project)
    requires Holds(s, h, lines, ItemsIn(p.sidecar), p.first, p.force) && p.force.Some?
    ensures p.first.Some?
  {
  }

  /** What stands before a write's whole lines: the items that were there, and a torn line that was ended. */
  function Before(items: seq<Item>, ended: bool): seq<Item> { if ended then items + [Unreadable] else items }

  lemma HoldsBefore(s: Scheme, h: Hash, base: seq<Bytes>, lines: seq<Bytes>, p: Project, ended: bool, n: nat)
    requires Extends(base, lines) && |base| <= n && Holds(s, h, base, ItemsIn(p.sidecar), p.first, p.force)
    ensures var items := Before(ItemsIn(p.sidecar), ended);
            Holds(s, h, lines, items, p.first, p.force) && ItemsWithin(items, n)
  {
    hide Holds, Extends, ItemsIn;
    var items := ItemsIn(p.sidecar);
    HoldsLifts(s, h, base, lines, items, p.first, p.force);
    HeldWithin(s, h, base, items, p.first, p.force);
    HoldsUnreadable(s, h, lines, items, p.first, p.force);
    ItemsStayWithin(items, ended, |base|);
    WithinMore(Before(items, ended), |base|, n, [], []);
  }

  /** The first whole signature a namesake wrote is found invalid. */
  lemma SignatureSpoils(s: Scheme, h: Hash, base: seq<Bytes>, p: Project, written: seq<Bytes>, key: Key, ended: bool,
                        k: nat, now: Project)
    requires Sound(s) && WrittenWhole(h, base, p.trail, now.trail, written) && Namesake(s, p, key)
    requires Holds(s, h, base, ItemsIn(p.sidecar), p.first, p.force) && p.first.Some? && now.first == p.first
    requires 0 < k <= |SignaturesOf(s, h, key, written)|
    requires ItemsIn(now.sidecar) == Before(ItemsIn(p.sidecar), ended) + SignaturesOf(s, h, key, written)[..k]
    ensures Spoilt(s, h, CompleteLines(now.trail), now)
  {
    hide Good, After, CompleteLines, ItemsIn, Extends, ItemWithin, Holds, Chained, LinkOf, Damaged, DigestOf, Verifies,
         RecordMessage, Sign, Before;
    var lines, from := CompleteLines(now.trail), |CompleteLines(p.trail)|;
    var items, sigs := Before(ItemsIn(p.sidecar), ended), SignaturesOf(s, h, key, written);
    var j := FirstSignature(s, h, key, written);
    assert SignableAt(lines, from, written, j);
    var n := from + j + 1;
    HoldsBefore(s, h, base, lines, p, ended, n - 1);
    NamesakeIsFound(s, h, lines, items, p.first.value, p.force.value, key, n);
    SignaturesWithin(s, h, key, lines, from, written);
    PartWithin(false, sigs, k, |lines|);
    assert [] + sigs[..k] == sigs[..k];
    WithinMore(items, n - 1, |lines|, [], []);
    WithinConcat(items, sigs[..k], |lines|);
    FirstOf(items, sigs, k);
    FoundSpoils(s, h, lines, now, items, sigs[0], sigs[1..k]);
  }

  lemma FirstOf(items: seq<Item>, more: seq<Item>, k: nat)
    requires 0 < k <= |more|
    ensures items + more[..k] == items + [more[0]] + more[1..k]
  {
  }

  lemma SigningSlipSpoils(s: Scheme, h: Hash, base: seq<Bytes>, p: Project, action: Action, key: Key, cut: nat)
    requires Sound(s) && GoodProject(s, h, base, p) && IsAction(action) && Slips(s, h, p, Signed(action, key, cut))
    ensures var now := ExecUse(s, h, p, Signed(action, key, cut)); Spoilt(s, h, CompleteLines(now.trail), now)
  {
    hide Good, After, CompleteLines, ItemsIn, IsInForce, SidecarData, Exec, SignedLines, IsAction, IsTorn, SignaturesOf,
         IsItem, Keyed, FirstIsWhole, Join, ItemsWithin, Holds, LastReadableOf, WrittenWhole;
    var written := SignedLines(h, p.trail, action);
    var sigs := SignaturesOf(s, h, key, written);
    NamesakeMayWrite(s, h, base, p, key);
    NoSignatures(s, h, key);
    WholeIsSomething(p.sidecar, ItemLines(sigs), cut);
    SignedLinesStand(h, base, p.trail, action);
    SignaturesAreItems(s, h, key, written);
    ItemLinesRead(sigs);
    var ended, k := SidecarWritten(s, p.sidecar, key, ItemLines(sigs), cut);
    ParseLinesPrefix(ItemLines(sigs), k);
    var trail := Exec(h, p.trail, action);
    var sidecar := p.sidecar + CutOff(SidecarData(s, p.sidecar, key, Join(ItemLines(sigs))), cut);
    ForceHasFirst(s, h, base, p);
    KeyedFirst(p, trail, sidecar, key, key);
    AddsItems(ItemsIn(p.sidecar), ended, sigs[..k]);
    SignatureSpoils(s, h, base, p, written, key, ended, k, Keyed(p, trail, sidecar, key, key));
  }

  /** A namesake's whole rotation is found invalid too. */
  lemma RotationIsFoundInvalid(s: Scheme, h: Hash, lines: seq<Bytes>, items: seq<Item>, p: Project, key: Key, next: Key)
    requires Sound(s) && Namesake(s, p, key) && p.first.Some? && Holds(s, h, lines, items, p.first, p.force)
    requires lines != [] && TrailThrough(lines, |lines|) != []
    ensures var item := RotationOf(s, key, TrailHead(TrailThrough(lines, |lines|), |lines|), next);
            After(Beside(s, h, lines), Only(p.first.value), items + [item], |items + [item]|).found ==
            [SignatureFinding(RotationInvalid, |lines|)]
  {
    hide After, SequencesOf, LastReadableIn, TrailThrough, KeyId, Sign, RotationMessage, Acceptable, Holds, Verifies,
         SoundThrough, RecordFinding;
    var b, trail := Beside(s, h, lines), TrailThrough(lines, |lines|);
    var item := RotationOf(s, key, TrailHead(trail, |lines|), next);
    HeldWithinAll(s, h, lines, items, p);
    ReadyFor(s, h, lines, items, p.first, p.force, p.force.value, |lines|);
    AfterOneMore(b, Only(p.first.value), items, item);
    assert !Verifies(s, p.force.value, RotationMessage(trail, |lines|, next), item.signature);
  }

  lemma HeldWithinAll(s: Scheme, h: Hash, lines: seq<Bytes>, items: seq<Item>, p: Project)
    requires Holds(s, h, lines, items, p.first, p.force)
    ensures ItemsWithin(items, |lines|)
  {
  }

  lemma RotationSlipSpoils(s: Scheme, h: Hash, base: seq<Bytes>, p: Project, key: Key, next: Key, cut: nat)
    requires Sound(s) && GoodProject(s, h, base, p) && next != key && TrailHeadOf(h, p.trail).RotatesAfter?
    requires Slips(s, h, p, Rotation(key, next, true, cut))
    ensures var now := ExecUse(s, h, p, Rotation(key, next, true, cut)); Spoilt(s, h, CompleteLines(now.trail), now)
  {
    hide Good, Holds, After, CompleteLines, ItemsIn, IsInForce, SidecarData, TrailHeadOf, TrailThrough, Extends, Keyed,
         FirstIsWhole, ItemLine, InRange, Before, LastReadableOf, ItemsWithin;
    NamesakeMayWrite(s, h, base, p, key);
    ForceHasFirst(s, h, base, p);
    var ended, k := RotationWritten(s, h, base, p, key, next, cut);
    var item, lines := RotationOf(s, key, TrailHeadOf(h, p.trail).head, next), CompleteLines(p.trail);
    var sidecar := p.sidecar + CutOff(SidecarData(s, p.sidecar, key, ItemLine(item) + ['\n']), cut);
    KeyedFirst(p, p.trail, sidecar, key, next);
    BaseWithin(h, base, p.trail);
    HoldsBefore(s, h, base, lines, p, ended, |lines|);
    var items := Before(ItemsIn(p.sidecar), ended);
    RotationIsFoundInvalid(s, h, lines, items, p, key, next);
    OneMoreWithin(items, item, |lines|);
    BeforeAdds(ItemsIn(p.sidecar), ended, item);
    FoundSpoils(s, h, lines, Keyed(p, p.trail, sidecar, key, next), items, item, []);
  }

  lemma OneMoreWithin(items: seq<Item>, item: Item, n: nat)
    requires ItemsWithin(items, n) && ItemWithin(item, n)
    ensures ItemsWithin(items + [item] + [], n)
  {
    hide ItemWithin;
    WithinConcat(items, [item], n);
    assert items + [item] + [] == items + [item];
  }

  lemma BeforeAdds(items: seq<Item>, ended: bool, item: Item)
    ensures items + ((if ended then [Unreadable] else []) + [item]) == Before(items, ended) + [item] + []
  {
  }

  /** Where no other key verifies what a key signed, a use that slips spoils the sidecar. */
  lemma SlipSpoils(s: Scheme, h: Hash, base: seq<Bytes>, p: Project, use: Use)
    returns (now: seq<Bytes>)
    requires Sound(s) && GoodProject(s, h, base, p) && IsUse(s, use) && Slips(s, h, p, use)
    ensures Spoilt(s, h, now, ExecUse(s, h, p, use))
  {
    hide GoodProject, Spoilt, ExecUse, IsAction, Acceptable, Namesake, Sound, TrailHeadOf, LastReadableOf, InRange,
         SignaturesOf;
    now := CompleteLines(ExecUse(s, h, p, use).trail);
    match use
    case Unsigned(_) =>
    case Signed(action, key, cut) =>
      SigningSlipSpoils(s, h, base, p, action, key, cut);
    case Rotation(key, next, locked, cut) =>
      RotationSlipSpoils(s, h, base, p, key, next, cut);
  }

  lemma SpoiltDisagrees(s: Scheme, h: Hash, base: seq<Bytes>, p: Project)
    requires Spoilt(s, h, base, p)
    ensures !AgreesWith(s, h, p)
  {
    hide Good, After, Extends, CompleteLines, Tail, ParseLines, ItemsWithin, SequencesOf;
    GoodExtends(h, base, p.trail);
    MoreStaysSpoilt(s, h, base, CompleteLines(p.trail), p.first.value, ItemsIn(p.sidecar), []);
    MoreStaysSpoilt(s, h, base, CompleteLines(p.trail), p.first.value, ItemsIn(p.sidecar), [Unreadable]);
    assert ItemsIn(p.sidecar) + [] == ItemsIn(p.sidecar);
  }

  // ----- Over every run -----

  lemma {:induction false} UsesSettle(s: Scheme, h: Hash, base: seq<Bytes>, p: Project, uses: seq<Use>)
    returns (now: seq<Bytes>)
    requires Complete(s) && Sound(s) && GoodProject(s, h, base, p) && AreUses(s, uses)
    ensures if NoneSlips(s, h, p, uses) then GoodProject(s, h, now, RunUses(s, h, p, uses))
            else Spoilt(s, h, now, RunUses(s, h, p, uses))
  {
    hide GoodProject, Spoilt, ExecUse, IsUse, Slips, NoneSlips, Complete, Sound;
    if uses == [] {
      now := base;
      NoneOfNone(s, h, p);
    } else {
      var front, last := uses[..|uses| - 1], uses[|uses| - 1];
      FrontSlips(s, h, p, uses);
      var before := UsesSettle(s, h, base, p, front);
      if !NoneSlips(s, h, p, front) {
        now := SpoiltStays(s, h, before, RunUses(s, h, p, front), last);
      } else if Slips(s, h, RunUses(s, h, p, front), last) {
        now := SlipSpoils(s, h, before, RunUses(s, h, p, front), last);
      } else {
        now := UseKeeps(s, h, before, RunUses(s, h, p, front), last);
      }
    }
  }

  lemma NoneOfNone(s: Scheme, h: Hash, p: Project)
    ensures NoneSlips(s, h, p, [])
  {
  }

  /** A trail with no finding, before anything is signed. */
  function NothingSigned(trail: Bytes): Project { Project(trail, [], None, None) }

  lemma UnsignedIsGood(s: Scheme, h: Hash, trail: Bytes)
    requires AllFindings(h, trail) == []
    ensures GoodProject(s, h, CompleteLines(trail), NothingSigned(trail))
  {
    hide Good, Holds, AllFindings, CompleteLines, ItemsIn;
    CleanIsGood(h, trail);
    NoSidecar(s, h, CompleteLines(trail));
  }

  /**
   After any run in which no use slips, the reading of the sidecar under the first key that signed finds nothing, has
   the writer's key in force and counts every whole signature; and every key without a namesake in force is let write
   exactly when it is the one in force.
   */
  lemma SidecarAgrees(s: Scheme, h: Hash, trail: Bytes, uses: seq<Use>)
    requires Complete(s) && AllFindings(h, trail) == [] && AreUses(s, uses)
    requires NoneSlips(s, h, NothingSigned(trail), uses)
    ensures var now := RunUses(s, h, NothingSigned(trail), uses);
            && AgreesWith(s, h, now)
            && forall key: Key | !Namesake(s, now, key) ::
                 IsInForce(s, now.sidecar, key) <==> now.force.None? || now.force.value == key
  {
    hide GoodProject, AllFindings, AreUses, NoneSlips, Complete, AgreesWith, IsInForce, Namesake, RunUses,
         NothingSigned;
    UnsignedIsGood(s, h, trail);
    var base := UsesKeep(s, h, CompleteLines(trail), NothingSigned(trail), uses);
    var now := RunUses(s, h, NothingSigned(trail), uses);
    GoodAgrees(s, h, base, now);
    forall key: Key | !Namesake(s, now, key)
      ensures IsInForce(s, now.sidecar, key) <==> now.force.None? || now.force.value == key
    {
      InForceIs(s, h, base, now, key);
    }
  }

  /** With a scheme in which no other key verifies what a key signed, that is the exact condition. */
  lemma SidecarAgreesExactly(s: Scheme, h: Hash, trail: Bytes, uses: seq<Use>)
    requires Complete(s) && Sound(s) && AllFindings(h, trail) == [] && AreUses(s, uses)
    ensures AgreesWith(s, h, RunUses(s, h, NothingSigned(trail), uses)) <==> NoneSlips(s, h, NothingSigned(trail), uses)
  {
    hide GoodProject, Spoilt, AllFindings, AreUses, NoneSlips, Complete, Sound, AgreesWith, RunUses, NothingSigned;
    UnsignedIsGood(s, h, trail);
    var base := UsesSettle(s, h, CompleteLines(trail), NothingSigned(trail), uses);
    if NoneSlips(s, h, NothingSigned(trail), uses) {
      GoodAgrees(s, h, base, RunUses(s, h, NothingSigned(trail), uses));
    } else {
      SpoiltDisagrees(s, h, base, RunUses(s, h, NothingSigned(trail), uses));
    }
  }

  // ----- A run that slips -----

  lemma SmallRecordFits(link: Link)
    requires IsLink(link) && link.sequence < MAX_SAFE_INTEGER
    ensures !Oversized(RecordLine(Some(link), LongBody(0)))
  {
    hide EncodeMembers, AllHex, IsHex;
    var ms := RecordMembers(Some(link), LongBody(0));
    EncodedSize(ms);
    SafeNumeralLength(link.sequence);
    var previous := Member(PREVIOUS, Text(link.previous), LongBody(0));
    var sequence := Member(SEQUENCE, Number(FromNat(link.sequence)), previous);
    assert SizeOf(LongBody(0).rest) == 0;
    assert SizeOf(LongBody(0)) <= 100;
    assert SizeOf(previous) <= 300;
    assert SizeOf(sequence) <= 400;
  }

  /** A chained append of one small record. */
  function SmallAppend(mint: Identity, cut: nat): Action { ChainedAppend([LongBody(0)], true, mint, cut) }

  lemma OneOfBatch(h: Hash, head: WriterHead, body: Members)
    ensures BatchLines(h, head, [body]) == [RecordLine(Some(NextLink(h, head, [])), body)]
  {
    hide RecordLine;
    assert [body][..0] == [];
  }

  lemma NotOversized(line: Bytes)
    requires !Oversized(line)
    ensures !AnyOversized([line])
  {
  }

  /** On a short trail that ends in a newline it is written whole, and its one line is a record to sign. */
  lemma SmallAppendSigns(h: Hash, trail: Bytes, mint: Identity, cut: nat)
    requires Tidy(h, CompleteLines(trail)) && Tail(trail) == [] && !AnyOversized(CompleteLines(trail))
    requires |CompleteLines(trail)| + 1 < MAX_SAFE_INTEGER && cut > MAX_LINE
    ensures var action := SmallAppend(mint, cut);
            && IsAction(action) && |SignedLines(h, trail, action)| == 1 && Chained(SignedLines(h, trail, action)[0])
            && CompleteLines(Exec(h, trail, action)) == CompleteLines(trail) + SignedLines(h, trail, action)
            && Tail(Exec(h, trail, action)) == [] && !AnyOversized(SignedLines(h, trail, action))
  {
    hide Tidy, SplitLines, Join, LinkOf, HeadFor, LongBody, RecordLine, IsIdentity, IsDigest, IsRecordBody, AnyOversized,
         IsBody;
    HeadAgrees(h, trail, mint);
    var head := HeadFor(h, trail, mint).value;
    var link := NextLink(h, head, []);
    NextIsLink(h, head, []);
    SmallRecordFits(link);
    LongBodyIs(0);
    OneOfBatch(h, head, LongBody(0));
    var line := RecordLine(Some(link), LongBody(0));
    RecordIsRead(Some(link), LongBody(0));
    RecordReads(Some(link), LongBody(0));
    NotOversized(line);
    OneLine(line);
    SplitOfJoin([line], []);
    assert Join([line]) + [] == Join([line]);
    assert CutOff(line + ['\n'], cut) == line + ['\n'];
    SplitWithMore(trail, line);
    assert [] + line == line;
  }

  /** The first key to sign one record whole is in force after it, and the last readable line is its signature. */
  lemma FirstSigns(s: Scheme, h: Hash, action: Action, key: Key, cut: nat)
    requires |SignedLines(h, [], action)| == 1 && Chained(SignedLines(h, [], action)[0]) && cut > MAX_SIDECAR_LINE
    ensures var now := ExecUse(s, h, NothingSigned([]), Signed(action, key, cut));
            && now.trail == Exec(h, [], action) && now.force == Some(key)
            && LastReadableOf(now.sidecar).RecordSignature?
  {
    hide Chained, SignedLines, Exec, Join, IsItem, ParseLine, SidecarData, SignatureOf, ItemLine, SplitLines;
    var line := SignedLines(h, [], action)[0];
    var sig := SignatureOf(s, h, key, line);
    OneSignature(s, h, key, SignedLines(h, [], action));
    OneItemLine(sig);
    NothingReadable();
    SignatureIsItem(s, h, key, line);
    ItemReads(sig);
    ItemFits(sig);
    OneLine(ItemLine(sig));
    var ended, k := SidecarWritten(s, [], key, [ItemLine(sig)], cut);
    assert [ItemLine(sig)][..k] == [ItemLine(sig)];
    ParseOne(ItemLine(sig));
    NothingIn();
    var before := if ended then [Unreadable] else [];
    assert [] + (before + [sig]) == before + [sig];
    OneMoreReadable(before, sig);
  }

  lemma NothingIn()
    ensures ItemsIn([]) == [] && Readable([]) == 0
  {
  }

  lemma OneMoreReadable(items: seq<Item>, item: Item)
    requires !item.Unreadable?
    ensures Readable(items + [item]) > 0 && LastReadableIn(items + [item]) == item
  {
    assert (items + [item])[..|items|] == items;
  }

  lemma OneSignature(s: Scheme, h: Hash, key: Key, lines: seq<Bytes>)
    requires |lines| == 1 && Chained(lines[0])
    ensures SignaturesOf(s, h, key, lines) == [SignatureOf(s, h, key, lines[0])]
  {
    hide Chained, SignatureOf;
    assert lines[..0] == [];
  }

  lemma OneItemLine(item: Item)
    requires !item.Unreadable?
    ensures ItemLines([item]) == [ItemLine(item)]
  {
    hide ItemLine;
    assert [item][..0] == [];
  }

  /** A key that has signed, and then its namesake: the namesake's write slips. */
  lemma SecondSlips(s: Scheme, h: Hash, p: Project, first: Key, second: Key, action: Action, cut: nat)
    requires p.force == Some(first) && second != first && KeyId(s, first) == KeyId(s, second)
    requires LastReadableOf(p.sidecar).RecordSignature? && cut > MAX_SIDECAR_LINE + 2
    requires |SignedLines(h, p.trail, action)| == 1 && Chained(SignedLines(h, p.trail, action)[0])
    ensures Slips(s, h, p, Signed(action, second, cut))
  {
    hide Chained, SignedLines, SignatureOf, ItemLine, LastReadableOf, KeyId, IsItem;
    var line := SignedLines(h, p.trail, action)[0];
    OneSignature(s, h, second, SignedLines(h, p.trail, action));
    OneItemLine(SignatureOf(s, h, second, line));
    SignatureIsItem(s, h, second, line);
    ItemFits(SignatureOf(s, h, second, line));
  }

  /**
   Two keys of one name each sign one record on an empty trail, every write made whole: what the sidecar says is then
   not what a verifier reads, whatever else the scheme does.
   */
  lemma NamesakesDisagree(s: Scheme, h: Hash, first: Key, second: Key, mint: Identity, cut: nat)
    requires Complete(s) && Sound(s) && first != second && KeyId(s, first) == KeyId(s, second) && cut > MAX_LINE
    ensures var action := SmallAppend(mint, cut);
            var uses := [Signed(action, first, cut), Signed(action, second, cut)];
            && AreUses(s, uses) && Slips(s, h, RunUses(s, h, NothingSigned([]), uses[..1]), uses[1])
            && !AgreesWith(s, h, RunUses(s, h, NothingSigned([]), uses))
  {
    hide Complete, Sound, KeyId, Slips, AgreesWith, SignedLines, Exec, Chained, AllFindings, Tidy, AnyOversized,
         SplitLines, ExecUse, LastReadableOf, IsAction;
    var action := SmallAppend(mint, cut);
    var one, two := Signed(action, first, cut), Signed(action, second, cut);
    NothingFound(h);
    CleanIsSound(h, []);
    NoneOversized([]);
    SmallAppendSigns(h, [], mint, cut);
    FirstSigns(s, h, action, first, cut);
    var p := ExecUse(s, h, NothingSigned([]), one);
    assert [] + SignedLines(h, [], action) == SignedLines(h, [], action);
    CleanIsGood(h, []);
    ExecKeeps(h, [], [], action);
    TidyOf(h, [], p.trail);
    SmallAppendSigns(h, p.trail, mint, cut);
    SecondSlips(s, h, p, first, second, action, cut);
    assert [one, two][..1] == [one] && [one][..0] == [];
    assert RunUses(s, h, NothingSigned([]), [one]) == p;
    assert !NoneSlips(s, h, NothingSigned([]), [one, two]) by {
      assert [one, two][..1] == [one] && [one, two][1] == two;
    }
    SidecarAgreesExactly(s, h, [], [one, two]);
  }

  /** Keys that all have one name, and signatures that say nothing but whose they are. */
  function OneName(): Scheme {
    Scheme((key: Key, message: Bytes) => OwnMark(key),
           (key: Key, message: Bytes, signature: Bytes) => signature == OwnMark(key),
           (key: Key) => Zeros(32), (key: Key) => true)
  }

  function OwnMark(key: Key): (mark: Signature)
    ensures mark[..64] == key
  {
    key + key
  }

  /** Such a scheme is one of those the theorems are about, and its keys disagree. */
  lemma OneNameDisagrees(h: Hash, first: Key, second: Key, mint: Identity)
    requires first != second
    ensures var s, action := OneName(), SmallAppend(mint, MAX_LINE + 1);
            var uses := [Signed(action, first, MAX_LINE + 1), Signed(action, second, MAX_LINE + 1)];
            Complete(s) && Sound(s) && AreUses(s, uses) && !AgreesWith(s, h, RunUses(s, h, NothingSigned([]), uses))
  {
    hide AgreesWith, RunUses, AreUses, SmallAppend, Slips;
    NamesakesDisagree(OneName(), h, first, second, mint, MAX_LINE + 1);
  }
}
