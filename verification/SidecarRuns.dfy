/**
 A trail and its sidecar over every run: signed and unsigned writes, sidecar writes cut off or lost, rotations,
 and writers whose key is not in force. Read under the first key that signed, the sidecar has nothing wrong with
 it: its key in force is the writer's, and exactly the records with a whole signature line are signed.
 */
module SidecarRuns {
  import opened Octets
  import opened Json
  import opened Chain
  import opened Records
  import opened Writer
  import opened Repair
  import opened Runs
  import opened Sidecar
  import opened Signatures
  import opened SidecarWriter

  // ----- A longer trail changes nothing said of its first lines -----

  /** These lines are the first of those, and as many of them are damaged as before. */
  ghost predicate Extends(base: seq<Bytes>, lines: seq<Bytes>) {
    base <= lines && forall i | 0 <= i < |base| :: Damaged(lines, i) == Damaged(base, i)
  }

  lemma GoodExtends(h: Hash, base: seq<Bytes>, file: Bytes)
    requires Good(h, base, file)
    ensures Extends(base, CompleteLines(file))
  {
    hide CompleteLines, Tail, Tidy, TailIsTidy, Excuses, NextExcuses;
    var lines := CompleteLines(file);
    assert lines == base + lines[|base|..];
    forall i | 0 <= i < |base|
      ensures Damaged(lines, i) == Damaged(base, i)
    {
      if i + 1 < |base| {
        ExcusesPrefix(base, lines[|base|..], i);
      }
    }
  }

  lemma {:induction false} TrailThroughLifts(base: seq<Bytes>, lines: seq<Bytes>, n: nat)
    requires Extends(base, lines) && n <= |base|
    ensures TrailThrough(lines, n) == TrailThrough(base, n)
  {
    hide LinkOf, Damaged;
    if n > 0 {
      TrailThroughLifts(base, lines, n - 1);
    }
  }

  lemma SoundLifts(h: Hash, base: seq<Bytes>, lines: seq<Bytes>, n: nat)
    requires Extends(base, lines) && n <= |base|
    ensures SoundThrough(h, lines, n) == SoundThrough(h, base, n)
  {
    hide LineFindings, Damaged;
    assert lines == base + lines[|base|..];
    forall i | 0 <= i < n
      ensures LineFindings(h, lines, i) == LineFindings(h, base, i)
    {
      LineFindingsPrefix(h, base, lines[|base|..], i);
    }
  }

  ghost predicate ItemWithin(item: Item, n: nat) { !item.Unreadable? ==> 0 < NumberOf(item) <= n }

  ghost predicate ItemsWithin(items: seq<Item>, n: nat) { forall i | 0 <= i < |items| :: ItemWithin(items[i], n) }

  lemma StepLifts(s: Scheme, h: Hash, base: seq<Bytes>, lines: seq<Bytes>, options: SignatureOptions,
                  p: Progress, item: Item)
    requires Extends(base, lines) && ItemWithin(item, |base|)
    ensures Step(Beside(s, h, lines), options, p, item) == Step(Beside(s, h, base), options, p, item)
  {
    hide LinkOf, Damaged, SoundThrough, TrailThrough, DigestOf, KeyId, Verifies, Revoked, Acceptable;
    if !item.Unreadable? {
      TrailThroughLifts(base, lines, NumberOf(item));
      SoundLifts(h, base, lines, NumberOf(item));
    }
  }

  lemma {:induction false} AfterLifts(s: Scheme, h: Hash, base: seq<Bytes>, lines: seq<Bytes>, options: SignatureOptions,
                                      items: seq<Item>, k: nat)
    requires Extends(base, lines) && ItemsWithin(items, |base|) && k <= |items| && options.keys != []
    ensures After(Beside(s, h, lines), options, items, k) == After(Beside(s, h, base), options, items, k)
  {
    hide Step, Extends;
    if k > 0 {
      AfterLifts(s, h, base, lines, options, items, k - 1);
      StepLifts(s, h, base, lines, options, After(Beside(s, h, base), options, items, k - 1), items[k - 1]);
    }
  }

  lemma {:induction false} AfterPrefix(b: Beside, options: SignatureOptions, items: seq<Item>, more: seq<Item>, k: nat)
    requires k <= |items| && options.keys != []
    ensures After(b, options, items + more, k) == After(b, options, items, k)
  {
    hide Step;
    if k > 0 {
      AfterPrefix(b, options, items, more, k - 1);
      assert (items + more)[k - 1] == items[k - 1];
    }
  }

  // ----- What every run keeps -----

  /** The sequences of the record signatures among these items. */
  function SequencesOf(items: seq<Item>): seq<nat> {
    if items == [] then []
    else
      var last := items[|items| - 1];
      var before := SequencesOf(items[..|items| - 1]);
      if last.RecordSignature? then before + [last.sequence] else before
  }

  ghost predicate AllUnreadable(items: seq<Item>) { forall i | 0 <= i < |items| :: items[i].Unreadable? }

  /** The key the last readable item leaves in force. */
  predicate LastSays(s: Scheme, items: seq<Item>, force: Key) {
    match LastReadableIn(items)
    case Unreadable => false
    case KeyRotation(_, _, _, next, _) => next == force
    case RecordSignature(keyId, _, _, _, _) => keyId == KeyId(s, force)
  }

  /** A verification is given one key, and told of none revoked. */
  function Only(key: Key): SignatureOptions { SignatureOptions([key], []) }

  /** The items a sidecar's complete lines hold, beside these lines of the trail, with the first key and the one in force. */
  ghost predicate Holds(s: Scheme, h: Hash, lines: seq<Bytes>, items: seq<Item>, first: Option<Key>, force: Option<Key>) {
    && ItemsWithin(items, |lines|)
    && (match first
        case None => force.None? && AllUnreadable(items)
        case Some(key) =>
          && force.Some? && LastSays(s, items, force.value)
          && var p := After(Beside(s, h, lines), Only(key), items, |items|);
             p.found == [] && p.current == force.value && p.signedAt == SequencesOf(items))
  }

  lemma HoldsLifts(s: Scheme, h: Hash, base: seq<Bytes>, lines: seq<Bytes>, items: seq<Item>,
                   first: Option<Key>, force: Option<Key>)
    requires Extends(base, lines) && Holds(s, h, base, items, first, force)
    ensures Holds(s, h, lines, items, first, force)
  {
    hide After, LastSays, Extends, SequencesOf;
    WithinMore(items, |base|, |lines|, base, lines);
    if first.Some? {
      AfterLifts(s, h, base, lines, Only(first.value), items, |items|);
    }
  }

  lemma WithinMore(items: seq<Item>, m: nat, n: nat, base: seq<Bytes>, lines: seq<Bytes>)
    requires ItemsWithin(items, m) && (m <= n || (m == |base| && n == |lines| && Extends(base, lines)))
    ensures ItemsWithin(items, n)
  {
    hide Damaged;
  }

  lemma AfterOneMore(b: Beside, options: SignatureOptions, items: seq<Item>, item: Item)
    requires options.keys != []
    ensures After(b, options, items + [item], |items| + 1) == Step(b, options, After(b, options, items, |items|), item)
    ensures SequencesOf(items + [item]) ==
            if item.RecordSignature? then SequencesOf(items) + [item.sequence] else SequencesOf(items)
    ensures LastReadableIn(items + [item]) == if item.Unreadable? then LastReadableIn(items) else item
  {
    hide Step;
    AfterPrefix(b, options, items, [item], |items|);
    assert (items + [item])[..|items|] == items;
  }

  /** A line that cannot be read changes nothing. */
  lemma HoldsUnreadable(s: Scheme, h: Hash, lines: seq<Bytes>, items: seq<Item>, first: Option<Key>, force: Option<Key>)
    requires Holds(s, h, lines, items, first, force)
    ensures Holds(s, h, lines, items + [Unreadable], first, force)
  {
    hide After, SequencesOf, LastReadableIn;
    if first.Some? {
      AfterOneMore(Beside(s, h, lines), Only(first.value), items, Unreadable);
    }
  }

  lemma {:induction false} LastPlaceWithin(b: Beside, options: SignatureOptions, items: seq<Item>, k: nat, n: nat)
    requires k <= |items| && options.keys != [] && ItemsWithin(items, n)
    ensures After(b, options, items, k).lastPlace <= 2 * n + 1
  {
    hide RecordFinding, RotationFinding, SoundThrough, TrailThrough;
    if k > 0 {
      LastPlaceWithin(b, options, items, k - 1, n);
      assert ItemWithin(items[k - 1], n);
    }
  }

  lemma {:induction false} AllUnreadableAfter(b: Beside, key: Key, items: seq<Item>, k: nat)
    requires k <= |items| && AllUnreadable(items)
    ensures After(b, Only(key), items, k) == Start(key).(unreadable := k)
    ensures SequencesOf(items[..k]) == []
  {
    if k > 0 {
      AllUnreadableAfter(b, key, items, k - 1);
      assert items[..k][..k - 1] == items[..k - 1];
    } else {
      assert items[..k] == [];
    }
  }

  /** The first key, once a key has written a readable line. */
  function FirstKey(first: Option<Key>, key: Key): Option<Key> { if first.None? then Some(key) else first }

  /** Before a key in force writes one more line, what is read says that nothing is wrong and that it is in force. */
  lemma ReadyFor(s: Scheme, h: Hash, lines: seq<Bytes>, items: seq<Item>, first: Option<Key>, force: Option<Key>,
                 key: Key, n: nat)
    requires Holds(s, h, lines, items, first, force) && (force.None? || force.value == key)
    requires ItemsWithin(items, n)
    ensures var p := After(Beside(s, h, lines), Only(FirstKey(first, key).value), items, |items|);
            p.found == [] && p.current == key && p.signedAt == SequencesOf(items) && p.lastPlace <= 2 * n + 1
  {
    hide After, LastSays, SequencesOf;
    var k0 := FirstKey(first, key).value;
    LastPlaceWithin(Beside(s, h, lines), Only(k0), items, |items|, n);
    if first.None? {
      AllUnreadableAfter(Beside(s, h, lines), k0, items, |items|);
      assert items[..|items|] == items;
    }
  }

  /** A signature of an undamaged chained line past those signed, made with the key in force, counts it signed. */
  lemma HoldsSignature(s: Scheme, h: Hash, lines: seq<Bytes>, items: seq<Item>, first: Option<Key>, force: Option<Key>,
                       key: Key, n: nat)
    requires Complete(s) && Holds(s, h, lines, items, first, force) && (force.None? || force.value == key)
    requires 0 < n <= |lines| && ItemsWithin(items, n - 1)
    requires Chained(lines[n - 1]) && !Damaged(lines, n - 1) && LinkOf(lines[n - 1]).value.sequence == n
    ensures var item := SignatureOf(s, h, key, lines[n - 1]);
            Holds(s, h, lines, items + [item], FirstKey(first, key), Some(key)) && ItemsWithin(items + [item], n)
  {
    hide After, SequencesOf, LastReadableIn, LinkOf, Damaged, DigestOf, KeyId, Sign, Verifies, SoundThrough, RecordMessage;
    var k0 := FirstKey(first, key).value;
    var b, item := Beside(s, h, lines), SignatureOf(s, h, key, lines[n - 1]);
    ReadyFor(s, h, lines, items, first, force, key, n - 1);
    AfterOneMore(b, Only(k0), items, item);
    assert Verifies(s, key, RecordMessage(item.trail, n, item.record), item.signature);
    assert RecordFinding(b, Only(k0), key, item).None?;
  }

  /** In a reading that has come to the trail's end without a finding, the rotation a writer makes there is taken. */
  lemma RotationIsFound(s: Scheme, h: Hash, lines: seq<Bytes>, k0: Key, p: Progress, next: Key)
    requires Complete(s) && Acceptable(s, next) && p.found == [] && p.lastPlace <= 2 * |lines| + 1
    requires lines != [] && TrailThrough(lines, |lines|) != []
    ensures var item := RotationOf(s, p.current, TrailHead(TrailThrough(lines, |lines|), |lines|), next);
            Step(Beside(s, h, lines), Only(k0), p, item) ==
            p.(lastPlace := Place(item), current := next, keyIndex := p.keyIndex + 1, rotations := p.rotations + 1)
  {
    hide TrailThrough, KeyId, Sign, Verifies, RotationMessage, Acceptable, RecordFinding;
    var trail := TrailThrough(lines, |lines|);
    var item := RotationOf(s, p.current, TrailHead(trail, |lines|), next);
    assert Verifies(s, p.current, RotationMessage(trail, |lines|, next), item.signature);
    assert RotationFinding(Beside(s, h, lines), Only(k0), p.current, p.keyIndex, trail, item).None?;
  }

  /** So a sidecar that holds still holds with that rotation appended, under the next key. */
  lemma HoldsRotation(s: Scheme, h: Hash, lines: seq<Bytes>, items: seq<Item>, first: Option<Key>, force: Option<Key>,
                      key: Key, next: Key)
    requires Complete(s) && Acceptable(s, next)
    requires Holds(s, h, lines, items, first, force) && (force.None? || force.value == key)
    requires lines != [] && TrailThrough(lines, |lines|) != []
    ensures var item := RotationOf(s, key, TrailHead(TrailThrough(lines, |lines|), |lines|), next);
            Holds(s, h, lines, items + [item], FirstKey(first, key), Some(next))
  {
    hide After, SequencesOf, LastReadableIn, TrailThrough, KeyId, Sign, Step, RotationMessage, Acceptable, Complete;
    var k0 := FirstKey(first, key).value;
    var b, item := Beside(s, h, lines), RotationOf(s, key, TrailHead(TrailThrough(lines, |lines|), |lines|), next);
    ReadyFor(s, h, lines, items, first, force, key, |lines|);
    AfterOneMore(b, Only(k0), items, item);
    RotationIsFound(s, h, lines, k0, After(b, Only(k0), items, |items|), next);
  }

  // ----- The signatures of a write -----

  /** The line at this place of a write stands in the trail at its own number, and is not damaged. */
  ghost predicate SignableAt(lines: seq<Bytes>, from: nat, written: seq<Bytes>, j: nat)
    requires j < |written| && from + |written| <= |lines|
  {
    Chained(written[j]) ==>
      && lines[from + j] == written[j] && !Damaged(lines, from + j)
      && LinkOf(written[j]).value.sequence == from + j + 1
  }

  /** However many of a write's signatures were written whole, they count those records signed. */
  lemma {:induction false} SignaturesHold(s: Scheme, h: Hash, lines: seq<Bytes>, from: nat, written: seq<Bytes>,
                                          items: seq<Item>, first: Option<Key>, force: Option<Key>, key: Key, k: nat)
    requires Complete(s) && Holds(s, h, lines, items, first, force) && (force.None? || force.value == key)
    requires ItemsWithin(items, from) && from + |written| <= |lines| && k <= |SignaturesOf(s, h, key, written)|
    requires forall j | 0 <= j < |written| :: SignableAt(lines, from, written, j)
    ensures var now := items + SignaturesOf(s, h, key, written)[..k];
            && ItemsWithin(now, from + |written|)
            && Holds(s, h, lines, now, if k == 0 then first else FirstKey(first, key), if k == 0 then force else Some(key))
  {
    hide Complete, Holds, Chained, LinkOf, Damaged, SignatureOf, ItemWithin;
    var all := SignaturesOf(s, h, key, written);
    if written == [] {
      assert items + all[..k] == items;
    } else {
      var front, last := written[..|written| - 1], written[|written| - 1];
      var before := SignaturesOf(s, h, key, front);
      forall j | 0 <= j < |front|
        ensures SignableAt(lines, from, front, j)
      {
        assert SignableAt(lines, from, written, j);
      }
      SignaturesHold(s, h, lines, from, front, items, first, force, key, if k < |before| then k else |before|);
      if k <= |before| {
        assert all[..k] == before[..k];
        WithinMore(items + all[..k], from + |front|, from + |written|, [], []);
      } else {
        assert SignableAt(lines, from, written, |front|);
        assert before[..|before|] == before && all[..k] == before + [SignatureOf(s, h, key, last)];
        var nowFirst := if before == [] then first else FirstKey(first, key);
        var nowForce := if before == [] then force else Some(key);
        HoldsSignature(s, h, lines, items + before, nowFirst, nowForce, key, from + |written|);
        assert items + all[..k] == items + before + [SignatureOf(s, h, key, last)];
      }
    }
  }

  // ----- A write to the sidecar, cut off anywhere -----

  /** How many of these lines a write that was cut off left whole. */
  lemma {:induction false} WholeLines(file: Bytes, lines: seq<Bytes>, cut: nat) returns (k: nat)
    requires Tail(file) == [] && AreLines(lines)
    ensures k <= |lines| && CompleteLines(file + CutOff(Join(lines), cut)) == CompleteLines(file) + lines[..k]
    ensures cut >= |Join(lines)| ==>
              k == |lines| && Tail(file + CutOff(Join(lines), cut)) == []
    ensures k > 0 <==> lines != [] && cut > |lines[0]|
  {
    hide SplitLines, Join;
    if lines == [] {
      EmptyJoin();
      k := 0;
      assert file + CutOff(Join(lines), cut) == file && CompleteLines(file) + lines[..k] == CompleteLines(file);
    } else {
      var front, last := lines[..|lines| - 1], lines[|lines| - 1];
      assert lines == front + [last];
      EmptyJoin();
      CutLast(front, last, cut);
      if cut <= |Join(front)| {
        k := WholeLines(file, front, cut);
        assert lines[..k] == front[..k];
      } else {
        var whole := WholeLines(file, front, |Join(front)|);
        assert CutOff(Join(front), |Join(front)|) == Join(front) && front[..whole] == front;
        var now, rest := file + Join(front), cut - |Join(front)|;
        Regroup(file, Join(front), CutOff(last + ['\n'], rest));
        if rest <= |last| {
          assert CutOff(last + ['\n'], rest) == last[..rest];
          SplitWithMore(now, last[..rest]);
          k := |front|;
          assert lines[..k] == front;
        } else {
          SplitWithMore(now, last);
          assert [] + last == last;
          k := |lines|;
          assert CompleteLines(file) + lines[..k] == CompleteLines(file) + front + [last];
        }
      }
    }
  }

  lemma {:induction false} ParseLinesConcat(a: seq<Bytes>, b: seq<Bytes>)
    ensures ParseLines(a + b) == ParseLines(a) + ParseLines(b)
  {
    hide ParseLine;
    if b == [] {
      assert a + b == a;
    } else {
      ParseLinesConcat(a, b[..|b| - 1]);
      assert (a + b)[..|a + b| - 1] == a + b[..|b| - 1];
      assert ParseLines(a) + ParseLines(b) == ParseLines(a) + ParseLines(b[..|b| - 1]) + [ParseLine(b[|b| - 1])];
    }
  }

  function ItemsIn(sidecar: Bytes): seq<Item> { ParseLines(CompleteLines(sidecar)) }

  /** A write of these lines, cut off there, reaches the newline of the first one. */
  predicate FirstIsWhole(sidecar: Bytes, lines: seq<Bytes>, cut: nat) {
    lines != [] && cut > (if IsTorn(sidecar) then |TORN_LINE_END| else 0) + |lines[0]|
  }

  /** What a write adds to a sidecar: a torn line ended and unreadable, and then as many lines as were written whole. */
  lemma SidecarWritten(s: Scheme, sidecar: Bytes, key: Key, lines: seq<Bytes>, cut: nat)
    returns (ended: bool, k: nat)
    requires AreLines(lines) && IsInForce(s, sidecar, key)
    ensures k <= |lines| && (k > 0 <==> FirstIsWhole(sidecar, lines, cut))
    ensures ItemsIn(sidecar + CutOff(SidecarData(s, sidecar, key, Join(lines)), cut)) ==
            ItemsIn(sidecar) + ((if ended then [Unreadable] else []) + ParseLines(lines[..k]))
  {
    hide SplitLines, Join, ParseLine, IsInForce;
    var data := SidecarData(s, sidecar, key, Join(lines));
    TailAfterNewline(sidecar);
    if !IsTorn(sidecar) {
      ended := false;
      k := WholeLines(sidecar, lines, cut);
      ParseLinesConcat(CompleteLines(sidecar), lines[..k]);
      assert [] + ParseLines(lines[..k]) == ParseLines(lines[..k]);
    } else if cut < 2 {
      ended, k := false, 0;
      SplitWithMore(sidecar, if cut == 0 then [] else ['~']);
      assert CutOff(data, cut) == if cut == 0 then [] else ['~'];
      assert ItemsIn(sidecar) + ([] + ParseLines(lines[..0])) == ItemsIn(sidecar);
    } else {
      ended := true;
      SplitWithMore(sidecar, ['~']);
      assert ['~'] + ['\n'] == TORN_LINE_END;
      var now := sidecar + TORN_LINE_END;
      k := WholeLines(now, lines, cut - 2);
      assert CutOff(data, cut) == TORN_LINE_END + CutOff(Join(lines), cut - 2);
      Regroup(sidecar, TORN_LINE_END, CutOff(Join(lines), cut - 2));
      TornStaysUnreadable(Tail(sidecar));
      TornItems(CompleteLines(sidecar), Tail(sidecar) + ['~'], lines[..k]);
    }
  }

  lemma TornItems(lines: seq<Bytes>, torn: Bytes, more: seq<Bytes>)
    requires ParseLine(torn) == Unreadable
    ensures ParseLines(lines + [torn] + more) == ParseLines(lines) + ([Unreadable] + ParseLines(more))
  {
    hide ParseLine;
    ParseLinesConcat(lines + [torn], more);
    ParseLinesConcat(lines, [torn]);
    assert ParseLines([torn]) == [ParseLine(torn)];
    assert ParseLines(lines) + [Unreadable] + ParseLines(more) == ParseLines(lines) + ([Unreadable] + ParseLines(more));
  }

  lemma ParseLinesPrefix(lines: seq<Bytes>, k: nat)
    requires k <= |lines|
    ensures ParseLines(lines[..k]) == ParseLines(lines)[..k]
  {
    hide ParseLine, ParseLines;
    ParseLinesConcat(lines[..k], lines[k..]);
    assert lines[..k] + lines[k..] == lines;
  }

  lemma {:induction false} ItemLinesRead(items: seq<Item>)
    requires forall item | item in items :: IsItem(item) && !item.Unreadable?
    ensures AreLines(ItemLines(items)) && ParseLines(ItemLines(items)) == items
  {
    hide IsItem, ItemLine, ParseLine;
    if items != [] {
      var front, last := items[..|items| - 1], items[|items| - 1];
      assert IsItem(last);
      ItemLinesRead(front);
      ItemReads(last);
      assert ItemLines(items)[..|items| - 1] == ItemLines(front);
    }
  }

  lemma {:induction false} SignaturesAreItems(s: Scheme, h: Hash, key: Key, lines: seq<Bytes>)
    ensures forall item | item in SignaturesOf(s, h, key, lines) :: IsItem(item) && !item.Unreadable?
  {
    hide IsItem, Chained, SignatureOf;
    if lines != [] {
      SignaturesAreItems(s, h, key, lines[..|lines| - 1]);
      if Chained(lines[|lines| - 1]) {
        SignatureIsItem(s, h, key, lines[|lines| - 1]);
      }
    }
  }

  lemma SignatureIsItem(s: Scheme, h: Hash, key: Key, line: Bytes)
    requires Chained(line)
    ensures IsItem(SignatureOf(s, h, key, line))
  {
    hide ReadObject, DigestOf, Sign, KeyId, RecordMessage, IsIdentity, IsDigest, IsSignature;
    var record: Digest := DigestOf(h, line);
    assert IsDigest(record);
    var item := SignatureOf(s, h, key, line);
    var signature: Signature := Sign(s, key, RecordMessage(item.trail, item.sequence, record));
    assert IsSignature(signature);
    var keyId: Identity := KeyId(s, key);
    assert IsIdentity(keyId);
  }

  // ----- The lines a write signs -----

  /** The lines a signing writer signs: those it appended whole under the lock. */
  ghost function SignedLines(h: Hash, trail: Bytes, action: Action): seq<Bytes> {
    var data := Written(h, trail, action);
    if UnderLock(action) && action.cut >= |data| then CompleteLines(data) else []
  }

  lemma {:induction false} BatchSigns(h: Hash, head: WriterHead, bodies: seq<Members>, j: nat)
    requires IsIdentity(head.trail) && j < |bodies| && forall body | body in bodies :: IsRecordBody(body)
    requires !AnyOversized(BatchLines(h, head, bodies))
    ensures var line := BatchLines(h, head, bodies)[j];
            && !OfDiscontinuityKind(line)
            && (Chained(line) ==> LinkOf(line).value.sequence == head.sequence + j + 1)
  {
    hide IsBody, RecordLine, LinkOf, OfDiscontinuityKind, DamageNamedBy, BindingMalformed, AnyOversized, IsIdentity, NextLink,
         IsLink;
    var front, last := bodies[..|bodies| - 1], bodies[|bodies| - 1];
    var before := BatchLines(h, head, front);
    var link := NextLink(h, head, before);
    FrontWithinBound(before, RecordLine(Some(link), last));
    if j < |front| {
      BatchSigns(h, head, front, j);
    } else {
      assert IsRecordBody(last);
      NextIsLink(h, head, before);
      NextLinkSequence(h, head, before);
      RecordIsRead(Some(link), last);
    }
  }

  lemma NextLinkSequence(h: Hash, head: WriterHead, front: seq<Bytes>)
    ensures NextLink(h, head, front).sequence == head.sequence + |front| + 1
  {
  }

  /** A trail that ends in a newline shields every line it has. */
  lemma Rebase(h: Hash, base: seq<Bytes>, file: Bytes)
    requires Good(h, base, file) && Tail(file) == []
    ensures Good(h, CompleteLines(file), file)
  {
    hide Tidy, CompleteLines, Tail, Excuses, NextExcuses;
  }

  /** What was written whole stands in the trail at its own numbers. */
  ghost predicate WrittenWhole(h: Hash, base: seq<Bytes>, before: Bytes, after: Bytes, written: seq<Bytes>) {
    var from, lines := |CompleteLines(before)|, CompleteLines(after);
    && Good(h, lines, after) && Extends(base, lines) && |base| <= from
    && |lines| == from + |written| && forall j | 0 <= j < |written| :: SignableAt(lines, from, written, j)
  }

  lemma ChainedWhole(h: Hash, base: seq<Bytes>, file: Bytes, head: WriterHead, bodies: seq<Members>)
    requires Good(h, base, file) && Tail(file) == [] && forall body | body in bodies :: IsRecordBody(body)
    requires Follows(h, CompleteLines(file), NextLink(h, head, [])) && head.sequence == |CompleteLines(file)|
    requires IsIdentity(head.trail) && !AnyOversized(BatchLines(h, head, bodies))
    ensures var lines := BatchLines(h, head, bodies);
            && CompleteLines(Join(lines)) == lines && WrittenWhole(h, base, file, file + Join(lines), lines)
  {
    hide SplitLines, Good, Join, IsBody, RecordLine, Follows, AnyOversized, NextLink, BatchLines, Chained, LinkOf,
         OfDiscontinuityKind, IsIdentity, Extends;
    var written := BatchLines(h, head, bodies);
    BatchAreLines(h, head, bodies);
    SplitOfJoin(written, []);
    assert Join(written) + [] == Join(written);
    ChainedWritten(h, base, file, head, bodies, |Join(written)|);
    assert CutOff(Join(written), |Join(written)|) == Join(written);
    var after := file + Join(written);
    var lines, from := CompleteLines(after), |CompleteLines(file)|;
    Rebase(h, base, after);
    GoodExtends(h, base, after);
    BaseWithin(h, base, file);
    forall j | 0 <= j < |written|
      ensures SignableAt(lines, from, written, j)
    {
      BatchSigns(h, head, bodies, j);
      if j + 1 < |written| {
        BatchSigns(h, head, bodies, j + 1);
      }
      PlainNeverDamages(lines, from + j);
    }
  }

  lemma BaseWithin(h: Hash, base: seq<Bytes>, file: Bytes)
    requires Good(h, base, file)
    ensures |base| <= |CompleteLines(file)|
  {
    hide Tidy, TailIsTidy, Excuses, NextExcuses;
  }

  /** A line followed by none, or by one that is no discontinuity, is not damaged. */
  lemma PlainNeverDamages(lines: seq<Bytes>, i: nat)
    requires i < |lines| && (i + 1 < |lines| ==> !OfDiscontinuityKind(lines[i + 1]))
    ensures !Damaged(lines, i)
  {
    hide OfDiscontinuityKind, LinkOf, DamageNamedBy;
  }

  lemma RepairWhole(h: Hash, base: seq<Bytes>, file: Bytes, expected: Option<DamagedTail>, locked: bool,
                    mint: Identity, run: Bytes, at: Bytes, tool: Members)
    requires Good(h, base, file) && AllPlain(run) && AllPlain(at) && IsTool(tool)
    requires RepairOf(h, locked, file, expected, mint, run, at, tool).Ok?
    ensures var data := RepairOf(h, locked, file, expected, mint, run, at, tool).value.data;
            WrittenWhole(h, base, file, file + data, CompleteLines(data))
  {
    hide SplitLines, Join, HeadFor, Oversized, OfDiscontinuityKind, DiscontinuityBody, RecordLine, NextIsTidy, IsBody, Good,
         Tidy, Follows, Damaged, IsDigest, IsIdentity, ValidMembers, HeadBefore, LastTrail, Extends, LinkOf;
    var lines, tail := CompleteLines(file), Tail(file);
    KeptLines(file);
    TidyOf(h, base, file);
    var head := HeadFor(h, Join(lines), mint).value;
    HeadAgrees(h, Join(lines), mint);
    HeadFollows(h, Join(lines), mint);
    FollowedIsLink(h, lines, NextLink(h, head, []));
    var damage := DamageAfter(h, head, tail);
    var line := DiscontinuityLine(head, damage, run, at, tool);
    var link, body := Link(head.trail, damage.line + 1, head.previous), DiscontinuityBody(run, at, tool, damage);
    DiscontinuityReads(run, at, tool, damage);
    RecordReads(Some(link), body);
    RecordIsRead(Some(link), body);
    var data := ['\n'] + (line + ['\n']);
    RepairWritten(h, base, file, expected, locked, mint, run, at, tool, |data|);
    assert CutOff(data, |data|) == data;
    TwoLines(file, line);
    var after := file + data;
    Rebase(h, base, after);
    GoodExtends(h, base, after);
    BaseWithin(h, base, file);
    PlainNeverDamages(CompleteLines(after), |lines| + 1);
    EmptyIsUnchained();
  }

  /** What a repair writes is the end of the line before it, and one line. */
  lemma TwoLines(file: Bytes, line: Bytes)
    requires '\n' !in line
    ensures CompleteLines(['\n'] + (line + ['\n'])) == [[], line]
    ensures SplitLines(file + (['\n'] + (line + ['\n']))) == Split(CompleteLines(file) + [Tail(file), line], [])
  {
    hide SplitLines;
    SplitWithMore(file, []);
    SplitWithMore(file + ['\n'], line);
    SplitWithMore([], []);
    SplitWithMore([] + ['\n'], line);
    NoLines();
    assert [] + ['\n'] == ['\n'] && Tail(file) + [] == Tail(file) && [] + line == line;
    Regroup(file, ['\n'], line + ['\n']);
    assert CompleteLines([]) + [[] + []] == [[]];
    assert [[]] + [line] == [[], line];
  }

  lemma EmptyIsUnchained()
    ensures !Chained([])
  {
  }

  /** A write that was made whole, under the lock, has its lines in the trail at their own numbers. */
  lemma SignedLinesStand(h: Hash, base: seq<Bytes>, trail: Bytes, action: Action)
    requires Good(h, base, trail) && IsAction(action) && SignedLines(h, trail, action) != []
    ensures WrittenWhole(h, base, trail, Exec(h, trail, action), SignedLines(h, trail, action))
  {
    hide Good, Join, HeadFor, IsRecordBody, ValidMembers, RepairOf, UnchainedLines, BatchLines, AnyOversized, Follows,
         WrittenWhole, SplitLines;
    NoLines();
    var data := Written(h, trail, action);
    assert CutOff(data, action.cut) == data;
    match action
    case ChainedAppend(bodies, locked, mint, cut) =>
      var head := HeadFor(h, trail, mint).value;
      HeadNeedsAnEnd(h, trail, mint);
      TidyOf(h, base, trail);
      HeadAgrees(h, trail, mint);
      HeadFollows(h, trail, mint);
      ChainedWhole(h, base, trail, head, bodies);
    case RepairEnd(expected, locked, mint, run, at, tool, cut) =>
      RepairWhole(h, base, trail, expected, locked, mint, run, at, tool);
  }
}
