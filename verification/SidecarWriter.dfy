/**
 What a signing writer appends to the sidecar: signatures of the records it chained, or a rotation to the next
 key, each only while its key is the one in force as the sidecar's own end says.
 */
module SidecarWriter {
  import opened Octets
  import opened Chain
  import opened Reading
  import opened Sidecar
  import opened Signatures
  import opened Writer

  // ----- The last readable line -----

  function LastReadableIn(items: seq<Item>): Item {
    if items == [] then Unreadable
    else if !items[|items| - 1].Unreadable? then items[|items| - 1]
    else LastReadableIn(items[..|items| - 1])
  }

  /** The forward answer: of all complete lines, the last that parses. */
  function LastReadableOf(sidecar: Bytes): Item { LastReadableIn(ParseLines(CompleteLines(sidecar))) }

  lemma LastReadableSnoc(lines: seq<Bytes>, line: Bytes)
    ensures LastReadableIn(ParseLines(lines + [line])) ==
            if ParseLine(line).Unreadable? then LastReadableIn(ParseLines(lines)) else ParseLine(line)
  {
    hide ParseLine;
    assert (lines + [line])[..|lines|] == lines;
    assert ParseLines(lines + [line])[..|lines|] == ParseLines(lines);
  }

  /** Of what stands up to and including a newline, the last line begins after the newline before it. */
  lemma LineBetween(contents: Bytes, start: nat, end: nat)
    requires start <= end < |contents| && contents[end] == '\n' && NoNewline(contents, start, end)
    requires start > 0 ==> contents[start - 1] == '\n'
    ensures LastReadableOf(contents[..end + 1]) ==
            if ParseLine(contents[start..end]).Unreadable? then LastReadableOf(contents[..start])
            else ParseLine(contents[start..end])
  {
    hide SplitLines, ParseLine, ParseLines, LastReadableIn;
    var front := contents[..end + 1];
    assert front[start..|front| - 1] == contents[start..end] && front[..start] == contents[..start];
    LastLineFrom(front, start);
    TailAfterNewline(contents[..start]);
    assert [] + contents[start..end] == contents[start..end];
    LastReadableSnoc(CompleteLines(contents[..start]), contents[start..end]);
  }

  /** Bytes without a newline at the end change no answer. */
  lemma TailIsNoLine(contents: Bytes, start: nat)
    requires start <= |contents| && NoNewline(contents, start, |contents|)
    ensures LastReadableOf(contents) == LastReadableOf(contents[..start])
  {
    hide SplitLines, ParseLines, LastReadableIn;
    TailFrom(contents, start);
  }

  lemma NothingReadable()
    ensures LastReadableOf([]) == Unreadable
  {
  }

  /** The bytes held, and those passed over as too long, end where the line being looked for ends. */
  ghost predicate Looking(contents: Bytes, cursor: nat, pending: Bytes, overlong: bool, tail: bool, end: nat) {
    && cursor + |pending| <= end <= |contents| && pending == contents[cursor..cursor + |pending|]
    && NoNewline(contents, cursor + |pending|, end)
    && (if overlong then end - cursor - |pending| > MAX_SIDECAR_LINE else cursor + |pending| == end)
    && (if tail then end == |contents|
        else end < |contents| && contents[end] == '\n' && LastReadableOf(contents) == LastReadableOf(contents[..end + 1]))
  }

  /** One line found: it decides, or what stands before it does. */
  lemma LineFound(contents: Bytes, cursor: nat, pending: Bytes, overlong: bool, tail: bool, end: nat, start: nat)
    requires Looking(contents, cursor, pending, overlong, tail, end)
    requires start <= |pending| && NoNewline(pending, start, |pending|)
    requires if start > 0 then pending[start - 1] == '\n' else cursor == 0
    ensures !overlong && !tail && !ParseLine(pending[start..]).Unreadable? ==>
              LastReadableOf(contents) == ParseLine(pending[start..])
    ensures overlong || tail || ParseLine(pending[start..]).Unreadable? ==>
              LastReadableOf(contents) == LastReadableOf(contents[..cursor + start])
    ensures start > 0 && (overlong || tail || ParseLine(pending[start..]).Unreadable?) ==>
              Looking(contents, cursor, pending[..start - 1], false, false, cursor + start - 1)
  {
    hide LastReadableOf, ParseLine;
    var from := cursor + start;
    forall i | from <= i < end
      ensures contents[i] != '\n'
    {
      if i < cursor + |pending| {
        assert contents[i] == pending[i - cursor];
      }
    }
    if start > 0 {
      assert contents[from - 1] == pending[start - 1];
    }
    if tail {
      TailIsNoLine(contents, from);
    } else {
      LineBetween(contents, from, end);
      LongLineUnreadable(contents[from..end]);
      if !overlong {
        assert pending[start..] == contents[from..end];
      }
    }
    if start > 0 {
      assert pending[..start - 1] == contents[cursor..from - 1];
    }
  }

  lemma LongLineUnreadable(line: Bytes)
    ensures |line| > MAX_SIDECAR_LINE ==> ParseLine(line).Unreadable?
  {
  }

  /**
   The backward scan: chunks are prepended to what is pending until a newline shows where a line begins. Whatever
   the chunk size, the answer is the last readable item of the forward reading.
   */
  method LastReadableLine(contents: Bytes, chunk: nat) returns (item: Item)
    requires chunk > 0
    ensures item == LastReadableOf(contents)
  {
    hide LastReadableOf, ParseLine, NoNewline, Looking;
    var pending: Bytes, overlong, tail, cursor: nat := [], false, true, |contents|;
    ghost var end: nat := |contents|;
    StartsLooking(contents);
    while true
      invariant cursor <= |contents| && Looking(contents, cursor, pending, overlong, tail, end)
      decreases cursor
    {
      var start, found := AfterNewline(pending, 0, |pending|);
      while found
        invariant Looking(contents, cursor, pending, overlong, tail, end)
        invariant start <= |pending| && NoNewline(pending, start, |pending|)
        invariant if found then start > 0 && pending[start - 1] == '\n' else start == 0
        decreases |pending|
      {
        LineFound(contents, cursor, pending, overlong, tail, end, start);
        if !overlong && !tail {
          item := ParseLine(pending[start..]);
          if !item.Unreadable? {
            return;
          }
        }
        overlong, tail, pending := false, false, pending[..start - 1];
        end := cursor + start - 1;
        start, found := AfterNewline(pending, 0, |pending|);
      }
      if cursor == 0 {
        LineFound(contents, cursor, pending, overlong, tail, end, 0);
        assert pending[0..] == pending && contents[..0] == [];
        NothingReadable();
        if !overlong && !tail {
          item := ParseLine(pending);
          if !item.Unreadable? {
            return;
          }
        }
        return Unreadable;
      }
      if |pending| > MAX_SIDECAR_LINE {
        PassedOver(contents, cursor, pending, overlong, tail, end);
        overlong, pending := true, [];
      }
      var n := if chunk < cursor then chunk else cursor;
      OneMoreChunk(contents, cursor, pending, overlong, tail, end, n);
      pending := contents[cursor - n..cursor] + pending;
      cursor := cursor - n;
    }
  }

  lemma StartsLooking(contents: Bytes)
    ensures Looking(contents, |contents|, [], false, true, |contents|)
  {
  }

  lemma PassedOver(contents: Bytes, cursor: nat, pending: Bytes, overlong: bool, tail: bool, end: nat)
    requires Looking(contents, cursor, pending, overlong, tail, end) && NoNewline(pending, 0, |pending|)
    requires |pending| > MAX_SIDECAR_LINE
    ensures Looking(contents, cursor, [], true, tail, end)
  {
    hide LastReadableOf;
    forall i | cursor <= i < end
      ensures contents[i] != '\n'
    {
      if i < cursor + |pending| {
        assert contents[i] == pending[i - cursor];
      }
    }
  }

  lemma OneMoreChunk(contents: Bytes, cursor: nat, pending: Bytes, overlong: bool, tail: bool, end: nat, n: nat)
    requires Looking(contents, cursor, pending, overlong, tail, end) && n <= cursor
    ensures Looking(contents, cursor - n, contents[cursor - n..cursor] + pending, overlong, tail, end)
  {
    hide LastReadableOf, NoNewline;
  }

  // ----- The key in force -----

  /** Whether this key may write after the last readable item; after none, every key may. */
  predicate IsInForce(s: Scheme, sidecar: Bytes, key: Key) {
    match LastReadableOf(sidecar)
    case Unreadable => true
    case KeyRotation(_, _, _, next, _) => next == key
    case RecordSignature(keyId, _, _, _, _) => keyId == KeyId(s, key)
  }

  predicate IsTorn(sidecar: Bytes) { sidecar != [] && sidecar[|sidecar| - 1] != '\n' }

  method KeyInForce(s: Scheme, sidecar: Bytes, key: Key) returns (inForce: bool, torn: bool)
    ensures inForce == IsInForce(s, sidecar, key) && torn == IsTorn(sidecar)
  {
    hide LastReadableOf, KeyId;
    torn := false;
    if |sidecar| > 0 {
      torn := sidecar[|sidecar| - 1] != '\n';
    }
    var last := LastReadableLine(sidecar, READ_CHUNK);
    if last.Unreadable? {
      inForce := true;
    } else if last.KeyRotation? {
      inForce := last.next == key;
    } else {
      inForce := last.keyId == KeyId(s, key);
    }
  }

  /** What is appended so that these lines are whole: a torn last line is ended first, and stays unreadable. */
  function SidecarData(s: Scheme, sidecar: Bytes, key: Key, lines: Bytes): Bytes {
    if !IsInForce(s, sidecar, key) then [] else if IsTorn(sidecar) then TORN_LINE_END + lines else lines
  }

  /** The bytes appended for a key: none when it is not in force, and a torn line's end ahead of the lines. */
  method AppendSidecar(s: Scheme, sidecar: Bytes, key: Key, lines: Bytes) returns (data: Bytes)
    ensures data == SidecarData(s, sidecar, key, lines)
  {
    hide IsInForce, IsTorn;
    var inForce, torn := KeyInForce(s, sidecar, key);
    if !inForce {
      return [];
    }
    data := lines;
    if torn {
      data := TORN_LINE_END + lines;
    }
  }

  // ----- Signing -----

  /** The signature of one chained line. */
  function SignatureOf(s: Scheme, h: Hash, key: Key, line: Bytes): (item: Item)
    requires Chained(line)
    ensures item.RecordSignature?
  {
    var link, record := LinkOf(line).value, DigestOf(h, line);
    RecordSignature(KeyId(s, key), link.trail, link.sequence, record,
                    Sign(s, key, RecordMessage(link.trail, link.sequence, record)))
  }

  /** The signatures of the chained lines among these. */
  function SignaturesOf(s: Scheme, h: Hash, key: Key, lines: seq<Bytes>): (items: seq<Item>)
    ensures forall item | item in items :: item.RecordSignature?
  {
    if lines == [] then []
    else
      var last := lines[|lines| - 1];
      var before := SignaturesOf(s, h, key, lines[..|lines| - 1]);
      if Chained(last) then before + [SignatureOf(s, h, key, last)] else before
  }

  function ItemLines(items: seq<Item>): (lines: seq<Bytes>)
    requires forall item | item in items :: !item.Unreadable?
    ensures |lines| == |items|
  {
    if items == [] then [] else ItemLines(items[..|items| - 1]) + [ItemLine(items[|items| - 1])]
  }

  /** Signs every chained line among the lines just appended to the trail. */
  method SignLines(s: Scheme, h: Hash, key: Key, appended: Bytes) returns (data: Bytes)
    ensures data == Join(ItemLines(SignaturesOf(s, h, key, CompleteLines(appended))))
  {
    hide ItemLine, LinkOf, CompleteLines, SignatureOf;
    var lines, i := CompleteLines(appended), 0;
    data := [];
    assert lines[..0] == [];
    while i < |lines|
      invariant 0 <= i <= |lines|
      invariant data == Join(ItemLines(SignaturesOf(s, h, key, lines[..i])))
    {
      assert lines[..i + 1][..i] == lines[..i];
      if LinkOf(lines[i]).Some? {
        var item := SignatureOf(s, h, key, lines[i]);
        ItemLinesSnoc(SignaturesOf(s, h, key, lines[..i]), item);
        data := data + ItemLine(item) + ['\n'];
      }
      i := i + 1;
    }
    assert lines[..i] == lines;
  }

  lemma ItemLinesSnoc(items: seq<Item>, item: Item)
    requires !item.Unreadable? && forall i | i in items :: !i.Unreadable?
    ensures Join(ItemLines(items + [item])) == Join(ItemLines(items)) + ItemLine(item) + ['\n']
  {
    hide ItemLine;
    assert (items + [item])[..|items|] == items;
    JoinSnoc(ItemLines(items), ItemLine(item));
  }

  // ----- Rotating -----

  /** What a rotation names: whose trail it is, and how many lines stand before it. */
  datatype TrailHead = TrailHead(trail: Bytes, at: nat)

  datatype RotationRefusal = SameKey | NeedsLock | NoChainedRecord | TrailRefused(why: Refusal)

  datatype RotationHead = RotatesAfter(head: TrailHead) | NotRotated(refusal: RotationRefusal)

  ghost function TrailHeadOf(h: Hash, contents: Bytes): RotationHead {
    if contents == [] then NotRotated(NoChainedRecord)
    else
      match LastLineOf(contents)
      case Refused(why) => NotRotated(TrailRefused(why))
      case Ok(line) =>
        match LinkOf(line)
        case Some(link) => RotatesAfter(TrailHead(link.trail, link.sequence))
        case None =>
          match PrefixOf(h, contents)
          case Refused(why) => NotRotated(TrailRefused(why))
          case Ok(prefix) =>
            if prefix.trail == [] then NotRotated(NoChainedRecord)
            else RotatesAfter(TrailHead(prefix.trail, prefix.lines))
  }

  method ReadTrailHead(h: Hash, contents: Bytes) returns (r: RotationHead)
    ensures r == TrailHeadOf(h, contents)
  {
    hide LinkOf, PrefixOf;
    if contents == [] {
      return NotRotated(NoChainedRecord);
    }
    var last := LastLine(contents, READ_CHUNK);
    if last.Refused? {
      return NotRotated(TrailRefused(last.why));
    }
    var link := LinkOf(last.value);
    if link.Some? {
      return RotatesAfter(TrailHead(link.value.trail, link.value.sequence));
    }
    var prefix := ReadPrefix(h, contents);
    if prefix.Refused? {
      return NotRotated(TrailRefused(prefix.why));
    }
    if prefix.value.trail == [] {
      return NotRotated(NoChainedRecord);
    }
    return RotatesAfter(TrailHead(prefix.value.trail, prefix.value.lines));
  }

  /** The rotation by which a key hands a trail over to the next one. */
  function RotationOf(s: Scheme, key: Key, head: TrailHead, next: Key): (item: Item)
    ensures item.KeyRotation?
  {
    KeyRotation(KeyId(s, key), head.trail, head.at, next, Sign(s, key, RotationMessage(head.trail, head.at, next)))
  }

  /** What a rotation appends to the sidecar. */
  ghost function RotationData(s: Scheme, h: Hash, trail: Bytes, sidecar: Bytes, key: Key, next: Key, locked: bool): Bytes {
    if next == key || !locked || TrailHeadOf(h, trail).NotRotated? then []
    else
      SidecarData(s, sidecar, key, ItemLine(RotationOf(s, key, TrailHeadOf(h, trail).head, next)) + ['\n'])
  }

  /** The bytes of a rotation, empty in each case that refuses one. */
  method Rotate(s: Scheme, h: Hash, trail: Bytes, sidecar: Bytes, key: Key, next: Key, locked: bool)
    returns (data: Bytes)
    ensures data == RotationData(s, h, trail, sidecar, key, next, locked)
  {
    hide TrailHeadOf, SidecarData, ItemLine, RotationOf;
    if next == key || !locked {
      return [];
    }
    var head := ReadTrailHead(h, trail);
    if head.NotRotated? {
      return [];
    }
    data := AppendSidecar(s, sidecar, key, ItemLine(RotationOf(s, key, head.head, next)) + ['\n']);
  }
}
