/** Bytes, and the lines a newline ends: what every file of the audit directory is made of. */
module Octets {

  datatype Option<+T> = None | Some(value: T)

  /** One byte, written as the character with its code so that literals stay readable. */
  type Byte = c: char | c as int < 256

  type Bytes = seq<Byte>

  /** No more than so many of these. */
  function First<T>(n: nat, items: seq<T>): seq<T> { if |items| <= n then items else items[..n] }

  /** The bytes of a file holding these complete lines, each ended by a newline. */
  function Join(lines: seq<Bytes>): Bytes {
    if lines == [] then []
    else Join(lines[..|lines| - 1]) + lines[|lines| - 1] + ['\n']
  }

  /** No element holds a newline, so each can be a line of its own. */
  ghost predicate AreLines(lines: seq<Bytes>) {
    forall i | 0 <= i < |lines| :: '\n' !in lines[i]
  }

  /** A file as its complete lines and the bytes after its last newline. */
  datatype Split = Split(lines: seq<Bytes>, tail: Bytes)

  function SplitLines(file: Bytes): Split {
    if file == [] then Split([], [])
    else
      var before := SplitLines(file[..|file| - 1]);
      var last := file[|file| - 1];
      if last == '\n' then Split(before.lines + [before.tail], [])
      else Split(before.lines, before.tail + [last])
  }

  function CompleteLines(file: Bytes): seq<Bytes> { SplitLines(file).lines }

  function Tail(file: Bytes): Bytes { SplitLines(file).tail }

  lemma Regroup(a: Bytes, b: Bytes, c: Bytes)
    ensures a + b + c == a + (b + c)
  {
  }

  /** Nothing of a file is lost by splitting it. */
  lemma {:induction false} JoinOfSplit(file: Bytes)
    ensures file == Join(CompleteLines(file)) + Tail(file)
    ensures AreLines(CompleteLines(file)) && '\n' !in Tail(file)
  {
    if file != [] {
      var front, last := file[..|file| - 1], file[|file| - 1];
      JoinOfSplit(front);
      assert file == front + [last];
      Regroup(Join(CompleteLines(front)), Tail(front), [last]);
      if last == '\n' {
        JoinSnoc(CompleteLines(front), Tail(front));
      }
    }
  }

  lemma EmptyJoin()
    ensures Join([]) == []
  {
  }

  lemma JoinSnoc(lines: seq<Bytes>, line: Bytes)
    ensures Join(lines + [line]) == Join(lines) + line + ['\n']
  {
    assert (lines + [line])[..|lines|] == lines;
  }

  lemma SplitSnoc(file: Bytes, last: Byte)
    ensures var before := SplitLines(file);
            SplitLines(file + [last]) ==
              if last == '\n' then Split(before.lines + [before.tail], [])
              else Split(before.lines, before.tail + [last])
  {
    assert (file + [last])[..|file|] == file;
  }

  /** There is only one way to read bytes as complete lines and a rest. */
  lemma {:induction false} SplitOfJoin(lines: seq<Bytes>, tail: Bytes)
    requires AreLines(lines) && '\n' !in tail
    ensures SplitLines(Join(lines) + tail) == Split(lines, tail)
    decreases |lines|, |tail|
  {
    if tail != [] {
      hide Join;
      var front, last := tail[..|tail| - 1], tail[|tail| - 1];
      SplitOfJoin(lines, front);
      SplitSnoc(Join(lines) + front, last);
      assert tail == front + [last];
      Regroup(Join(lines), front, [last]);
    } else if lines != [] {
      var front, last := lines[..|lines| - 1], lines[|lines| - 1];
      SplitOfJoin(front, last);
      SplitSnoc(Join(front) + last, '\n');
      assert front + [last] == lines;
      assert Join(lines) + tail == Join(lines);
    }
  }

  /** Two lists of lines with the same bytes are the same list. */
  lemma JoinInjective(a: seq<Bytes>, b: seq<Bytes>)
    requires AreLines(a) && AreLines(b) && Join(a) == Join(b)
    ensures a == b
  {
    SplitOfJoin(a, []);
    SplitOfJoin(b, []);
    assert Join(a) + [] == Join(a);
  }

  /** What is appended to a file continues its last line. */
  lemma {:induction false} SplitAppend(file: Bytes, more: Bytes)
    ensures var rest := SplitLines(Tail(file) + more);
            SplitLines(file + more) == Split(CompleteLines(file) + rest.lines, rest.tail)
  {
    hide SplitLines;
    if more == [] {
      JoinOfSplit(file);
      SplitOfJoin([], Tail(file));
      assert file + more == file && Tail(file) + more == Tail(file);
      assert Join([]) + Tail(file) == Tail(file);
    } else {
      hide Join;
      var front, last := more[..|more| - 1], more[|more| - 1];
      SplitAppend(file, front);
      assert more == front + [last];
      Regroup(file, front, [last]);
      Regroup(Tail(file), front, [last]);
      SplitSnoc(file + front, last);
      SplitSnoc(Tail(file) + front, last);
    }
  }

  /** A file ends in a newline, or is empty, exactly when nothing follows its complete lines. */
  lemma TailAfterNewline(file: Bytes)
    ensures file == [] || file[|file| - 1] == '\n' <==> Tail(file) == []
  {
  }

  lemma JoinEmptyOrEnds(lines: seq<Bytes>)
    ensures lines == [] <==> Join(lines) == []
    ensures lines != [] ==> Join(lines)[|Join(lines)| - 1] == '\n'
  {
  }

  lemma {:induction false} JoinConcat(a: seq<Bytes>, b: seq<Bytes>)
    ensures Join(a + b) == Join(a) + Join(b)
  {
    if b == [] {
      assert a + b == a;
    } else {
      var front, last := b[..|b| - 1], b[|b| - 1];
      JoinConcat(a, front);
      assert b == front + [last];
      assert a + b == (a + front) + [last];
      JoinSnoc(a + front, last);
      JoinSnoc(front, last);
      Regroup(Join(a), Join(front), last);
      Regroup(Join(a), Join(front) + last, ['\n']);
    }
  }

  /** A set that has one place more, or just the same ones. */
  lemma OnePlaceMore(before: set<nat>, now: set<nat>, place: nat, more: bool)
    requires place !in before && forall i :: i in now <==> i in before || (more && i == place)
    ensures |now| == |before| + (if more then 1 else 0)
  {
    assert now == before + if more then {place} else {};
  }

  // ----- Bytes cut short, with others after the cut -----

  lemma CutHead(c: Byte, rest: Bytes, k: nat, more: Bytes)
    requires 0 < k <= 1 + |rest|
    ensures var s := ([c] + rest)[..k] + more;
            s != [] && s[0] == c && s[1..] == rest[..k - 1] + more
  {
  }

  lemma CutWithin(a: Bytes, b: Bytes, k: nat)
    requires k <= |a|
    ensures (a + b)[..k] == a[..k]
  {
  }

  lemma CutBeyond(a: Bytes, b: Bytes, k: nat, more: Bytes)
    requires |a| <= k <= |a| + |b|
    ensures (a + b)[..k] + more == a + (b[..k - |a|] + more)
  {
  }

  lemma HeadAndRest(c: Byte, rest: Bytes, more: Bytes)
    ensures var s := [c] + rest + more;
            s[0] == c && s[1..] == rest + more
  {
  }
}
