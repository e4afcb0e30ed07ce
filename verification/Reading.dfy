/** How files are read: forward a slice at a time, and backward a chunk at a time for the last newline. */
module Reading {
  import opened Octets

  /** How much one read takes. */
  const READ_CHUNK: nat := 65536

  /** One read: up to and including a newline, or a chunk with none, or what is left. */
  method ReadSlice(contents: Bytes, offset: nat) returns (piece: Bytes, full: bool, next: nat)
    requires offset <= |contents|
    ensures offset <= next <= |contents| && piece == contents[offset..next]
    ensures forall i | 0 <= i < |piece| - 1 :: piece[i] != '\n'
    ensures full ==> |piece| == READ_CHUNK && piece[|piece| - 1] != '\n'
    ensures !full ==> next == |contents| || (piece != [] && piece[|piece| - 1] == '\n')
  {
    next := offset;
    while next < |contents| && next - offset < READ_CHUNK && contents[next] != '\n'
      invariant offset <= next <= |contents| && next - offset <= READ_CHUNK
      invariant forall i | offset <= i < next :: contents[i] != '\n'
    {
      next := next + 1;
    }
    full := next - offset == READ_CHUNK;
    if !full && next < |contents| {
      next := next + 1;
    }
    piece := contents[offset..next];
  }

  /** No newline stands from the one place up to the other. */
  predicate NoNewline(contents: Bytes, from: nat, to: nat)
    requires to <= |contents|
  {
    forall i | from <= i < to :: contents[i] != '\n'
  }

  /** Looks through one chunk backward: answers where its last newline is followed, or its start. */
  method AfterNewline(contents: Bytes, from: nat, to: nat) returns (start: nat, found: bool)
    requires from <= to <= |contents|
    ensures from <= start <= to && NoNewline(contents, start, to)
    ensures if found then start > from && contents[start - 1] == '\n' else start == from
  {
    start, found := to, false;
    while start > from && !found
      invariant from <= start <= to && NoNewline(contents, start, to)
      invariant found ==> start > from && contents[start - 1] == '\n'
      decreases start, !found
    {
      if contents[start - 1] == '\n' {
        found := true;
      } else {
        start := start - 1;
      }
    }
  }

  /** With no newline from the cursor on, what stands there is the end of the rest after the last newline. */
  lemma TailFrom(contents: Bytes, cursor: nat)
    requires cursor <= |contents| && NoNewline(contents, cursor, |contents|)
    ensures SplitLines(contents) ==
            Split(CompleteLines(contents[..cursor]), Tail(contents[..cursor]) + contents[cursor..])
  {
    hide SplitLines;
    var before, rest := contents[..cursor], contents[cursor..];
    assert contents == before + rest;
    JoinOfSplit(before);
    Regroup(Join(CompleteLines(before)), Tail(before), rest);
    SplitOfJoin(CompleteLines(before), Tail(before) + rest);
  }

  /** With no newline between the cursor and the last byte, which is one, that stretch ends the last line. */
  lemma LastLineFrom(contents: Bytes, cursor: nat)
    requires cursor < |contents| && contents[|contents| - 1] == '\n' && NoNewline(contents, cursor, |contents| - 1)
    ensures SplitLines(contents) ==
            Split(CompleteLines(contents[..cursor]) +
                  [Tail(contents[..cursor]) + contents[cursor..|contents| - 1]], [])
  {
    var front := contents[..|contents| - 1];
    assert front[..cursor] == contents[..cursor] && front[cursor..] == contents[cursor..|contents| - 1];
    TailFrom(front, cursor);
    SplitSnoc(front, '\n');
    assert contents == front + ['\n'];
  }
}
