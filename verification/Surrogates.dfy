/**
 * The two scanners that look for escaped surrogates which are not half of a pair (section 7 of
 * RFC 8259, section 3.2.2.2 of RFC 8785): the carrier's, over a whole document, and the trail's,
 * over one string literal. Both are held against one account of which escapes pair up.
 */
module Surrogates {
  import opened Octets

  // ----- What a \u escape names -----

  predicate IsHexDigit(c: Byte) { '0' <= c <= '9' || 'a' <= c <= 'f' || 'A' <= c <= 'F' }

  function HexDigit(c: Byte): (digit: nat)
    requires IsHexDigit(c)
    ensures digit < 16
  {
    if '0' <= c <= '9' then c as int - '0' as int
    else if 'a' <= c <= 'f' then c as int - 'a' as int + 10
    else c as int - 'A' as int + 10
  }

  /** The code unit the four hex digits at a place spell, if there are four. */
  function QuadAt(data: Bytes, start: nat): Option<nat> {
    if start + 4 <= |data| && forall j | start <= j < start + 4 :: IsHexDigit(data[j]) then
      Some(4096 * HexDigit(data[start]) + 256 * HexDigit(data[start + 1])
           + 16 * HexDigit(data[start + 2]) + HexDigit(data[start + 3]))
    else None
  }

  predicate IsHigh(unit: nat) { 0xD800 <= unit <= 0xDBFF }

  predicate IsLow(unit: nat) { 0xDC00 <= unit <= 0xDFFF }

  /** One \u escape: where its backslash stands and the code unit it names. */
  datatype Escape = Escape(at: nat, unit: nat)

  /**
   * The \u escapes inside the strings of a text from a place on, up to the first escape that is cut
   * off or not four hex digits.
   */
  function Escapes(data: Bytes, at: nat, inString: bool): seq<Escape>
    decreases |data| - at
  {
    if at >= |data| then []
    else if !inString then Escapes(data, at + 1, data[at] == '"')
    else if data[at] != '\\' then Escapes(data, at + 1, data[at] != '"')
    else if at + 1 >= |data| then []
    else if data[at + 1] != 'u' then Escapes(data, at + 2, true)
    else
      match QuadAt(data, at + 2)
      case None => []
      case Some(unit) => [Escape(at, unit)] + Escapes(data, at + 6, true)
  }

  /** One escape follows another with nothing between them. */
  predicate Adjoin(first: Escape, second: Escape) { second.at == first.at + 6 }

  /** A surrogate that is not half of a pair: a high one and the low one right after it. */
  predicate Unpaired(escapes: seq<Escape>, k: nat)
    requires k < |escapes|
  {
    var e := escapes[k];
    if IsHigh(e.unit) then
      !(k + 1 < |escapes| && IsLow(escapes[k + 1].unit) && Adjoin(e, escapes[k + 1]))
    else
      IsLow(e.unit) && !(k > 0 && IsHigh(escapes[k - 1].unit) && Adjoin(escapes[k - 1], e))
  }

  predicate AllPaired(escapes: seq<Escape>) {
    forall k | 0 <= k < |escapes| :: !Unpaired(escapes, k)
  }

  /** The escape at k is the first that is not half of a pair. */
  ghost predicate IsFirstUnpaired(escapes: seq<Escape>, k: nat) {
    k < |escapes| && Unpaired(escapes, k) && forall j | 0 <= j < k :: !Unpaired(escapes, j)
  }

  /** Escapes that pair up among themselves still do with others after them. */
  lemma PairedStays(done: seq<Escape>, rest: seq<Escape>)
    requires AllPaired(done)
    ensures forall k | 0 <= k < |done| :: !Unpaired(done + rest, k)
  {
    forall k | 0 <= k < |done|
      ensures !Unpaired(done + rest, k)
    {
      assert !Unpaired(done, k);
      assert (done + rest)[k] == done[k];
      assert k + 1 < |done| ==> (done + rest)[k + 1] == done[k + 1];
      assert k > 0 ==> (done + rest)[k - 1] == done[k - 1];
    }
  }

  /** Escapes that pair up among themselves leave what comes after them to itself. */
  lemma {:induction false} PairedApart(done: seq<Escape>, rest: seq<Escape>, k: nat)
    requires AllPaired(done) && k < |rest|
    ensures Unpaired(done + rest, |done| + k) <==> Unpaired(rest, k)
  {
    var all, i := done + rest, |done| + k;
    assert all[i] == rest[k];
    assert k + 1 < |rest| ==> all[i + 1] == rest[k + 1];
    if k > 0 {
      assert all[i - 1] == rest[k - 1];
    } else if done != [] {
      assert all[i - 1] == done[|done| - 1];
      assert !Unpaired(done, |done| - 1);
    }
  }

  /** After what pairs up, an unpaired escape is the first one. */
  lemma FirstIsNext(done: seq<Escape>, rest: seq<Escape>)
    requires AllPaired(done) && rest != [] && Unpaired(rest, 0)
    ensures IsFirstUnpaired(done + rest, |done|) && !AllPaired(done + rest)
  {
    PairedStays(done, rest);
    PairedApart(done, rest, 0);
  }

  /** A low surrogate never opens a pair. */
  lemma LowAlone(escapes: seq<Escape>)
    requires escapes != [] && IsLow(escapes[0].unit)
    ensures Unpaired(escapes, 0)
  {
  }

  lemma PairedSplits(done: seq<Escape>, rest: seq<Escape>)
    requires AllPaired(done)
    ensures AllPaired(done + rest) <==> AllPaired(rest)
  {
    PairedStays(done, rest);
    forall k | 0 <= k < |rest|
      ensures Unpaired(done + rest, |done| + k) <==> Unpaired(rest, k)
    {
      PairedApart(done, rest, k);
    }
    if AllPaired(rest) {
      forall i | 0 <= i < |done + rest|
        ensures !Unpaired(done + rest, i)
      {
        if i >= |done| {
          assert !Unpaired(rest, i - |done|);
        }
      }
    }
  }

  /** An escape that is no surrogate joins what is done. */
  lemma PlainJoins(all: seq<Escape>, done: seq<Escape>, rest: seq<Escape>) returns (more: seq<Escape>)
    requires AllPaired(done) && all == done + rest
    requires rest != [] && !IsHigh(rest[0].unit) && !IsLow(rest[0].unit)
    ensures AllPaired(more) && all == more + rest[1..]
  {
    more := done + rest[..1];
    PairedSplits(done, rest[..1]);
    assert all == more + rest[1..];
  }

  /** A pair joins what is done. */
  lemma PairJoins(all: seq<Escape>, done: seq<Escape>, rest: seq<Escape>) returns (more: seq<Escape>)
    requires AllPaired(done) && all == done + rest
    requires |rest| > 1 && IsHigh(rest[0].unit) && IsLow(rest[1].unit) && Adjoin(rest[0], rest[1])
    ensures AllPaired(more) && all == more + rest[2..]
  {
    more := done + rest[..2];
    PairedSplits(done, rest[..2]);
    assert all == more + rest[2..];
  }

  // ----- The carrier's scanner -----

  method HexQuad(data: Bytes, start: nat) returns (value: nat, ok: bool)
    ensures ok <==> QuadAt(data, start).Some?
    ensures ok ==> start + 4 <= |data|
    ensures value == if ok then QuadAt(data, start).value else 0
  {
    if start + 4 > |data| {
      return 0, false;
    }
    value := 0;
    var j := start;
    while j < start + 4
      invariant start <= j <= start + 4
      invariant forall i | start <= i < j :: IsHexDigit(data[i])
      invariant j == start ==> value == 0
      invariant j == start + 1 ==> value == HexDigit(data[start])
      invariant j == start + 2 ==> value == 16 * HexDigit(data[start]) + HexDigit(data[start + 1])
      invariant j == start + 3 ==> value == 256 * HexDigit(data[start]) + 16 * HexDigit(data[start + 1])
                                            + HexDigit(data[start + 2])
      invariant j == start + 4 ==> QuadAt(data, start) == Some(value)
    {
      if !IsHexDigit(data[j]) {
        return 0, false;
      }
      value := value * 16 + HexDigit(data[j]);
      j := j + 1;
    }
    ok := true;
  }

  /**
   * Whether the strings of a text hold an escaped surrogate that is not half of a pair, and where
   * the first one is. Total: a text that is not JSON is read as far as its escapes are readable.
   */
  method UnpairedSurrogateEscape(data: Bytes) returns (at: nat, found: bool)
    ensures found <==> !AllPaired(Escapes(data, 0, false))
    ensures found ==> exists k: nat :: IsFirstUnpaired(Escapes(data, 0, false), k)
                                       && Escapes(data, 0, false)[k].at == at
    ensures !found ==> at == 0
  {
    hide QuadAt, Unpaired;
    ghost var all, done: seq<Escape> := Escapes(data, 0, false), [];
    var index, inString := 0, false;
    while index < |data|
      invariant AllPaired(done)
      invariant all == done + Escapes(data, index, inString)
      decreases |data| - index
    {
      ghost var rest := Escapes(data, index, inString);
      if !inString {
        inString := data[index] == '"';
        index := index + 1;
      } else if data[index] == '"' {
        inString := false;
        index := index + 1;
      } else if data[index] != '\\' {
        index := index + 1;
      } else if index + 1 >= |data| {
        assert all == done;
        return 0, false;
      } else if data[index + 1] != 'u' {
        index := index + 2;
      } else {
        var value, ok := HexQuad(data, index + 2);
        if !ok {
          assert all == done;
          return 0, false;
        }
        if value < 0xD800 || value > 0xDFFF {
          done := PlainJoins(all, done, rest);
          index := index + 6;
        } else if value > 0xDBFF {
          LowAlone(rest);
          FirstIsNext(done, rest);
          return index, true;
        } else {
          var low, isQuad := HexQuad(data, index + 8);
          if !isQuad || data[index + 6] != '\\' || data[index + 7] != 'u' || !IsLow(low) {
            HighAlone(data, index, value);
            FirstIsNext(done, rest);
            return index, true;
          }
          assert rest[1] == Escape(index + 6, low);
          done := PairJoins(all, done, rest);
          index := index + 12;
        }
      }
    }
    assert all == done;
    return 0, false;
  }

  /** A high surrogate with no low one right after it is the first unpaired escape from there on. */
  lemma HighAlone(data: Bytes, at: nat, unit: nat)
    requires at + 1 < |data| && data[at] == '\\' && data[at + 1] == 'u'
    requires QuadAt(data, at + 2) == Some(unit) && IsHigh(unit)
    requires !(QuadAt(data, at + 8).Some? && data[at + 6] == '\\' && data[at + 7] == 'u'
               && IsLow(QuadAt(data, at + 8).value))
    ensures Escapes(data, at, true) != [] && Unpaired(Escapes(data, at, true), 0)
  {
    var next := Escapes(data, at + 6, true);
    FirstPlace(data, at + 6, true);
    if next != [] && next[0].at == at + 6 {
      FirstHere(data, at + 6, true);
    }
  }

  /** Escapes are read forward. */
  lemma {:induction false} FirstPlace(data: Bytes, at: nat, inString: bool)
    ensures var es := Escapes(data, at, inString); es != [] ==> at <= es[0].at
    decreases |data| - at
  {
    if at >= |data| {
    } else if !inString {
      FirstPlace(data, at + 1, data[at] == '"');
    } else if data[at] != '\\' {
      FirstPlace(data, at + 1, data[at] != '"');
    } else if at + 1 < |data| && data[at + 1] != 'u' {
      FirstPlace(data, at + 2, true);
    }
  }

  /** An escape said to stand at a place does stand there. */
  lemma FirstHere(data: Bytes, at: nat, inString: bool)
    requires Escapes(data, at, inString) != [] && Escapes(data, at, inString)[0].at == at
    ensures inString && at + 1 < |data| && data[at] == '\\' && data[at + 1] == 'u'
    ensures QuadAt(data, at + 2) == Some(Escapes(data, at, inString)[0].unit)
  {
    if !inString {
      FirstPlace(data, at + 1, data[at] == '"');
    } else if data[at] != '\\' {
      FirstPlace(data, at + 1, data[at] != '"');
    } else if at + 1 < |data| && data[at + 1] != 'u' {
      FirstPlace(data, at + 2, true);
    }
  }

  // ----- The trail's scanner -----

  /** Bytes encode Unicode scalar values (table 3-7 of the Unicode Standard). */
  predicate ValidUtf8(raw: Bytes) {
    raw == []
    || (raw[0] < 0x80 as char && ValidUtf8(raw[1..]))
    || (|raw| >= 2 && Within(raw[0], 0xC2, 0xDF) && Within(raw[1], 0x80, 0xBF) && ValidUtf8(raw[2..]))
    || (|raw| >= 3 && Within(raw[2], 0x80, 0xBF) && ValidUtf8(raw[3..])
        && match raw[0] as int
           case 0xE0 => Within(raw[1], 0xA0, 0xBF)
           case 0xED => Within(raw[1], 0x80, 0x9F)
           case _ => Within(raw[0], 0xE1, 0xEF) && Within(raw[1], 0x80, 0xBF))
    || (|raw| >= 4 && Within(raw[2], 0x80, 0xBF) && Within(raw[3], 0x80, 0xBF) && ValidUtf8(raw[4..])
        && match raw[0] as int
           case 0xF0 => Within(raw[1], 0x90, 0xBF)
           case 0xF4 => Within(raw[1], 0x80, 0x8F)
           case _ => Within(raw[0], 0xF1, 0xF3) && Within(raw[1], 0x80, 0xBF))
  }

  predicate Within(c: Byte, low: nat, high: nat) { low <= c as int <= high }

  /** The bytes from a place on are the rest of a string literal: its one bare quote is the last byte. */
  predicate EndsLiteral(raw: Bytes, at: nat)
    decreases |raw| - at
  {
    at < |raw|
    && if raw[at] == '"' then at + 1 == |raw|
       else if raw[at] != '\\' then EndsLiteral(raw, at + 1)
       else if at + 1 < |raw| && raw[at + 1] != 'u' then EndsLiteral(raw, at + 2)
       else QuadAt(raw, at + 2).Some? && EndsLiteral(raw, at + 6)
  }

  /** A JSON string literal as a decoder hands it on, quotes and all. */
  predicate IsLiteral(raw: Bytes) {
    |raw| >= 2 && raw[0] == '"' && EndsLiteral(raw, 1)
  }

  /** How the trail's scanner judges the bytes from a place on, whatever they are. */
  predicate Accepted(raw: Bytes, at: nat)
    decreases |raw| - at
  {
    if at + 1 >= |raw| then true
    else if raw[at] != '\\' then Accepted(raw, at + 1)
    else if raw[at + 1] != 'u' then Accepted(raw, at + 2)
    else
      match QuadAt(raw, at + 2)
      case None => false
      case Some(unit) =>
        if IsHigh(unit) then
          at + 7 < |raw| && raw[at + 6] == '\\' && raw[at + 7] == 'u' && QuadAt(raw, at + 8).Some?
          && IsLow(QuadAt(raw, at + 8).value) && Accepted(raw, at + 12)
        else !IsLow(unit) && Accepted(raw, at + 6)
  }

  /** Within a literal, what the trail's scanner accepts from a place on is what pairs up from there. */
  lemma {:induction false} AgreesFrom(raw: Bytes, at: nat)
    requires EndsLiteral(raw, at)
    ensures Accepted(raw, at) <==> AllPaired(Escapes(raw, at, true))
    decreases |raw| - at
  {
    var rest := Escapes(raw, at, true);
    if raw[at] == '"' {
      assert rest == Escapes(raw, at + 1, false);
    } else if raw[at] != '\\' {
      AgreesFrom(raw, at + 1);
    } else if raw[at + 1] != 'u' {
      AgreesFrom(raw, at + 2);
    } else {
      var unit := QuadAt(raw, at + 2).value;
      var next := Escapes(raw, at + 6, true);
      assert EndsLiteral(raw, at + 6);
      if IsHigh(unit) {
        if QuadAt(raw, at + 8).Some? && raw[at + 6] == '\\' && raw[at + 7] == 'u'
           && IsLow(QuadAt(raw, at + 8).value) {
          AgreesFrom(raw, at + 12);
          var pair := [Escape(at, unit), Escape(at + 6, QuadAt(raw, at + 8).value)];
          assert rest == pair + Escapes(raw, at + 12, true);
          PairedSplits(pair, Escapes(raw, at + 12, true));
        } else {
          HighAlone(raw, at, unit);
        }
      } else if IsLow(unit) {
        assert Unpaired(rest, 0);
      } else {
        AgreesFrom(raw, at + 6);
        PairedSplits([Escape(at, unit)], next);
      }
    }
  }

  /** On every literal the two scanners judge the escapes alike. */
  lemma ScannersAgree(raw: Bytes)
    requires IsLiteral(raw)
    ensures Accepted(raw, 1) <==> AllPaired(Escapes(raw, 0, false))
  {
    AgreesFrom(raw, 1);
  }

  /** The trail's scanner over one literal, in a forward loop. */
  method WellFormedJSONString(raw: Bytes) returns (ok: bool)
    ensures ok <==> ValidUtf8(raw) && Accepted(raw, 1)
    ensures IsLiteral(raw) ==> (ok <==> ValidUtf8(raw) && AllPaired(Escapes(raw, 0, false)))
  {
    if IsLiteral(raw) {
      ScannersAgree(raw);
    }
    if !ValidUtf8(raw) {
      return false;
    }
    var i := 1;
    while i + 1 < |raw|
      invariant 1 <= i
      invariant Accepted(raw, 1) <==> Accepted(raw, i)
      decreases |raw| - i
    {
      if raw[i] != '\\' {
        i := i + 1;
      } else if raw[i + 1] != 'u' {
        i := i + 2;
      } else {
        var r, isQuad := HexQuad(raw, i + 2);
        if !isQuad || IsLow(r) {
          return false;
        }
        if IsHigh(r) {
          if i + 7 >= |raw| || raw[i + 6] != '\\' || raw[i + 7] != 'u' {
            return false;
          }
          var low, isLowQuad := HexQuad(raw, i + 8);
          if !isLowQuad || !IsLow(low) {
            return false;
          }
          i := i + 12;
        } else {
          i := i + 6;
        }
      }
    }
    ok := true;
  }
}
