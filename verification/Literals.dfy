/**
 String literals spelled out: from plain characters, short escapes and code units in hexadecimal, by tables of digits.
 What the scanners say of a literal is what it was spelled from; and what they take for UTF-8 is what encodes scalars.
 */
module Literals {
  import opened Octets
  import opened Surrogates

  // ----- Digits -----

  const LOWER: string := "0123456789abcdef"
  const UPPER: string := "0123456789ABCDEF"

  predicate Spells(c: char, digit: nat) { digit < 16 && (c == LOWER[digit] || c == UPPER[digit]) }

  /** Four digits, in any mix of case, that spell a code unit. */
  predicate SpellsUnit(quad: Bytes, unit: nat) {
    && |quad| == 4 && unit < 65536
    && Spells(quad[0], unit / 16 / 16 / 16) && Spells(quad[1], unit / 16 / 16 % 16)
    && Spells(quad[2], unit / 16 % 16) && Spells(quad[3], unit % 16)
  }

  lemma DigitIs(c: Byte, digit: nat)
    ensures Spells(c, digit) <==> IsHexDigit(c) && HexDigit(c) == digit
  {
    if digit < 16 {
      assert LOWER[digit] as int == if digit < 10 then '0' as int + digit else 'a' as int + (digit - 10);
      assert UPPER[digit] as int == if digit < 10 then '0' as int + digit else 'A' as int + (digit - 10);
    }
  }

  lemma LastDigit(n: nat, front: nat, digit: nat)
    requires digit < 16
    ensures n == 16 * front + digit <==> n / 16 == front && n % 16 == digit
  {
  }

  lemma UnitDigits(a: nat, b: nat, c: nat, d: nat, unit: nat)
    requires a < 16 && b < 16 && c < 16 && d < 16
    ensures unit == 4096 * a + 256 * b + 16 * c + d <==>
            unit / 16 / 16 / 16 == a && unit / 16 / 16 % 16 == b && unit / 16 % 16 == c && unit % 16 == d
  {
    LastDigit(unit, 16 * (16 * a + b) + c, d);
    LastDigit(unit / 16, 16 * a + b, c);
    LastDigit(unit / 16 / 16, a, b);
  }

  /** Every code unit reads back from its four digits, however they are cased, and from no others. */
  lemma UnitIs(data: Bytes, start: nat, unit: nat)
    ensures QuadAt(data, start) == Some(unit) <==>
            start + 4 <= |data| && SpellsUnit(data[start..start + 4], unit)
  {
    hide Spells, IsHexDigit, HexDigit;
    if start + 4 <= |data| {
      var quad := data[start..start + 4];
      assert quad[0] == data[start] && quad[1] == data[start + 1] && quad[2] == data[start + 2] && quad[3] == data[start + 3];
      DigitIs(quad[0], unit / 16 / 16 / 16);
      DigitIs(quad[1], unit / 16 / 16 % 16);
      DigitIs(quad[2], unit / 16 % 16);
      DigitIs(quad[3], unit % 16);
      if IsHexDigit(quad[0]) && IsHexDigit(quad[1]) && IsHexDigit(quad[2]) && IsHexDigit(quad[3]) {
        UnitDigits(HexDigit(quad[0]), HexDigit(quad[1]), HexDigit(quad[2]), HexDigit(quad[3]), unit);
        assert forall j | start <= j < start + 4 :: IsHexDigit(data[j]);
      }
    }
  }

  // ----- Pieces -----

  /** A part of a literal: a character as itself, a backslash and one character, or an escaped code unit. */
  datatype Piece = Plain(c: Byte) | Short(c: Byte) | Unit(quad: Bytes, unit: nat)

  predicate IsPiece(piece: Piece) {
    match piece
    case Plain(c) => c != '"' && c != '\\'
    case Short(c) => c != 'u'
    case Unit(quad, unit) => SpellsUnit(quad, unit)
  }

  predicate ArePieces(pieces: seq<Piece>) { forall i | 0 <= i < |pieces| :: IsPiece(pieces[i]) }

  function Spelling(piece: Piece): (text: Bytes)
    ensures text != []
  {
    match piece
    case Plain(c) => [c]
    case Short(c) => ['\\', c]
    case Unit(quad, _) => ['\\', 'u'] + quad
  }

  function SpellAll(pieces: seq<Piece>): Bytes {
    if pieces == [] then [] else Spelling(pieces[0]) + SpellAll(pieces[1..])
  }

  function LiteralOf(pieces: seq<Piece>): Bytes { ['"'] + SpellAll(pieces) + ['"'] }

  predicate IsHighPiece(piece: Piece) { piece.Unit? && 0xD800 <= piece.unit < 0xDC00 }

  predicate IsLowPiece(piece: Piece) { piece.Unit? && 0xDC00 <= piece.unit < 0xE000 }

  /** A surrogate that no piece next to it makes a pair with. */
  predicate Lone(pieces: seq<Piece>, k: nat)
    requires k < |pieces|
  {
    || (IsHighPiece(pieces[k]) && !(k + 1 < |pieces| && IsLowPiece(pieces[k + 1])))
    || (IsLowPiece(pieces[k]) && !(k > 0 && IsHighPiece(pieces[k - 1])))
  }

  /** The escapes of these pieces, the first of which stands at this place. */
  function EscapesOf(pieces: seq<Piece>, at: nat): seq<Escape> {
    if pieces == [] then []
    else
      (if pieces[0].Unit? then [Escape(at, pieces[0].unit)] else [])
      + EscapesOf(pieces[1..], at + |Spelling(pieces[0])|)
  }

  /** Reading on in a string, over one piece. */
  lemma OnePieceOn(before: Bytes, piece: Piece, after: Bytes)
    requires IsPiece(piece)
    ensures var data, at, next := before + Spelling(piece) + after, |before|, |before| + |Spelling(piece)|;
            && Escapes(data, at, true) == (if piece.Unit? then [Escape(at, piece.unit)] else []) + Escapes(data, next, true)
            && (EndsLiteral(data, at) <==> EndsLiteral(data, next))
  {
    var data, at := before + Spelling(piece) + after, |before|;
    match piece
    case Plain(c) =>
      assert data[at] == c;
    case Short(c) =>
      assert data[at] == '\\' && data[at + 1] == c;
    case Unit(quad, unit) =>
      assert data[at] == '\\' && data[at + 1] == 'u' && data[at + 2..at + 6] == quad;
      UnitIs(data, at + 2, unit);
  }

  lemma {:induction false} PiecesOn(before: Bytes, pieces: seq<Piece>, after: Bytes)
    requires ArePieces(pieces)
    ensures var data, end := before + SpellAll(pieces) + after, |before| + |SpellAll(pieces)|;
            && Escapes(data, |before|, true) == EscapesOf(pieces, |before|) + Escapes(data, end, true)
            && (EndsLiteral(data, |before|) <==> EndsLiteral(data, end))
    decreases |pieces|
  {
    hide Escapes, EndsLiteral, Spelling, IsPiece;
    if pieces != [] {
      var first, rest := Spelling(pieces[0]), SpellAll(pieces[1..]);
      assert before + SpellAll(pieces) + after == before + first + (rest + after);
      assert before + SpellAll(pieces) + after == (before + first) + rest + after;
      OnePieceOn(before, pieces[0], rest + after);
      PiecesOn(before + first, pieces[1..], after);
    }
  }

  /** A literal spelled from pieces is one, and its escapes are theirs. */
  lemma LiteralReads(pieces: seq<Piece>)
    requires ArePieces(pieces)
    ensures IsLiteral(LiteralOf(pieces)) && Escapes(LiteralOf(pieces), 0, false) == EscapesOf(pieces, 1)
  {
    hide ArePieces;
    var data, end := LiteralOf(pieces), 1 + |SpellAll(pieces)|;
    PiecesOn(['"'], pieces, ['"']);
    assert data[end] == '"' && end + 1 == |data|;
    assert Escapes(data, end, true) == [] && EndsLiteral(data, end);
    assert EscapesOf(pieces, 1) + [] == EscapesOf(pieces, 1);
  }

  // ----- Lone surrogates -----

  /** Each escape stands within its pieces. */
  lemma {:induction false} EscapesStand(pieces: seq<Piece>, at: nat, i: nat)
    requires ArePieces(pieces) && i < |EscapesOf(pieces, at)|
    ensures at <= EscapesOf(pieces, at)[i].at && EscapesOf(pieces, at)[i].at + 6 <= at + |SpellAll(pieces)|
  {
    var first := pieces[0];
    assert IsPiece(first);
    var own := if first.Unit? then 1 else 0;
    if i >= own {
      EscapesStand(pieces[1..], at + |Spelling(first)|, i - own);
    }
  }

  lemma NoPieces(at: nat)
    ensures EscapesOf([], at) == [] && SpellAll([]) == []
  {
  }

  lemma AtFirstPiece(pieces: seq<Piece>, at: nat)
    requires pieces != []
    ensures EscapesOf(pieces, at) ==
            (if pieces[0].Unit? then [Escape(at, pieces[0].unit)] else [])
            + EscapesOf(pieces[1..], at + |Spelling(pieces[0])|)
    ensures |SpellAll(pieces)| == |Spelling(pieces[0])| + |SpellAll(pieces[1..])|
  {
    hide Spelling;
  }

  lemma FirstOfBoth(a: seq<Piece>, b: seq<Piece>)
    requires a != []
    ensures (a + b)[0] == a[0] && (a + b)[1..] == a[1..] + b
  {
  }

  lemma OwnFirst(own: seq<Escape>, mine: seq<Escape>, others: seq<Escape>)
    ensures own + (mine + others) == own + mine + others
  {
  }

  lemma {:induction false} EscapesConcat(a: seq<Piece>, b: seq<Piece>, at: nat)
    ensures EscapesOf(a + b, at) == EscapesOf(a, at) + EscapesOf(b, at + |SpellAll(a)|)
    ensures |SpellAll(a + b)| == |SpellAll(a)| + |SpellAll(b)|
  {
    hide Spelling, EscapesOf, SpellAll;
    if a == [] {
      NoPieces(at);
      assert a + b == b;
      assert [] + EscapesOf(b, at) == EscapesOf(b, at);
    } else {
      AtFirstPiece(a, at);
      AtFirstPiece(a + b, at);
      var own, next := if a[0].Unit? then [Escape(at, a[0].unit)] else [], at + |Spelling(a[0])|;
      EscapesConcat(a[1..], b, next);
      FirstOfBoth(a, b);
      OwnFirst(own, EscapesOf(a[1..], next), EscapesOf(b, next + |SpellAll(a[1..])|));
    }
  }

  /** How many escapes stand before this piece, and where it stands itself. */
  function EscapesBefore(pieces: seq<Piece>, at: nat, k: nat): nat
    requires k <= |pieces|
  {
    |EscapesOf(pieces[..k], at)|
  }

  function PlaceOf(pieces: seq<Piece>, at: nat, k: nat): nat
    requires k <= |pieces|
  {
    at + |SpellAll(pieces[..k])|
  }

  /** The next piece's place and count follow from this one's. */
  lemma PieceMoves(pieces: seq<Piece>, at: nat, k: nat)
    requires k < |pieces|
    ensures PlaceOf(pieces, at, k + 1) == PlaceOf(pieces, at, k) + |Spelling(pieces[k])|
    ensures EscapesBefore(pieces, at, k + 1) == EscapesBefore(pieces, at, k) + (if pieces[k].Unit? then 1 else 0)
    ensures var all, rest := EscapesOf(pieces, at), EscapesOf(pieces[k..], PlaceOf(pieces, at, k));
            all == EscapesOf(pieces[..k], at) + rest
    ensures pieces[k].Unit? ==>
              && EscapesBefore(pieces, at, k) < |EscapesOf(pieces, at)|
              && EscapesOf(pieces, at)[EscapesBefore(pieces, at, k)] == Escape(PlaceOf(pieces, at, k), pieces[k].unit)
  {
    hide Spelling, EscapesOf, SpellAll;
    assert pieces[..k + 1] == pieces[..k] + [pieces[k]];
    EscapesConcat(pieces[..k], [pieces[k]], at);
    EscapesConcat(pieces[..k], pieces[k..], at);
    assert pieces == pieces[..k] + pieces[k..];
    FirstPiece([pieces[k]], PlaceOf(pieces, at, k));
    FirstPiece(pieces[k..], PlaceOf(pieces, at, k));
  }

  lemma FirstPiece(pieces: seq<Piece>, at: nat)
    requires pieces != []
    ensures |pieces| == 1 ==> |EscapesOf(pieces, at)| == (if pieces[0].Unit? then 1 else 0)
    ensures |pieces| == 1 ==> |SpellAll(pieces)| == |Spelling(pieces[0])|
    ensures pieces[0].Unit? ==> |EscapesOf(pieces, at)| > 0 && EscapesOf(pieces, at)[0] == Escape(at, pieces[0].unit)
  {
    hide Spelling;
    if |pieces| == 1 {
      assert pieces[1..] == [];
      assert SpellAll(pieces[1..]) == [] && EscapesOf(pieces[1..], at + |Spelling(pieces[0])|) == [];
    }
  }

  /** The escape after a unit adjoins it exactly when the next piece is a unit. */
  lemma NextAdjoins(pieces: seq<Piece>, at: nat, k: nat)
    requires ArePieces(pieces) && k < |pieces| && pieces[k].Unit?
    ensures var all, j := EscapesOf(pieces, at), EscapesBefore(pieces, at, k);
            && j < |all|
            && (j + 1 < |all| && Adjoin(all[j], all[j + 1]) <==> k + 1 < |pieces| && pieces[k + 1].Unit?)
            && (k + 1 < |pieces| && pieces[k + 1].Unit? ==> all[j + 1].unit == pieces[k + 1].unit)
  {
    hide Spelling, EscapesOf, EscapesBefore, PlaceOf;
    var all, j := EscapesOf(pieces, at), EscapesBefore(pieces, at, k);
    PieceMoves(pieces, at, k);
    UnitIsSix(pieces, k);
    if k + 1 < |pieces| {
      PieceMoves(pieces, at, k + 1);
      if !pieces[k + 1].Unit? && j + 1 < |all| {
        EscapeAfter(pieces, at, k + 2, j + 1);
      }
    } else {
      EscapesEnd(pieces, at);
    }
  }

  lemma UnitIsSix(pieces: seq<Piece>, k: nat)
    requires ArePieces(pieces) && k < |pieces|
    ensures pieces[k].Unit? ==> |Spelling(pieces[k])| == 6
  {
    assert IsPiece(pieces[k]);
  }

  lemma EscapesEnd(pieces: seq<Piece>, at: nat)
    ensures EscapesBefore(pieces, at, |pieces|) == |EscapesOf(pieces, at)|
  {
    assert pieces[..|pieces|] == pieces;
  }

  /** An escape past those before a piece stands at that piece or after it, one among them ends before it. */
  lemma EscapeAfter(pieces: seq<Piece>, at: nat, k: nat, j: nat)
    requires ArePieces(pieces) && k <= |pieces| && j < |EscapesOf(pieces, at)|
    ensures j >= EscapesBefore(pieces, at, k) ==> EscapesOf(pieces, at)[j].at >= PlaceOf(pieces, at, k)
    ensures j < EscapesBefore(pieces, at, k) ==> EscapesOf(pieces, at)[j].at + 6 <= PlaceOf(pieces, at, k)
  {
    hide Spelling, EscapesOf, SpellAll;
    assert pieces == pieces[..k] + pieces[k..];
    EscapesConcat(pieces[..k], pieces[k..], at);
    PartsArePieces(pieces, k);
    if j >= EscapesBefore(pieces, at, k) {
      EscapesStand(pieces[k..], PlaceOf(pieces, at, k), j - EscapesBefore(pieces, at, k));
    } else {
      EscapesStand(pieces[..k], at, j);
    }
  }

  lemma PartsArePieces(pieces: seq<Piece>, k: nat)
    requires ArePieces(pieces) && k <= |pieces|
    ensures ArePieces(pieces[..k]) && ArePieces(pieces[k..])
  {
    hide IsPiece;
  }

  /** And so with the escape before it. */
  lemma PreviousAdjoins(pieces: seq<Piece>, at: nat, k: nat)
    requires ArePieces(pieces) && k < |pieces| && pieces[k].Unit?
    ensures var all, j := EscapesOf(pieces, at), EscapesBefore(pieces, at, k);
            && j < |all|
            && (j > 0 && Adjoin(all[j - 1], all[j]) <==> k > 0 && pieces[k - 1].Unit?)
            && (k > 0 && pieces[k - 1].Unit? ==> all[j - 1].unit == pieces[k - 1].unit)
  {
    hide Spelling, EscapesOf, EscapesBefore, PlaceOf;
    var all, j := EscapesOf(pieces, at), EscapesBefore(pieces, at, k);
    PieceMoves(pieces, at, k);
    if k > 0 {
      PieceMoves(pieces, at, k - 1);
      UnitIsSix(pieces, k - 1);
      SomeSpelling(pieces[k - 1]);
      if !pieces[k - 1].Unit? && j > 0 {
        EscapeAfter(pieces, at, k - 1, j - 1);
      }
    } else {
      NoneBefore(pieces, at);
    }
  }

  lemma SomeSpelling(piece: Piece)
    ensures |Spelling(piece)| > 0
  {
  }

  lemma NoneBefore(pieces: seq<Piece>, at: nat)
    ensures EscapesBefore(pieces, at, 0) == 0
  {
  }

  /** A unit's escape is not half of a pair exactly when the unit is a lone surrogate among the pieces. */
  lemma LoneIs(pieces: seq<Piece>, at: nat, k: nat)
    requires ArePieces(pieces) && k < |pieces| && pieces[k].Unit?
    ensures var all, j := EscapesOf(pieces, at), EscapesBefore(pieces, at, k);
            && j < |all| && all[j] == Escape(PlaceOf(pieces, at, k), pieces[k].unit)
            && (Unpaired(all, j) <==> Lone(pieces, k))
  {
    hide Spelling, EscapesOf, EscapesBefore, PlaceOf, Adjoin;
    PieceMoves(pieces, at, k);
    NextAdjoins(pieces, at, k);
    PreviousAdjoins(pieces, at, k);
  }

  /** Each escape is some unit's. */
  lemma {:induction false} EscapeIsUnit(pieces: seq<Piece>, at: nat, n: nat, j: nat) returns (k: nat)
    requires n <= |pieces| && j < EscapesBefore(pieces, at, n)
    ensures k < n && pieces[k].Unit? && EscapesBefore(pieces, at, k) == j
  {
    hide EscapesBefore;
    if n == 0 {
      NoneBefore(pieces, at);
    } else {
      PieceMoves(pieces, at, n - 1);
      if j < EscapesBefore(pieces, at, n - 1) {
        k := EscapeIsUnit(pieces, at, n - 1, j);
      } else {
        k := n - 1;
      }
    }
  }

  /** The literal's escapes all pair up exactly when none of its pieces is a lone surrogate. */
  lemma PairedIs(pieces: seq<Piece>)
    requires ArePieces(pieces)
    ensures AllPaired(Escapes(LiteralOf(pieces), 0, false)) <==> forall k | 0 <= k < |pieces| :: !Lone(pieces, k)
  {
    hide Escapes, EscapesBefore, Unpaired, IsPiece, Spelling;
    var all := EscapesOf(pieces, 1);
    LiteralReads(pieces);
    EscapesEnd(pieces, 1);
    if AllPaired(all) {
      forall k | 0 <= k < |pieces|
        ensures !Lone(pieces, k)
      {
        if pieces[k].Unit? {
          LoneIs(pieces, 1, k);
        }
      }
    }
    if forall k | 0 <= k < |pieces| :: !Lone(pieces, k) {
      forall j | 0 <= j < |all|
        ensures !Unpaired(all, j)
      {
        var k := EscapeIsUnit(pieces, 1, |pieces|, j);
        LoneIs(pieces, 1, k);
      }
    }
  }

  lemma {:induction false} BeforeGrows(pieces: seq<Piece>, at: nat, i: nat, k: nat)
    requires i <= k <= |pieces|
    ensures EscapesBefore(pieces, at, i) <= EscapesBefore(pieces, at, k)
  {
    hide EscapesBefore;
    if i < k {
      PieceMoves(pieces, at, k - 1);
      BeforeGrows(pieces, at, i, k - 1);
    }
  }

  /** And the first of them that does not is the first lone surrogate, where that stands in the literal. */
  lemma FirstLoneIs(pieces: seq<Piece>, j: nat) returns (k: nat)
    requires ArePieces(pieces) && IsFirstUnpaired(Escapes(LiteralOf(pieces), 0, false), j)
    ensures k < |pieces| && Lone(pieces, k) && forall i | 0 <= i < k :: !Lone(pieces, i)
    ensures Escapes(LiteralOf(pieces), 0, false)[j].at == 1 + |SpellAll(pieces[..k])|
  {
    hide Escapes, EscapesBefore, Unpaired, IsPiece, Spelling, SpellAll;
    var all := EscapesOf(pieces, 1);
    LiteralReads(pieces);
    EscapesEnd(pieces, 1);
    k := EscapeIsUnit(pieces, 1, |pieces|, j);
    LoneIs(pieces, 1, k);
    forall i | 0 <= i < k
      ensures !Lone(pieces, i)
    {
      if pieces[i].Unit? {
        LoneIs(pieces, 1, i);
        PieceMoves(pieces, 1, i);
        BeforeGrows(pieces, 1, i + 1, k);
      }
    }
  }

  // ----- UTF-8 -----

  /** A Unicode scalar value: a code point that is no surrogate. */
  predicate IsScalar(n: nat) { n < 0xD800 || 0xE000 <= n < 0x110000 }

  predicate AreScalars(scalars: seq<nat>) { forall i | 0 <= i < |scalars| :: IsScalar(scalars[i]) }

  /** The bytes that encode one scalar value (section 3 of RFC 3629). */
  function Utf8Of(n: nat): (bytes: Bytes)
    requires IsScalar(n)
    ensures bytes != []
  {
    if n < 0x80 then [n as char]
    else if n < 0x800 then [(0xC0 + n / 64) as char, (0x80 + n % 64) as char]
    else if n < 0x10000 then [(0xE0 + n / 4096) as char, (0x80 + n / 64 % 64) as char, (0x80 + n % 64) as char]
    else [(0xF0 + n / 262144) as char, (0x80 + n / 4096 % 64) as char, (0x80 + n / 64 % 64) as char,
          (0x80 + n % 64) as char]
  }

  function EncodeAll(scalars: seq<nat>): Bytes
    requires AreScalars(scalars)
  {
    if scalars == [] then [] else Utf8Of(scalars[0]) + EncodeAll(scalars[1..])
  }

  /** One scalar's bytes go on before valid bytes. */
  lemma OneScalarOn(n: nat, rest: Bytes)
    requires IsScalar(n) && ValidUtf8(rest)
    ensures ValidUtf8(Utf8Of(n) + rest)
  {
    var raw := Utf8Of(n) + rest;
    assert raw[|Utf8Of(n)|..] == rest;
    if n < 0x80 {
    } else if n < 0x800 {
    } else if n < 0x10000 {
      ThreeBytes(n);
    } else {
      FourBytes(n);
    }
  }

  lemma ThreeBytes(n: nat)
    requires IsScalar(n) && 0x800 <= n < 0x10000
    ensures 0xE0 <= 0xE0 + n / 4096 <= 0xEF
    ensures n / 4096 == 0 ==> n / 64 % 64 >= 0x20
    ensures n / 4096 == 13 ==> n / 64 % 64 < 0x20
  {
  }

  lemma FourBytes(n: nat)
    requires IsScalar(n) && 0x10000 <= n
    ensures 0xF0 <= 0xF0 + n / 262144 <= 0xF4
    ensures n / 262144 == 0 ==> n / 4096 % 64 >= 0x10
    ensures n / 262144 == 4 ==> n / 4096 % 64 < 0x10
  {
  }

  lemma {:induction false} EncodedIsValid(scalars: seq<nat>)
    requires AreScalars(scalars)
    ensures ValidUtf8(EncodeAll(scalars))
  {
    if scalars != [] {
      EncodedIsValid(scalars[1..]);
      OneScalarOn(scalars[0], EncodeAll(scalars[1..]));
    }
  }

  /** Valid bytes begin with some scalar's. */
  lemma FirstScalar(raw: Bytes) returns (n: nat)
    requires ValidUtf8(raw) && raw != []
    ensures IsScalar(n) && Utf8Of(n) <= raw && ValidUtf8(raw[|Utf8Of(n)|..])
  {
    if raw[0] < 0x80 as char && ValidUtf8(raw[1..]) {
      n := raw[0] as int;
    } else if |raw| >= 2 && Within(raw[0], 0xC2, 0xDF) && Within(raw[1], 0x80, 0xBF) && ValidUtf8(raw[2..]) {
      n := 64 * (raw[0] as int - 0xC0) + (raw[1] as int - 0x80);
      assert Utf8Of(n) == raw[..2];
    } else if |raw| >= 3 && Within(raw[0], 0xE0, 0xEF) {
      n := ThreeOf(raw);
    } else {
      n := FourOf(raw);
    }
  }

  lemma ThreeOf(raw: Bytes) returns (n: nat)
    requires ValidUtf8(raw) && |raw| >= 3 && Within(raw[0], 0xE0, 0xEF)
    ensures IsScalar(n) && Utf8Of(n) == raw[..3] && ValidUtf8(raw[3..])
  {
    var a, b, c := raw[0] as int - 0xE0, raw[1] as int - 0x80, raw[2] as int - 0x80;
    n := 4096 * a + 64 * b + c;
    assert 0 <= b < 64 && 0 <= c < 64;
    Base64(a, b, c);
    assert Utf8Of(n) == raw[..3];
  }

  lemma FourOf(raw: Bytes) returns (n: nat)
    requires ValidUtf8(raw) && |raw| >= 4 && Within(raw[0], 0xF0, 0xF4)
    ensures IsScalar(n) && Utf8Of(n) == raw[..4] && ValidUtf8(raw[4..])
  {
    var a, b, c, d := raw[0] as int - 0xF0, raw[1] as int - 0x80, raw[2] as int - 0x80, raw[3] as int - 0x80;
    assert 0 <= b < 64 && 0 <= c < 64 && 0 <= d < 64;
    n := 262144 * a + 4096 * b + 64 * c + d;
    Base64(64 * a + b, c, d);
    Base64(a, b, 64 * c + d);
    assert Utf8Of(n) == raw[..4];
  }

  lemma Base64(a: int, b: int, c: int)
    requires 0 <= a && 0 <= b < 64 && 0 <= c < 4096
    ensures c < 64 ==> (4096 * a + 64 * b + c) / 4096 == a && (4096 * a + 64 * b + c) / 64 % 64 == b
                       && (4096 * a + 64 * b + c) % 64 == c
    ensures (262144 * a + 4096 * b + c) / 262144 == a && (262144 * a + 4096 * b + c) / 4096 % 64 == b
  {
  }

  lemma {:induction false} ValidIsEncoded(raw: Bytes) returns (scalars: seq<nat>)
    requires ValidUtf8(raw)
    ensures AreScalars(scalars) && raw == EncodeAll(scalars)
    decreases |raw|
  {
    hide ValidUtf8, Utf8Of;
    if raw == [] {
      scalars := [];
    } else {
      var n := FirstScalar(raw);
      var rest := ValidIsEncoded(raw[|Utf8Of(n)|..]);
      scalars := [n] + rest;
      assert scalars[1..] == rest;
    }
  }

  /** The bytes taken for UTF-8 are exactly those that encode scalar values. */
  lemma Utf8Is(raw: Bytes)
    ensures ValidUtf8(raw) <==> exists scalars :: AreScalars(scalars) && raw == EncodeAll(scalars)
  {
    hide ValidUtf8, EncodeAll, AreScalars;
    if ValidUtf8(raw) {
      var scalars := ValidIsEncoded(raw);
    }
    if scalars :| AreScalars(scalars) && raw == EncodeAll(scalars) {
      EncodedIsValid(scalars);
    }
  }
}
