/**
 Writes cut short. A line can hold the beginning of one record and then, because an appender that does not
 chain never looks at the end of the file, another record or the beginning of one, any number of times.
 No such line is ever read as a record.
 */
module Torn {
  import opened Octets
  import opened Decimal
  import opened Json

  /** Every record opens with a brace and a member name whose first letter is r. */
  predicate Opens(s: Bytes) { |s| >= 3 && s[0] == '{' && s[1] == '"' && s[2] == 'r' }

  /** Bytes with which nothing that was left open goes on. */
  predicate DeadEnd(s: Bytes) { s == [] || s[0] == '{' || s[0] == 'r' }

  /** A value that was read leaves bytes nothing goes on with, or none was read. */
  predicate Stops<T(!new)>(r: Read<T>) { r.Failed? || DeadEnd(r.rest) }

  /**
   What follows the bytes of an earlier write on the same line: it opens as a record does, and neither a
   value nor the end of a string is found in it after which an object could go on.
   */
  predicate Stuck(s: Bytes) {
    s != [] && s[0] == '{' && Stops(ReadValue(s)) && Stops(ReadText(s))
  }

  lemma {:induction false} CutText(text: Bytes, k: nat, more: Bytes)
    requires AllPlain(text) && k <= |text|
    requires more == [] || Stuck(more)
    ensures Stops(ReadText(text[..k] + more))
  {
    hide ReadValue;
    if k == 0 {
      assert text[..k] + more == more;
    } else {
      CutText(text[1..], k - 1, more);
      assert [text[0]] + text[1..] == text;
      CutHead(text[0], text[1..], k, more);
    }
  }

  /** The same for the quote that ends the string and what comes after it, when the cut is within the string. */
  lemma CutInText(text: Bytes, after: Bytes, k: nat, more: Bytes)
    requires AllPlain(text) && k <= |text|
    requires more == [] || Stuck(more)
    ensures Stops(ReadText((text + after)[..k] + more))
  {
    CutWithin(text, after, k);
    CutText(text, k, more);
  }

  lemma CutDigits(digits: Bytes, k: nat, more: Bytes)
    requires IsNumeral(digits) && 0 < k <= |digits|
    requires more == [] || Stuck(more)
    ensures Stops(ReadValue(digits[..k] + more))
  {
    hide ReadText;
    DigitsReadBack(digits[..k], more);
    assert (digits[..k] + more)[0] == digits[0];
    assert IsDigit(digits[0]);
  }

  /** An encoded value cut anywhere before its end, with another write after the cut. */
  lemma {:induction false} CutValue(v: Value, k: nat, more: Bytes)
    requires ValidValue(v) && k < |Encode(v)|
    requires more == [] || Stuck(more)
    ensures Stops(ReadValue(Encode(v)[..k] + more))
    ensures v.Object? && k > 0 ==> ReadValue(Encode(v)[..k] + more).Failed?
    decreases v, 4
  {
    if k == 0 {
      assert Encode(v)[..k] + more == more;
    } else {
      match v
      case Text(text) =>
        CutHead('"', text + ['"'], k, more);
        CutInText(text, ['"'], k - 1, more);
      case Number(digits) =>
        CutDigits(digits, k, more);
      case Object(members) =>
        CutObject(members, k, more);
    }
  }

  lemma {:induction false} CutObject(ms: Members, k: nat, more: Bytes)
    requires ValidMembers(ms) && 0 < k < |Encode(Object(ms))|
    requires more == [] || Stuck(more)
    ensures ReadValue(Encode(Object(ms))[..k] + more).Failed?
    decreases ms, 3
  {
    var s := Encode(Object(ms))[..k] + more;
    if ms.Member? {
      CutHead('{', EncodeMembers(ms), k, more);
      CutMembers(ms, k - 1, more);
      if k > 1 {
        assert s[1] == EncodeMembers(ms)[0];
      }
    } else {
      CutHead('{', ['}'], k, more);
      assert s[1..] == more;
    }
    assert s == [s[0]] + s[1..];
  }

  lemma {:induction false} CutMembers(ms: Members, k: nat, more: Bytes)
    requires ms.Member? && ValidMembers(ms) && k < |EncodeMembers(ms)|
    requires more == [] || Stuck(more)
    ensures ReadMembers(EncodeMembers(ms)[..k] + more).Failed?
    decreases ms, 2
  {
    hide ReadValue, ReadText, ReadNamed, ReadClosing;
    var after := ['"'] + EncodeNamed(ms);
    if k == 0 {
      assert EncodeMembers(ms)[..k] + more == more;
    } else {
      CutHead('"', ms.name + after, k, more);
      if k - 1 <= |ms.name| {
        CutInText(ms.name, after, k - 1, more);
        StopsBeforeColon(ms.name, (ms.name + after)[..k - 1] + more);
      } else {
        var j := k - 1 - |ms.name|;
        CutBeyond(ms.name, after, k - 1, more);
        CutBeyond(['"'], EncodeNamed(ms), j, more);
        TextReadsBack(ms.name, EncodeNamed(ms)[..j - 1] + more);
        CutNamed(ms, j - 1, more);
      }
    }
  }

  lemma StopsBeforeColon(name: Bytes, s: Bytes)
    requires Stops(ReadText(s))
    ensures ReadText(s).Done? ==> forall text :: ReadNamed(text, ReadText(s).rest).Failed?
  {
    hide ReadText, ReadValue;
  }

  lemma {:induction false} CutNamed(ms: Members, k: nat, more: Bytes)
    requires ms.Member? && ValidMembers(ms) && k < |EncodeNamed(ms)|
    requires more == [] || Stuck(more)
    ensures ReadNamed(ms.name, EncodeNamed(ms)[..k] + more).Failed?
    decreases ms, 1
  {
    hide ReadText, ReadValue;
    var value, closing := Encode(ms.value), EncodeClosing(ms);
    if k == 0 {
      assert EncodeNamed(ms)[..k] + more == more;
    } else {
      CutHead(':', value + closing, k, more);
      if k - 1 < |value| {
        CutValue(ms.value, k - 1, more);
        CutWithin(value, closing, k - 1);
      } else {
        var j := k - 1 - |value|;
        CutBeyond(value, closing, k - 1, more);
        ClosingIsNoDigit(ms, j, more);
        ValueReadsBack(ms.value, closing[..j] + more);
        CutClosing(ms, j, more);
      }
    }
  }

  lemma ClosingIsNoDigit(ms: Members, j: nat, more: Bytes)
    requires ms.Member? && j <= |EncodeClosing(ms)|
    requires more == [] || Stuck(more)
    ensures var s := EncodeClosing(ms)[..j] + more; s == [] || !IsDigit(s[0])
  {
    hide ReadText, ReadValue;
    if j > 0 {
      assert (EncodeClosing(ms)[..j] + more)[0] == EncodeClosing(ms)[0];
    } else {
      assert EncodeClosing(ms)[..j] + more == more;
    }
  }

  lemma {:induction false} CutClosing(ms: Members, k: nat, more: Bytes)
    requires ms.Member? && ValidMembers(ms) && k < |EncodeClosing(ms)|
    requires more == [] || Stuck(more)
    ensures ReadClosing(ms.name, ms.value, EncodeClosing(ms)[..k] + more).Failed?
    decreases ms, 0
  {
    hide ReadText, ReadValue, ReadMembers;
    if k == 0 {
      assert EncodeClosing(ms)[..k] + more == more;
    } else {
      CutHead(',', EncodeMembers(ms.rest), k, more);
      CutMembers(ms.rest, k - 1, more);
    }
  }

  /** A beginning of a line that, whatever is written after it, never becomes a record. */
  ghost predicate Broken(t: Bytes) {
    forall more: Bytes | more == [] || Stuck(more) ::
      Stuck(t + more) && (more != [] ==> ReadObject(t + more).None?)
  }

  /** A record, or any beginning of one, is broken once something else is written on its line. */
  lemma BeginningIsBroken(ms: Members, k: nat)
    requires ms.Member? && ValidMembers(ms) && Opens(Encode(Object(ms)))
    requires 0 < k <= |Encode(Object(ms))|
    ensures Broken(Encode(Object(ms))[..k])
    ensures k < |Encode(Object(ms))| ==> ReadObject(Encode(Object(ms))[..k]).None?
  {
    hide Stuck, ReadObject, Encode;
    var t := Encode(Object(ms))[..k];
    forall more: Bytes | more == [] || Stuck(more)
      ensures Stuck(t + more)
      ensures more != [] || k < |Encode(Object(ms))| ==> ReadObject(t + more).None?
    {
      BeginningIsStuck(ms, k, more);
      BeginningIsNoRecord(ms, k, more);
    }
    assert t + [] == t;
  }

  lemma BeginningIsNoRecord(ms: Members, k: nat, more: Bytes)
    requires ms.Member? && ValidMembers(ms)
    requires 0 < k <= |Encode(Object(ms))|
    requires more == [] || Stuck(more)
    ensures more != [] || k < |Encode(Object(ms))| ==> ReadObject(Encode(Object(ms))[..k] + more).None?
  {
    hide ReadValue, ReadText, Encode;
    var v := Object(ms);
    if k < |Encode(v)| {
      CutValue(v, k, more);
    } else {
      assert Encode(v)[..k] == Encode(v);
      ValueReadsBack(v, more);
    }
  }

  lemma BeginningIsStuck(ms: Members, k: nat, more: Bytes)
    requires ms.Member? && ValidMembers(ms) && Opens(Encode(Object(ms)))
    requires 0 < k <= |Encode(Object(ms))|
    requires more == [] || Stuck(more)
    ensures Stuck(Encode(Object(ms))[..k] + more)
  {
    hide ReadValue, ReadText;
    var v := Object(ms);
    var s := Encode(v)[..k] + more;
    assert s[0] == Encode(v)[0];
    if k < |Encode(v)| {
      CutValue(v, k, more);
    } else {
      assert Encode(v)[..k] == Encode(v);
      ValueReadsBack(v, more);
    }
    OpeningQuote(Encode(v), k, more);
  }

  /** Read as a string, what opens a record ends at once, at the quote of its first member's name. */
  lemma OpeningQuote(record: Bytes, k: nat, more: Bytes)
    requires Opens(record) && 0 < k <= |record|
    requires more == [] || Stuck(more)
    ensures Stops(ReadText(record[..k] + more))
  {
    hide ReadValue;
    var s := record[..k] + more;
    if k == 1 {
      assert s == ['{'] + more;
      assert s[1..] == more;
    } else {
      assert s[1] == '"';
      assert s[1..][1..] == record[2..k] + more;
    }
  }

  lemma BrokenWith(t: Bytes, more: Bytes)
    requires Broken(t) && (more == [] || Stuck(more))
    ensures Stuck(t + more)
    ensures more != [] ==> ReadObject(t + more).None?
  {
    hide Stuck, ReadObject;
  }

  lemma BrokenTwice(t: Bytes, piece: Bytes, more: Bytes)
    requires Broken(t) && Broken(piece) && (more == [] || Stuck(more))
    ensures Stuck(t + (piece + more))
    ensures ReadObject(t + (piece + more)).None?
  {
    BrokenWith(piece, more);
    assert piece + more != [] by {
      hide ReadObject, ReadValue, ReadText, Broken;
    }
    hide *;
    BrokenWith(t, piece + more);
  }

  /** What is broken stays broken under any number of further writes. */
  lemma BrokenGoesOn(t: Bytes, piece: Bytes)
    requires Broken(t) && Broken(piece)
    ensures Broken(t + piece)
    ensures ReadObject(t + piece).None?
  {
    hide Stuck, ReadObject;
    forall more: Bytes | more == [] || Stuck(more)
      ensures Stuck(t + piece + more)
      ensures ReadObject(t + piece + more).None?
    {
      BrokenTwice(t, piece, more);
      Regroup(t, piece, more);
    }
    BrokenTwice(t, piece, []);
    assert piece + [] == piece;
  }
}
