/**
 A small JSON codec, compact and without escapes: objects of distinct or repeated members, plain strings and
 unsigned integers. Writing is a function of a value; reading consumes a prefix of the bytes and keeps the rest.
 */
module Json {
  import opened Octets
  import opened Decimal

  datatype Value = Text(text: Bytes) | Number(digits: Bytes) | Object(members: Members)

  datatype Members = End | Member(name: Bytes, value: Value, rest: Members)

  /** A byte a string holds as itself: no quote, no backslash, no control character. */
  predicate IsPlain(c: char) { c != '"' && c != '\\' && ' ' <= c }

  predicate AllPlain(text: Bytes) { forall i | 0 <= i < |text| :: IsPlain(text[i]) }

  predicate ValidValue(v: Value) {
    match v
    case Text(text) => AllPlain(text)
    case Number(digits) => IsNumeral(digits)
    case Object(members) => ValidMembers(members)
  }

  predicate ValidMembers(ms: Members) {
    ms.Member? ==> AllPlain(ms.name) && ValidValue(ms.value) && ValidMembers(ms.rest)
  }

  /** The member names of an object, in order. */
  function Names(ms: Members): seq<Bytes> {
    if ms.End? then [] else [ms.name] + Names(ms.rest)
  }

  predicate NamedOnce(ms: Members) {
    ms.Member? ==> ms.name !in Names(ms.rest) && NamedOnce(ms.rest)
  }

  function Lookup(ms: Members, name: Bytes): Option<Value> {
    if ms.End? then None else if ms.name == name then Some(ms.value) else Lookup(ms.rest, name)
  }

  function TextAt(ms: Members, name: Bytes): Option<Bytes> {
    match Lookup(ms, name)
    case Some(Text(text)) => Some(text)
    case _ => None
  }

  function IntegerAt(ms: Members, name: Bytes): Option<nat> {
    match Lookup(ms, name)
    case Some(Number(digits)) => if IsNumeral(digits) then Some(ToNat(digits)) else None
    case _ => None
  }

  function ObjectAt(ms: Members, name: Bytes): Option<Members> {
    match Lookup(ms, name)
    case Some(Object(inner)) => Some(inner)
    case _ => None
  }

  // ----- Writing -----

  function Encode(v: Value): Bytes {
    match v
    case Text(text) => ['"'] + (text + ['"'])
    case Number(digits) => digits
    case Object(members) => ['{'] + (if members.End? then ['}'] else EncodeMembers(members))
  }

  /** The members of an object that has some, with the brace that closes it. */
  function EncodeMembers(ms: Members): Bytes
    requires ms.Member?
    decreases ms, 2
  {
    ['"'] + (ms.name + (['"'] + EncodeNamed(ms)))
  }

  /** From the colon after the first member's name on. */
  function EncodeNamed(ms: Members): Bytes
    requires ms.Member?
    decreases ms, 1
  {
    [':'] + (Encode(ms.value) + EncodeClosing(ms))
  }

  /** From the comma or brace after the first member's value on. */
  function EncodeClosing(ms: Members): Bytes
    requires ms.Member?
    decreases ms, 0
  {
    if ms.rest.End? then ['}'] else [','] + EncodeMembers(ms.rest)
  }

  // ----- Reading -----

  datatype Read<+T> = Failed | Done(value: T, rest: Bytes)

  /** A string from after its opening quote. */
  function ReadText(s: Bytes): (r: Read<Bytes>)
    ensures r.Done? ==> |r.rest| < |s|
  {
    if s == [] then Failed
    else if s[0] == '"' then Done([], s[1..])
    else if !IsPlain(s[0]) then Failed
    else
      match ReadText(s[1..])
      case Failed => Failed
      case Done(text, rest) => Done([s[0]] + text, rest)
  }

  function ReadDigits(s: Bytes): (r: Read<Bytes>)
    ensures r.Done? && AllDigits(r.value) && |r.rest| == |s| - |r.value|
    ensures s != [] && IsDigit(s[0]) ==> r.value != []
  {
    if s == [] || !IsDigit(s[0]) then Done([], s)
    else
      var more := ReadDigits(s[1..]);
      Done([s[0]] + more.value, more.rest)
  }

  function ReadValue(s: Bytes): (r: Read<Value>)
    ensures r.Done? ==> |r.rest| < |s|
    decreases |s|
  {
    if s == [] then Failed
    else if s[0] == '"' then
      match ReadText(s[1..])
      case Failed => Failed
      case Done(text, rest) => Done(Text(text), rest)
    else if s[0] == '{' then
      if |s| > 1 && s[1] == '}' then Done(Object(End), s[2..])
      else
        match ReadMembers(s[1..])
        case Failed => Failed
        case Done(members, rest) => Done(Object(members), rest)
    else if IsDigit(s[0]) then
      var digits := ReadDigits(s);
      if IsNumeral(digits.value) then Done(Number(digits.value), digits.rest) else Failed
    else Failed
  }

  function ReadMembers(s: Bytes): (r: Read<Members>)
    ensures r.Done? ==> |r.rest| < |s|
    decreases |s|, 2
  {
    if s == [] || s[0] != '"' then Failed
    else
      match ReadText(s[1..])
      case Failed => Failed
      case Done(name, named) => ReadNamed(name, named)
  }

  function ReadNamed(name: Bytes, s: Bytes): (r: Read<Members>)
    ensures r.Done? ==> |r.rest| < |s|
    decreases |s|, 1
  {
    if s == [] || s[0] != ':' then Failed
    else
      match ReadValue(s[1..])
      case Failed => Failed
      case Done(value, closing) => ReadClosing(name, value, closing)
  }

  function ReadClosing(name: Bytes, value: Value, s: Bytes): (r: Read<Members>)
    ensures r.Done? ==> |r.rest| < |s|
    decreases |s|, 0
  {
    if s == [] then Failed
    else if s[0] == '}' then Done(Member(name, value, End), s[1..])
    else if s[0] != ',' then Failed
    else
      match ReadMembers(s[1..])
      case Failed => Failed
      case Done(more, rest) => Done(Member(name, value, more), rest)
  }

  /** The members of a line that is an object from its first byte to its last, no name repeated. */
  function ReadObject(line: Bytes): Option<Members> {
    match ReadValue(line)
    case Done(Object(members), rest) => if rest == [] && NamedOnce(members) then Some(members) else None
    case _ => None
  }

  // ----- What is written reads back -----

  lemma {:induction false} TextReadsBack(text: Bytes, rest: Bytes)
    requires AllPlain(text)
    ensures ReadText(text + (['"'] + rest)) == Done(text, rest)
  {
    var s := text + (['"'] + rest);
    if text == [] {
      assert s == ['"'] + rest;
    } else {
      TextReadsBack(text[1..], rest);
      assert s[1..] == text[1..] + (['"'] + rest);
      assert [text[0]] + text[1..] == text;
    }
  }

  lemma {:induction false} DigitsReadBack(digits: Bytes, rest: Bytes)
    requires AllDigits(digits)
    requires rest == [] || !IsDigit(rest[0])
    ensures ReadDigits(digits + rest) == Done(digits, rest)
  {
    var s := digits + rest;
    if digits == [] {
      assert s == rest;
    } else {
      DigitsReadBack(digits[1..], rest);
      assert s[1..] == digits[1..] + rest;
      assert [digits[0]] + digits[1..] == digits;
    }
  }

  /** What follows a value's encoding does not change how the value is read. */
  lemma {:induction false} ValueReadsBack(v: Value, rest: Bytes)
    requires ValidValue(v)
    requires v.Number? ==> rest == [] || !IsDigit(rest[0])
    ensures ReadValue(Encode(v) + rest) == Done(v, rest)
    decreases v, 3
  {
    match v
    case Text(text) =>
      HeadAndRest('"', text + ['"'], rest);
      Regroup(text, ['"'], rest);
      TextReadsBack(text, rest);
    case Number(digits) =>
      DigitsReadBack(digits, rest);
      assert (digits + rest)[0] == digits[0];
    case Object(members) =>
      ObjectReadsBack(members, rest);
  }

  lemma {:induction false} ObjectReadsBack(ms: Members, rest: Bytes)
    requires ValidMembers(ms)
    ensures ReadValue(Encode(Object(ms)) + rest) == Done(Object(ms), rest)
    decreases ms, 3
  {
    var s := Encode(Object(ms)) + rest;
    if ms.Member? {
      HeadAndRest('{', EncodeMembers(ms), rest);
      assert s[1] == '"';
      MembersReadBack(ms, rest);
    } else {
      assert s[2..] == rest;
    }
  }

  lemma {:induction false} MembersReadBack(ms: Members, rest: Bytes)
    requires ms.Member? && ValidMembers(ms)
    ensures ReadMembers(EncodeMembers(ms) + rest) == Done(ms, rest)
    decreases ms, 2
  {
    hide ReadValue, ReadText, ReadNamed;
    var named := EncodeNamed(ms) + rest;
    HeadAndRest('"', ms.name + (['"'] + EncodeNamed(ms)), rest);
    Regroup(ms.name, ['"'] + EncodeNamed(ms), rest);
    Regroup(['"'], EncodeNamed(ms), rest);
    TextReadsBack(ms.name, named);
    NamedReadsBack(ms, rest);
  }

  lemma {:induction false} NamedReadsBack(ms: Members, rest: Bytes)
    requires ms.Member? && ValidMembers(ms)
    ensures ReadNamed(ms.name, EncodeNamed(ms) + rest) == Done(ms, rest)
    decreases ms, 1
  {
    hide ReadValue, ReadText, ReadClosing;
    var closing := EncodeClosing(ms) + rest;
    HeadAndRest(':', Encode(ms.value) + EncodeClosing(ms), rest);
    Regroup(Encode(ms.value), EncodeClosing(ms), rest);
    assert EncodeClosing(ms)[0] == '}' || EncodeClosing(ms)[0] == ',';
    ValueReadsBack(ms.value, closing);
    ClosingReadsBack(ms, rest);
  }

  lemma {:induction false} ClosingReadsBack(ms: Members, rest: Bytes)
    requires ms.Member? && ValidMembers(ms)
    ensures ReadClosing(ms.name, ms.value, EncodeClosing(ms) + rest) == Done(ms, rest)
    decreases ms, 0
  {
    hide ReadMembers;
    if ms.rest.Member? {
      HeadAndRest(',', EncodeMembers(ms.rest), rest);
      MembersReadBack(ms.rest, rest);
    } else {
      assert (EncodeClosing(ms) + rest)[1..] == rest;
    }
  }
}
