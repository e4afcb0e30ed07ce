/**
 * Artifact versions: three numerals of any length joined by dots, their order and their bumps,
 * computed on the digits and held against the triple of numbers they spell.
 */
module Version {
  import opened Octets
  import opened Decimal

  const MAX_VERSION_BYTES: nat := 256

  datatype Comparison = Lower | Equal | Greater

  datatype Choices = Choices(patch: Bytes, minor: Bytes, major: Bytes)

  datatype Path = Base | Candidate

  datatype Report =
    | Refused(path: Path)
    | Available(base: Bytes, choices: Choices, comparison: Option<Comparison>)

  // ----- Versions and the numbers they spell -----

  /** A text cut at its dots. */
  function SplitDots(text: Bytes): (parts: seq<Bytes>)
    ensures parts != []
  {
    if text == [] then [[]]
    else
      var front, last := SplitDots(text[..|text| - 1]), text[|text| - 1];
      if last == '.' then front + [[]]
      else front[..|front| - 1] + [front[|front| - 1] + [last]]
  }

  predicate Valid(value: Bytes) {
    |value| <= MAX_VERSION_BYTES
    && var parts := SplitDots(value);
       |parts| == 3 && IsNumeral(parts[0]) && IsNumeral(parts[1]) && IsNumeral(parts[2])
  }

  /** Three components as one version. */
  function Dotted(a: Bytes, b: Bytes, c: Bytes): Bytes { a + ['.'] + b + ['.'] + c }

  datatype Triple = Triple(major: nat, minor: nat, patch: nat)

  /** The three numbers a version spells. */
  function Numbers(value: Bytes): Triple
    requires Valid(value)
  {
    var parts := SplitDots(value);
    Triple(ToNat(parts[0]), ToNat(parts[1]), ToNat(parts[2]))
  }

  predicate Before(x: Triple, y: Triple) {
    x.major < y.major
    || (x.major == y.major && (x.minor < y.minor || (x.minor == y.minor && x.patch < y.patch)))
  }

  lemma {:induction false} SplitUndotted(front: Bytes, part: Bytes)
    requires '.' !in part
    ensures SplitDots(front + ['.'] + part) == SplitDots(front) + [part]
    decreases |part|
  {
    var text := front + ['.'] + part;
    if part == [] {
      assert text[..|text| - 1] == front;
    } else {
      var less := part[..|part| - 1];
      SplitUndotted(front, less);
      assert text[..|text| - 1] == front + ['.'] + less;
      assert part == less + [part[|part| - 1]];
    }
  }

  lemma {:induction false} SplitNone(part: Bytes)
    requires '.' !in part
    ensures SplitDots(part) == [part]
  {
    if part != [] {
      SplitNone(part[..|part| - 1]);
      assert part == part[..|part| - 1] + [part[|part| - 1]];
    }
  }

  lemma SplitOfDotted(a: Bytes, b: Bytes, c: Bytes)
    requires '.' !in a && '.' !in b && '.' !in c
    ensures SplitDots(Dotted(a, b, c)) == [a, b, c]
  {
    SplitNone(a);
    SplitUndotted(a, b);
    SplitUndotted(a + ['.'] + b, c);
  }

  /** A text is its parts joined by dots. */
  function JoinDots(parts: seq<Bytes>): Bytes
    requires parts != []
  {
    if |parts| == 1 then parts[0]
    else JoinDots(parts[..|parts| - 1]) + ['.'] + parts[|parts| - 1]
  }

  lemma {:induction false} DotsOfSplit(text: Bytes)
    ensures JoinDots(SplitDots(text)) == text
  {
    if text != [] {
      var front, last := text[..|text| - 1], text[|text| - 1];
      DotsOfSplit(front);
      assert text == front + [last];
      var parts := SplitDots(front);
      if last == '.' {
        assert (parts + [[]])[..|parts|] == parts;
      } else {
        assert SplitDots(text)[..|parts| - 1] == parts[..|parts| - 1];
      }
    }
  }

  /** A version is its three parts joined by dots. */
  lemma PartsOf(value: Bytes)
    requires |SplitDots(value)| == 3
    ensures var parts := SplitDots(value); value == Dotted(parts[0], parts[1], parts[2])
  {
    hide SplitDots;
    var parts := SplitDots(value);
    DotsOfSplit(value);
    assert parts[..2][..1] == [parts[0]];
    assert JoinDots(parts[..2]) == JoinDots([parts[0]]) + ['.'] + parts[1];
  }

  /** The grammar: three numerals without leading zeroes, within the byte bound, and nothing else. */
  lemma ValidIsThreeNumerals(value: Bytes)
    ensures Valid(value) <==>
      |value| <= MAX_VERSION_BYTES
      && exists a: Bytes, b: Bytes, c: Bytes | IsNumeral(a) && IsNumeral(b) && IsNumeral(c) ::
           value == Dotted(a, b, c)
  {
    if Valid(value) {
      PartsOf(value);
      var parts := SplitDots(value);
      assert IsNumeral(parts[0]) && IsNumeral(parts[1]) && IsNumeral(parts[2]);
    }
    if a: Bytes, b: Bytes, c: Bytes :| IsNumeral(a) && IsNumeral(b) && IsNumeral(c) && value == Dotted(a, b, c) {
      SplitOfDotted(a, b, c);
    }
  }

  // ----- Order -----

  /** Bytes in the order a string comparison puts them. */
  predicate Below(a: Bytes, b: Bytes) {
    b != [] && (a == [] || a[0] < b[0] || (a[0] == b[0] && Below(a[1..], b[1..])))
  }

  lemma {:induction false} FirstDigit(text: Bytes)
    requires AllDigits(text) && text != []
    ensures ToNat(text) == DigitValue(text[0]) * PowerOfTen(|text| - 1) + ToNat(text[1..])
  {
    var front := text[..|text| - 1];
    if front != [] {
      FirstDigit(front);
      assert text[1..][..|text| - 2] == front[1..];
      assert PowerOfTen(|text| - 1) == 10 * PowerOfTen(|text| - 2);
      ScaleSum(DigitValue(text[0]), PowerOfTen(|text| - 2));
    } else {
      assert text == [text[0]];
    }
  }

  lemma ScaleSum(d: nat, p: nat)
    ensures 10 * (d * p) == d * (10 * p)
  {
  }

  lemma {:induction false} DigitsBound(text: Bytes)
    requires AllDigits(text)
    ensures ToNat(text) < PowerOfTen(|text|)
  {
    if text != [] {
      DigitsBound(text[..|text| - 1]);
    }
  }

  /** More digits and no leading zero: a greater number. */
  lemma {:induction false} LongerIsGreater(x: Bytes, y: Bytes)
    requires IsNumeral(x) && IsNumeral(y) && |x| > |y|
    ensures ToNat(x) > ToNat(y)
  {
    DigitsBound(y);
    PowerGrows(|y|, |x| - 1);
    FirstDigit(x);
    AtLeast(DigitValue(x[0]), PowerOfTen(|x| - 1));
  }

  lemma AtLeast(d: nat, p: nat)
    requires d > 0
    ensures d * p >= p
  {
  }

  lemma {:induction false} PowerGrows(n: nat, m: nat)
    requires n <= m
    ensures PowerOfTen(n) <= PowerOfTen(m)
  {
    if n < m {
      PowerGrows(n, m - 1);
    }
  }

  /** As many digits each: the order of the strings is the order of the numbers. */
  lemma {:induction false} SameLengthOrder(x: Bytes, y: Bytes)
    requires AllDigits(x) && AllDigits(y) && |x| == |y|
    ensures Below(x, y) <==> ToNat(x) < ToNat(y)
    ensures x == y <==> ToNat(x) == ToNat(y)
  {
    if x != [] {
      FirstDigit(x);
      FirstDigit(y);
      DigitsBound(x[1..]);
      DigitsBound(y[1..]);
      var p := PowerOfTen(|x| - 1);
      if x[0] < y[0] {
        Leads(DigitValue(x[0]), DigitValue(y[0]), p, ToNat(x[1..]), ToNat(y[1..]));
      } else if y[0] < x[0] {
        Leads(DigitValue(y[0]), DigitValue(x[0]), p, ToNat(y[1..]), ToNat(x[1..]));
      } else {
        SameLengthOrder(x[1..], y[1..]);
        assert x == [x[0]] + x[1..] && y == [y[0]] + y[1..];
      }
    }
  }

  lemma Leads(d: nat, e: nat, p: nat, u: nat, v: nat)
    requires d < e && u < p
    ensures d * p + u < e * p + v
  {
    assert (d + 1) * p <= e * p;
  }

  /** The order two versions stand in, component by component, by length and then by bytes. */
  method Compare(a: Bytes, b: Bytes) returns (c: Comparison)
    requires Valid(a) && Valid(b)
    ensures c.Greater? <==> Before(Numbers(b), Numbers(a))
    ensures c.Lower? <==> Before(Numbers(a), Numbers(b))
    ensures c.Equal? <==> a == b
  {
    hide IsNumeral, ToNat, Below, AllDigits, SplitDots;
    var x, y := SplitDots(a), SplitDots(b);
    for i := 0 to |x|
      invariant forall j | 0 <= j < i :: x[j] == y[j]
    {
      if |x[i]| > |y[i]| {
        LongerIsGreater(x[i], y[i]);
        return Greater;
      }
      if |x[i]| < |y[i]| {
        LongerIsGreater(y[i], x[i]);
        return Lower;
      }
      Digits(x[i]);
      Digits(y[i]);
      SameLengthOrder(x[i], y[i]);
      if Below(y[i], x[i]) {
        SameLengthOrder(y[i], x[i]);
        return Greater;
      }
      if Below(x[i], y[i]) {
        return Lower;
      }
      SameLengthOrder(y[i], x[i]);
    }
    assert x == y;
    DotsOfSplit(a);
    DotsOfSplit(b);
    return Equal;
  }

  lemma Digits(x: Bytes)
    requires IsNumeral(x)
    ensures x != [] && AllDigits(x)
  {
  }

  // ----- Bumps -----

  function Increment(component: Bytes): (next: Bytes)
    requires IsNumeral(component)
    ensures IsNumeral(next)
  {
    FromNat(ToNat(component) + 1)
  }

  predicate AllNines(text: Bytes) { forall i | 0 <= i < |text| :: text[i] == '9' }

  /** The successor of a number whose tens and last digit are given. */
  lemma IncrementSnoc(front: Bytes, last: Byte)
    requires IsNumeral(front) && front[0] != '0' && IsDigit(last)
    ensures IsNumeral(front + [last])
    ensures |Increment(front + [last])| == 1 + if last == '9' then |Increment(front)| else |front|
  {
    var x := front + [last];
    assert x[..|x| - 1] == front;
    NumeralPositive(front);
    SpelledOnce(front);
    assert ToNat(x) == 10 * ToNat(front) + DigitValue(last);
    if last == '9' {
      SpelledNext(ToNat(front) + 1, 0);
    } else {
      SpelledNext(ToNat(front), DigitValue(last) + 1);
    }
  }

  lemma IncrementDigit(x: Bytes)
    requires IsNumeral(x) && |x| == 1
    ensures |Increment(x)| == 1 + if x[0] == '9' then 1 else 0
  {
    assert x[..0] == [];
    assert ToNat(x) == DigitValue(x[0]);
  }

  /** A component grows by a digit exactly when it is all nines. */
  lemma {:induction false} IncrementLength(x: Bytes)
    requires IsNumeral(x)
    ensures |Increment(x)| == |x| + if AllNines(x) then 1 else 0
  {
    if |x| == 1 {
      IncrementDigit(x);
    } else {
      var front, last := x[..|x| - 1], x[|x| - 1];
      assert x == front + [last];
      IncrementLength(front);
      IncrementSnoc(front, last);
      assert AllNines(x) <==> AllNines(front) && last == '9';
    }
  }

  lemma SpelledNext(tens: nat, digit: nat)
    requires tens > 0 && digit < 10
    ensures FromNat(10 * tens + digit) == FromNat(tens) + [DigitOf(digit)]
  {
    var n := 10 * tens + digit;
    assert n / 10 == tens && n % 10 == digit;
  }

  function ChoicesOf(base: Bytes): Choices
    requires Valid(base)
  {
    var parts := SplitDots(base);
    Choices(Dotted(parts[0], parts[1], Increment(parts[2])),
            Dotted(parts[0], Increment(parts[1]), ['0']),
            Dotted(Increment(parts[0]), ['0'], ['0']))
  }

  predicate Fit(c: Choices) {
    |c.patch| <= MAX_VERSION_BYTES && |c.minor| <= MAX_VERSION_BYTES && |c.major| <= MAX_VERSION_BYTES
  }

  /** The choices are refused exactly where a carry makes a version of the greatest length longer. */
  predicate Overflows(base: Bytes)
    requires Valid(base)
  {
    var parts := SplitDots(base);
    |base| == MAX_VERSION_BYTES
    && (AllNines(parts[2])
        || (AllNines(parts[1]) && |parts[2]| == 1)
        || (AllNines(parts[0]) && |parts[1]| == 1 && |parts[2]| == 1))
  }

  lemma OverflowsIs(base: Bytes)
    requires Valid(base)
    ensures Fit(ChoicesOf(base)) <==> !Overflows(base)
  {
    hide IsNumeral, SplitDots, Increment, AllNines;
    var parts := SplitDots(base);
    PartsOf(base);
    Digits(parts[0]);
    Digits(parts[1]);
    Digits(parts[2]);
    IncrementLength(parts[0]);
    IncrementLength(parts[1]);
    IncrementLength(parts[2]);
  }

  /** One such base: 252 nines, and no minor version or patch yet. */
  lemma GreatestOverflows()
    ensures var base := Dotted(seq(252, _ => '9'), ['0'], ['0']); Valid(base) && Overflows(base)
  {
    var nines: Bytes := seq(252, _ => '9');
    Undotted(nines);
    SplitOfDotted(nines, ['0'], ['0']);
  }

  lemma Undotted(x: Bytes)
    requires IsNumeral(x)
    ensures '.' !in x
  {
  }

  /** Three numerals within the bound are a version that spells their numbers. */
  lemma DottedReads(a: Bytes, b: Bytes, c: Bytes)
    requires IsNumeral(a) && IsNumeral(b) && IsNumeral(c) && |Dotted(a, b, c)| <= MAX_VERSION_BYTES
    ensures Valid(Dotted(a, b, c))
    ensures Numbers(Dotted(a, b, c)) == Triple(ToNat(a), ToNat(b), ToNat(c))
  {
    Undotted(a);
    Undotted(b);
    Undotted(c);
    SplitOfDotted(a, b, c);
  }

  lemma IncrementAdds(x: Bytes)
    requires IsNumeral(x)
    ensures ToNat(Increment(x)) == ToNat(x) + 1
  {
    ReadsBack(ToNat(x) + 1);
  }

  /** Each choice is a version, one number greater than the base with the numbers after it at zero. */
  lemma ChoicesSpell(base: Bytes)
    requires Valid(base) && Fit(ChoicesOf(base))
    ensures var c, n := ChoicesOf(base), Numbers(base);
            && Valid(c.patch) && Numbers(c.patch) == Triple(n.major, n.minor, n.patch + 1)
            && Valid(c.minor) && Numbers(c.minor) == Triple(n.major, n.minor + 1, 0)
            && Valid(c.major) && Numbers(c.major) == Triple(n.major + 1, 0, 0)
  {
    hide SplitDots, IsNumeral, ToNat, Increment;
    var parts := SplitDots(base);
    IncrementAdds(parts[0]);
    IncrementAdds(parts[1]);
    IncrementAdds(parts[2]);
    Zero();
    DottedReads(parts[0], parts[1], Increment(parts[2]));
    DottedReads(parts[0], Increment(parts[1]), ['0']);
    DottedReads(Increment(parts[0]), ['0'], ['0']);
  }

  lemma Zero()
    ensures IsNumeral(['0']) && ToNat(['0']) == 0
  {
    assert ['0'][..0] == [];
  }

  /** Whatever is offered, the bumps rise: base, patch, minor, major. */
  lemma ChoicesRise(base: Bytes)
    requires Valid(base) && Fit(ChoicesOf(base))
    ensures var c := ChoicesOf(base);
            && Valid(c.patch) && Valid(c.minor) && Valid(c.major)
            && Before(Numbers(base), Numbers(c.patch))
            && Before(Numbers(c.patch), Numbers(c.minor))
            && Before(Numbers(c.minor), Numbers(c.major))
  {
    ChoicesSpell(base);
  }

  /**
   * The bumps of a version, and where a candidate stands against it. Refused for a base or candidate
   * that is not a version, and for a base some bump of which would not fit the byte bound.
   */
  method Options(base: Bytes, candidate: Option<Bytes>) returns (r: Report)
    ensures r == Refused(Base) <==>
            !Valid(base) || ((candidate.None? || Valid(candidate.value)) && Overflows(base))
    ensures r == Refused(Candidate) <==> Valid(base) && candidate.Some? && !Valid(candidate.value)
    ensures r.Available? ==>
            && Valid(base) && r.base == base && r.choices == ChoicesOf(base)
            && (r.comparison.Some? <==> candidate.Some?)
    ensures r.Available? && candidate.Some? ==>
            && Valid(candidate.value)
            && (r.comparison == Some(Greater) <==> Before(Numbers(base), Numbers(candidate.value)))
            && (r.comparison == Some(Lower) <==> Before(Numbers(candidate.value), Numbers(base)))
    ensures r.Available? ==>
            var c, n := r.choices, Numbers(base);
            && Valid(c.patch) && Numbers(c.patch) == Triple(n.major, n.minor, n.patch + 1)
            && Valid(c.minor) && Numbers(c.minor) == Triple(n.major, n.minor + 1, 0)
            && Valid(c.major) && Numbers(c.major) == Triple(n.major + 1, 0, 0)
  {
    hide SplitDots, Increment, ToNat, IsNumeral, AllNines;
    if !Valid(base) {
      return Refused(Base);
    }
    if candidate.Some? && !Valid(candidate.value) {
      return Refused(Candidate);
    }
    var parts := SplitDots(base);
    var choices := Choices(Dotted(parts[0], parts[1], Increment(parts[2])),
                           Dotted(parts[0], Increment(parts[1]), ['0']),
                           Dotted(Increment(parts[0]), ['0'], ['0']));
    OverflowsIs(base);
    if |choices.patch| > MAX_VERSION_BYTES || |choices.minor| > MAX_VERSION_BYTES
       || |choices.major| > MAX_VERSION_BYTES {
      return Refused(Base);
    }
    ChoicesSpell(base);
    if candidate.Some? {
      var comparison := Compare(candidate.value, base);
      return Available(base, choices, Some(comparison));
    }
    return Available(base, choices, None);
  }
}
