/**
 * A sign-and-magnitude big integer: a sign of `1` or `-1` and a vector of
 * decimal digits, least significant first.  `Value` reads a `Bigint` as the
 * integer it stands for; parsing, comparison, addition and subtraction are
 * proved to agree with the integers.
 */
module SignedBigint {
  import opened Decimal

  datatype Bigint = Bigint(sign: int, digits: seq<int>)

  datatype ParseResult = Ok(value: Bigint) | ParseError

  datatype Ordering = Less | Equal | Greater

  function Pow10(n: nat): (p: int)
    ensures p >= 1
  {
    if n == 0 then 1 else 10 * Pow10(n - 1)
  }

  /** The number a little-endian digit vector spells. */
  function Mag(d: seq<int>): int
    decreases |d|
  {
    if |d| == 0 then 0 else d[0] + 10 * Mag(d[1..])
  }

  predicate Digits(d: seq<int>) {
    forall i :: 0 <= i < |d| ==> 0 <= d[i] <= 9
  }

  /** A digit vector as the type keeps it: non-empty, no most-significant zero except in `[0]`. */
  predicate WfDigits(d: seq<int>) {
    |d| >= 1 && Digits(d) && (|d| == 1 || d[|d| - 1] != 0)
  }

  /** Every `Bigint` the operations build, including the negative zero that `neg` makes. */
  predicate WellFormed(b: Bigint) {
    (b.sign == 1 || b.sign == -1) && WfDigits(b.digits)
  }

  predicate IsZero(b: Bigint) {
    b.digits == [0]
  }

  /** The one representation of each integer: well formed, and zero carries sign `1`. */
  predicate Canonical(b: Bigint) {
    WellFormed(b) && (IsZero(b) ==> b.sign == 1)
  }

  /** The integer a `Bigint` stands for: its magnitude, negated when the sign is `-1`. */
  function Value(b: Bigint): int {
    if b.sign == -1 then -Mag(b.digits) else Mag(b.digits)
  }

  function CompareInt(x: int, y: int): (o: Ordering)
    ensures o == Less <==> x < y
    ensures o == Greater <==> x > y
  {
    if x < y then Less else if x > y then Greater else Equal
  }

  /** `Ordering::reverse`. */
  function Flip(o: Ordering): (r: Ordering)
    ensures (o == Less <==> r == Greater) && (o == Equal <==> r == Equal)
  {
    match o
    case Less => Greater
    case Equal => Equal
    case Greater => Less
  }

  // ---------------------------------------------------------------------
  // Facts about digit vectors and their magnitudes
  // ---------------------------------------------------------------------

  lemma {:induction false} MagAppend(d: seq<int>, v: int)
    ensures Mag(d + [v]) == Mag(d) + v * Pow10(|d|)
    decreases |d|
  {
    if |d| > 0 {
      assert (d + [v])[1..] == d[1..] + [v];
      MagAppend(d[1..], v);
      assert 10 * (v * Pow10(|d| - 1)) == v * Pow10(|d|);
    }
  }

  lemma {:induction false} MagUpdate(d: seq<int>, i: nat, v: int)
    requires i < |d|
    ensures Mag(d[i := v]) == Mag(d) + (v - d[i]) * Pow10(i)
    decreases i
  {
    if i == 0 {
      assert d[0 := v][1..] == d[1..];
    } else {
      assert d[i := v][1..] == d[1..][i - 1 := v];
      MagUpdate(d[1..], i - 1, v);
      assert 10 * ((v - d[i]) * Pow10(i - 1)) == (v - d[i]) * Pow10(i);
    }
  }

  lemma {:induction false} MagBounds(d: seq<int>)
    requires Digits(d)
    ensures 0 <= Mag(d) < Pow10(|d|)
    decreases |d|
  {
    if |d| > 0 {
      MagBounds(d[1..]);
    }
  }

  /** A most significant digit that is not zero puts the magnitude at or above `10^(n-1)`. */
  lemma MagTop(d: seq<int>)
    requires Digits(d) && |d| >= 1 && d[|d| - 1] != 0
    ensures Mag(d) >= Pow10(|d| - 1)
  {
    var n := |d|;
    assert d == d[..n - 1] + [d[n - 1]];
    MagAppend(d[..n - 1], d[n - 1]);
    MagBounds(d[..n - 1]);
    PlaceValueLess(0, Mag(d[..n - 1]), 0, d[n - 1], Pow10(n - 1));
  }

  lemma {:induction false} Pow10Monotone(i: nat, j: nat)
    requires i <= j
    ensures Pow10(i) <= Pow10(j)
    decreases j - i
  {
    if i < j {
      Pow10Monotone(i, j - 1);
    }
  }

  /** Of two well-formed vectors, the shorter spells the smaller number. */
  lemma MagShorter(a: seq<int>, b: seq<int>)
    requires WfDigits(a) && WfDigits(b) && |a| < |b|
    ensures Mag(a) < Mag(b)
  {
    MagBounds(a);
    MagTop(b);
    Pow10Monotone(|a|, |b| - 1);
  }

  /** `x + u * p` grows with the top digit `u` when `x` stays below the place value `p`. */
  lemma PlaceValueLess(x: int, y: int, u: int, v: int, p: int)
    requires 0 <= x < p && 0 <= y && u < v
    ensures x + u * p < y + v * p
  {
    MultipleAtLeast(v - u, p);
    assert v * p == u * p + (v - u) * p;
  }

  lemma {:induction false} MultipleAtLeast(k: int, p: int)
    requires k >= 1 && p >= 0
    ensures k * p >= p
    decreases k
  {
    if k > 1 {
      MultipleAtLeast(k - 1, p);
      assert k * p == (k - 1) * p + p;
    }
  }

  /** Vectors that agree but for a smaller top digit spell a smaller number. */
  lemma MagLessAtTop(a: seq<int>, b: seq<int>)
    requires |a| == |b| >= 1 && Digits(a) && Digits(b) && a[|a| - 1] < b[|b| - 1]
    ensures Mag(a) < Mag(b)
  {
    var n := |a|;
    var a', b' := a[..n - 1], b[..n - 1];
    assert a == a' + [a[n - 1]];
    assert b == b' + [b[n - 1]];
    MagAppend(a', a[n - 1]);
    MagAppend(b', b[n - 1]);
    MagBounds(a');
    MagBounds(b');
    PlaceValueLess(Mag(a'), Mag(b'), a[n - 1], b[n - 1], Pow10(n - 1));
  }

  /** Between vectors of one length, the most significant differing digit decides. */
  lemma {:induction false} MagLess(a: seq<int>, b: seq<int>, j: nat)
    requires |a| == |b| && Digits(a) && Digits(b)
    requires j < |a| && a[j] < b[j]
    requires forall i :: j < i < |a| ==> a[i] == b[i]
    ensures Mag(a) < Mag(b)
    decreases |a|
  {
    var n := |a|;
    if j == n - 1 {
      MagLessAtTop(a, b);
    } else {
      var a', b' := a[..n - 1], b[..n - 1];
      assert a == a' + [a[n - 1]];
      assert b == b' + [b[n - 1]];
      MagAppend(a', a[n - 1]);
      MagAppend(b', b[n - 1]);
      MagLess(a', b', j);
    }
  }

  lemma {:induction false} MagInjectiveSameLength(a: seq<int>, b: seq<int>)
    requires |a| == |b| && Digits(a) && Digits(b) && Mag(a) == Mag(b)
    ensures a == b
    decreases |a|
  {
    var n := |a|;
    if n > 0 {
      if a[n - 1] < b[n - 1] {
        MagLess(a, b, n - 1);
      } else if a[n - 1] > b[n - 1] {
        MagLess(b, a, n - 1);
      } else {
        assert a == a[..n - 1] + [a[n - 1]];
        assert b == b[..n - 1] + [b[n - 1]];
        MagAppend(a[..n - 1], a[n - 1]);
        MagAppend(b[..n - 1], b[n - 1]);
        MagInjectiveSameLength(a[..n - 1], b[..n - 1]);
      }
    }
  }

  /** Each number has exactly one well-formed digit vector. */
  lemma MagInjective(a: seq<int>, b: seq<int>)
    requires WfDigits(a) && WfDigits(b) && Mag(a) == Mag(b)
    ensures a == b
  {
    if |a| < |b| {
      MagShorter(a, b);
    } else if |b| < |a| {
      MagShorter(b, a);
    } else {
      MagInjectiveSameLength(a, b);
    }
  }

  lemma {:induction false} MagPrefix(d: seq<int>, i: nat)
    requires Digits(d) && i <= |d|
    ensures 0 <= Mag(d[..i]) <= Mag(d)
    decreases |d| - i
  {
    MagBounds(d[..i]);
    if i < |d| {
      assert d[..i + 1] == d[..i] + [d[i]];
      MagAppend(d[..i], d[i]);
      MagPrefix(d, i + 1);
    } else {
      assert d[..i] == d;
    }
  }

  /** A vector whose top entry is negative and whose others are digits spells a negative number. */
  lemma NegativeTop(d: seq<int>)
    requires |d| >= 1 && d[|d| - 1] < 0
    requires forall j :: 0 <= j < |d| - 1 ==> 0 <= d[j] <= 9
    ensures Mag(d) < 0
  {
    var n := |d|;
    var d' := d[..n - 1];
    assert d == d' + [d[n - 1]];
    MagAppend(d', d[n - 1]);
    MagBounds(d');
    PlaceValueLess(Mag(d'), 0, d[n - 1], 0, Pow10(n - 1));
  }

  // ---------------------------------------------------------------------
  // The plain operations
  // ---------------------------------------------------------------------

  /** `Bigint::new()`: zero. */
  function New(): (b: Bigint)
    ensures Canonical(b) && Value(b) == 0
  {
    Bigint(1, [0])
  }

  /** `is_positive`: false for either zero. */
  function IsPositive(b: Bigint): (r: bool)
    requires WellFormed(b)
    ensures r <==> Value(b) > 0
  {
    CanonicalIsZero(b);
    MagBounds(b.digits);
    b.sign == 1 && b.digits != [0]
  }

  /** `is_negative`: false for either zero. */
  function IsNegative(b: Bigint): (r: bool)
    requires WellFormed(b)
    ensures r <==> Value(b) < 0
  {
    CanonicalIsZero(b);
    MagBounds(b.digits);
    b.sign == -1 && b.digits != [0]
  }

  /** `neg`: the sign flips and the digits stay. */
  function Neg(b: Bigint): (r: Bigint)
    ensures WellFormed(b) ==> WellFormed(r) && Value(r) == -Value(b)
    ensures Canonical(b) && !IsZero(b) ==> Canonical(r)
  {
    Bigint(-b.sign, b.digits)
  }

  /** Negating zero gives a second, non-canonical zero that `==` tells apart from `new()`. */
  lemma NegativeZero()
    ensures WellFormed(Neg(New())) && Value(Neg(New())) == 0
    ensures Neg(New()) != New() && !Canonical(Neg(New()))
  {
    assert Neg(New()) == Bigint(-1, [0]);
    assert Mag([0]) == 0;
  }

  /** A well-formed value stands for 0 exactly when its digits are `[0]`, whatever its sign. */
  lemma CanonicalIsZero(b: Bigint)
    requires WellFormed(b)
    ensures Value(b) == 0 <==> IsZero(b)
  {
    var d := b.digits;
    if IsZero(b) {
      assert Mag(d) == 0 by {
        assert d[1..] == [];
      }
    } else {
      if |d| == 1 {
        assert d == [d[0]];
        assert d[1..] == [];
        assert Mag(d) == d[0] > 0;
      } else {
        MagTop(d);
      }
      assert Mag(d) > 0;
      assert b.sign * Mag(d) != 0 by {
        if b.sign == 1 {
        } else {
        }
      }
    }
  }

  /** Canonical values are equal exactly when they stand for the same integer. */
  lemma CanonicalUnique(a: Bigint, b: Bigint)
    requires Canonical(a) && Canonical(b)
    ensures a == b <==> Value(a) == Value(b)
  {
    if Value(a) == Value(b) {
      CanonicalIsZero(a);
      CanonicalIsZero(b);
      if Value(a) != 0 {
        MagBounds(a.digits);
        MagBounds(b.digits);
        assert a.sign == b.sign;
        MagInjective(a.digits, b.digits);
      }
    }
  }

  // ---------------------------------------------------------------------
  // Parsing
  // ---------------------------------------------------------------------

  /** What `from_str` accepts: ASCII digits, with an optional `+` or `-` in front. */
  predicate IsNumeral(s: string) {
    forall i :: 0 <= i < |s| ==> IsDigit(s[i]) || (i == 0 && (s[i] == '+' || s[i] == '-'))
  }

  /** The digits of a numeral, without its sign. */
  function Unsigned(s: string): (t: string)
    ensures IsNumeral(s) ==> AllDigits(t)
  {
    if |s| > 0 && (s[0] == '+' || s[0] == '-') then s[1..] else s
  }

  function NumeralValue(s: string): int
    requires IsNumeral(s)
  {
    var m: int := DecimalValue(Unsigned(s));
    if |s| > 0 && s[0] == '-' then -m else m
  }

  function Reverse(d: seq<int>): (r: seq<int>)
    ensures |r| == |d|
  {
    if |d| == 0 then [] else [d[|d| - 1]] + Reverse(d[..|d| - 1])
  }

  /** `reverse` puts entry `i` at position `len - 1 - i`. */
  lemma {:induction false} ReverseIndex(d: seq<int>)
    ensures forall i :: 0 <= i < |d| ==> Reverse(d)[i] == d[|d| - 1 - i]
    decreases |d|
  {
    if |d| > 0 {
      var front := d[..|d| - 1];
      ReverseIndex(front);
      forall i | 0 < i < |d|
        ensures Reverse(d)[i] == d[|d| - 1 - i]
      {
        assert Reverse(d)[i] == Reverse(front)[i - 1];
      }
    }
  }

  /** The number digits spell when written most significant first, as `from_str` collects them. */
  function TextValue(d: seq<int>): int
  {
    if |d| == 0 then 0 else 10 * TextValue(d[..|d| - 1]) + d[|d| - 1]
  }

  /** Reversing digits collected in text order gives the least-significant-first vector of the same number. */
  lemma {:induction false} ReverseTextValue(d: seq<int>)
    ensures Mag(Reverse(d)) == TextValue(d)
    decreases |d|
  {
    if |d| > 0 {
      var front := d[..|d| - 1];
      ReverseTextValue(front);
      assert ([d[|d| - 1]] + Reverse(front))[1..] == Reverse(front);
    }
  }

  lemma UnsignedAppend(s: string, i: nat)
    requires i < |s| && IsDigit(s[i])
    ensures Unsigned(s[..i + 1]) == Unsigned(s[..i]) + [s[i]]
  {
    var a, b := s[..i + 1], s[..i];
    assert a == b + [s[i]];
    if i > 0 {
      assert a[0] == b[0];
      if b[0] == '+' || b[0] == '-' {
        assert a[1..] == b[1..] + [s[i]];
      }
    }
  }

  /** The magnitude spelled by the first `i` characters of a numeral; a leading sign adds nothing. */
  function PrefixMagnitude(s: string, i: nat): nat
    requires i <= |s|
  {
    if i == 0 then 0
    else if IsDigit(s[i - 1]) then 10 * PrefixMagnitude(s, i - 1) + DigitValue(s[i - 1])
    else PrefixMagnitude(s, i - 1)
  }

  /** Reading a numeral left to right builds up the value of its digits. */
  lemma {:induction false} PrefixMagnitudeValue(s: string, i: nat)
    requires IsNumeral(s) && i <= |s|
    ensures PrefixMagnitude(s, i) == DecimalValue(Unsigned(s[..i]))
  {
    if i > 0 {
      PrefixMagnitudeValue(s, i - 1);
      if IsDigit(s[i - 1]) {
        UnsignedAppend(s, i - 1);
        DecimalValueAppend(Unsigned(s[..i - 1]), s[i - 1]);
      } else {
        assert Unsigned(s[..1]) == [];
      }
    }
  }

  /**
   * The end of `from_str`: no significant digit means the value 0, and
   * otherwise the reversed digits under the sign are canonical and carry
   * the numeral's value.
   */
  lemma ParsedDigits(s: string, sign: int, digits: seq<int>)
    requires IsNumeral(s) && sign == (if |s| > 0 && s[0] == '-' then -1 else 1)
    requires Digits(digits) && (|digits| == 0 || digits[0] != 0)
    requires TextValue(digits) == PrefixMagnitude(s, |s|)
    ensures |digits| == 0 ==> NumeralValue(s) == 0
    ensures |digits| > 0 ==> Canonical(Bigint(sign, Reverse(digits)))
    ensures |digits| > 0 ==> Value(Bigint(sign, Reverse(digits))) == NumeralValue(s)
  {
    PrefixMagnitudeValue(s, |s|);
    ReverseTextValue(digits);
    assert s[..|s|] == s;
    var rev := Reverse(digits);
    ReverseIndex(digits);
    if |digits| > 0 {
      assert rev[|rev| - 1] == digits[0];
      assert rev != [0];
    }
  }

  /**
   * What `from_str` holds after the first `i` characters: they form the
   * start of a numeral, `sign` is `-1` exactly after a leading `-`, and
   * `digits` are the significant digits read so far, in text order.
   */
  predicate ReadSoFar(s: string, i: nat, sign: int, digits: seq<int>) {
    && i <= |s|
    && (forall k :: 0 <= k < i ==> IsDigit(s[k]) || (k == 0 && (s[k] == '+' || s[k] == '-')))
    && sign == (if i > 0 && s[0] == '-' then -1 else 1)
    && Digits(digits) && (|digits| == 0 || digits[0] != 0)
    && TextValue(digits) == PrefixMagnitude(s, i)
  }

  /**
   * One character of `from_str`: a digit is kept unless it is a leading
   * zero, a sign is taken only in front, and anything else is an error.
   */
  method ReadChar(s: string, i: nat, sign: int, digits: seq<int>) returns (ok: bool, sign': int, digits': seq<int>)
    requires i < |s| && ReadSoFar(s, i, sign, digits)
    ensures ok <==> IsDigit(s[i]) || (i == 0 && (s[i] == '+' || s[i] == '-'))
    ensures ok ==> ReadSoFar(s, i + 1, sign', digits')
  {
    var ch := s[i];
    ok, sign', digits' := true, sign, digits;
    if '0' <= ch <= '9' {
      assert PrefixMagnitude(s, i + 1) == 10 * PrefixMagnitude(s, i) + DigitValue(ch);
      if !(ch == '0' && |digits| == 0) {
        assert (digits + [DigitValue(ch)])[..|digits|] == digits;
        digits' := digits + [DigitValue(ch)];
      }
    } else if ch == '+' && i == 0 {
      assert PrefixMagnitude(s, 1) == PrefixMagnitude(s, 0);
      sign' := 1;
    } else if ch == '-' && i == 0 {
      assert PrefixMagnitude(s, 1) == PrefixMagnitude(s, 0);
      sign' := -1;
    } else {
      ok := false;
    }
  }

  /**
   * `from_str`: the digits are collected most significant first with the
   * leading zeros skipped, then reversed; a text with no significant digit
   * is `new()`.
   */
  method FromStr(s: string) returns (r: ParseResult)
    ensures r.Ok? <==> IsNumeral(s)
    ensures r.Ok? ==> Canonical(r.value) && Value(r.value) == NumeralValue(s)
  {
    var sign := 1;
    var digits: seq<int> := [];
    for i := 0 to |s|
      invariant ReadSoFar(s, i, sign, digits)
    {
      var ok;
      ok, sign, digits := ReadChar(s, i, sign, digits);
      if !ok {
        return ParseError;
      }
    }
    ParsedDigits(s, sign, digits);
    if |digits| == 0 {
      return Ok(New());
    }
    var rev := Reverse(digits);
    return Ok(Bigint(sign, rev));
  }

  /** "-0", "+0", "" and "000" all parse to `new()`. */
  lemma ZeroNumerals(b: Bigint)
    requires Canonical(b) && Value(b) == 0
    ensures b == New()
  {
    CanonicalUnique(b, New());
  }

  // ---------------------------------------------------------------------
  // Order
  // ---------------------------------------------------------------------

  /** The order `cmp` computes: sign first, then magnitude, reversed for negatives. */
  function Order(a: Bigint, b: Bigint): (r: Ordering)
    ensures a == b ==> r == Equal
    ensures r == Equal ==> a.sign == b.sign && Mag(a.digits) == Mag(b.digits)
  {
    if a.sign != b.sign then (if a.sign < b.sign then Less else Greater)
    else if a.sign > 0 then CompareInt(Mag(a.digits), Mag(b.digits))
    else CompareInt(Mag(b.digits), Mag(a.digits))
  }

  /** Swapping the operands reverses the order. */
  lemma OrderFlip(a: Bigint, b: Bigint)
    ensures Order(b, a) == Flip(Order(a, b))
  {
  }

  /** On canonical values the order is the order of the integers. */
  lemma OrderIsIntegerOrder(a: Bigint, b: Bigint)
    requires Canonical(a) && Canonical(b)
    ensures Order(a, b) == CompareInt(Value(a), Value(b))
  {
    MagBounds(a.digits);
    MagBounds(b.digits);
    CanonicalIsZero(a);
    CanonicalIsZero(b);
  }

  /** A well-formed value is `Equal` only to itself. */
  lemma OrderEqual(a: Bigint, b: Bigint)
    requires WellFormed(a) && WellFormed(b)
    ensures Order(a, b) == Equal <==> a == b
  {
    if Order(a, b) == Equal {
      MagInjective(a.digits, b.digits);
    }
  }

  /** The negative zero sorts below zero although both stand for 0. */
  lemma NegativeZeroBelowZero()
    ensures Order(Neg(New()), New()) == Less && Value(Neg(New())) == Value(New())
  {
  }

  /** `cmp`: sign, then digit count, then the first differing digit from the top. */
  method Cmp(a: Bigint, b: Bigint) returns (r: Ordering)
    requires WellFormed(a) && WellFormed(b)
    ensures r == Order(a, b)
  {
    if a.sign < b.sign {
      return Less;
    } else if a.sign > b.sign {
      return Greater;
    } else if |a.digits| < |b.digits| {
      MagShorter(a.digits, b.digits);
      return if a.sign < 0 then Greater else Less;
    } else if |a.digits| > |b.digits| {
      MagShorter(b.digits, a.digits);
      return if a.sign < 0 then Less else Greater;
    }
    var n := |a.digits|;
    r := Equal;
    for index := 0 to n
      invariant forall j :: n - index <= j < n ==> a.digits[j] == b.digits[j]
    {
      var j := n - index - 1;
      var c := CompareInt(a.digits[j], b.digits[j]);
      if c != Equal {
        if c == Less {
          MagLess(a.digits, b.digits, j);
        } else {
          MagLess(b.digits, a.digits, j);
        }
        r := c;
        if a.sign == -1 {
          r := Flip(r);
        }
        return;
      }
    }
    assert a.digits == b.digits;
  }

  // ---------------------------------------------------------------------
  // Addition and subtraction
  // ---------------------------------------------------------------------

  lemma SignedSum(sg: int, x: int, y: int)
    requires sg == 1 || sg == -1
    ensures sg * (x + y) == sg * x + sg * y
  {
  }

  /** Adding the next digit of the shorter operand adds its place value to the magnitude. */
  lemma AddDigit(d: seq<int>, s: seq<int>, k: nat)
    requires k < |d| && k < |s|
    ensures Mag(d[k := d[k] + s[k]]) == Mag(d) + Mag(s[..k + 1]) - Mag(s[..k])
  {
    MagUpdate(d, k, d[k] + s[k]);
    assert s[..k + 1] == s[..k] + [s[k]];
    MagAppend(s[..k], s[k]);
  }

  /** A position holding at most 19 passes on a carry of at most one. */
  lemma OneCarry(x: int)
    requires 0 <= x <= 19
    ensures x / 10 == (if x >= 10 then 1 else 0) && x % 10 == (if x >= 10 then x - 10 else x)
  {
  }

  /**
   * The `carry_over` closure of `add`: a position holding ten or more keeps
   * its last decimal digit and passes one to the next position, which is
   * created when there is none.  The magnitude does not change.
   */
  method CarryOver(d: seq<int>, index: nat) returns (r: seq<int>)
    requires index < |d| && 0 <= d[index] <= 19
    ensures Mag(r) == Mag(d)
    ensures |r| == |d| || (index + 1 == |d| && |r| == |d| + 1)
    ensures r[..index] == d[..index] && r[index] == d[index] % 10
    ensures index + 1 < |d| ==> |r| == |d| && r[index + 1] == d[index + 1] + d[index] / 10
    ensures index + 1 == |d| ==> if d[index] < 10 then r == d else |r| == |d| + 1 && r[index + 1] == 1
    ensures forall j :: index + 1 < j < |d| ==> r[j] == d[j]
  {
    OneCarry(d[index]);
    r := d;
    if r[index] >= 10 {
      ghost var p := Pow10(index);
      assert Pow10(index + 1) == 10 * p;
      MagUpdate(r, index, r[index] - 10);
      r := r[index := r[index] - 10];
      assert Mag(r) == Mag(d) - 10 * p;
      if index + 1 < |r| {
        MagUpdate(r, index + 1, r[index + 1] + 1);
        r := r[index + 1 := r[index + 1] + 1];
      } else {
        MagAppend(r, 1);
        r := r + [1];
      }
    }
  }

  /**
   * The state of `add` after the first `k` positions of the copy `res` of
   * `longer` (`n` digits): those positions hold single digits, position `k`
   * at most one more than a digit, the later ones are untouched, a carry
   * out of the top makes one new leading 1, and the first `k` digits of
   * `s` have been added to the magnitude.
   */
  predicate AddedUpTo(longer: seq<int>, s: seq<int>, res: seq<int>, k: nat) {
    var n := |longer|;
    && k <= n
    && (|res| == n || (k == n && |res| == n + 1 && res[n] == 1))
    && (forall j :: 0 <= j < k ==> 0 <= res[j] <= 9)
    && (k < n ==> 0 <= res[k] <= 10)
    && (forall j :: k < j < n ==> res[j] == longer[j])
    && Mag(res) == Mag(longer) + Mag(s[..if k < |s| then k else |s|])
  }

  /** One position of the same-sign branch of `add`: add the digit of `s` there, then `carry_over`. */
  method AddPosition(longer: seq<int>, s: seq<int>, res: seq<int>, k: nat) returns (r: seq<int>)
    requires WfDigits(longer) && WfDigits(s) && |s| <= |longer|
    requires k < |longer| && AddedUpTo(longer, s, res, k)
    ensures AddedUpTo(longer, s, r, k + 1)
  {
    r := res;
    if k < |s| {
      AddDigit(r, s, k);
      r := r[k := r[k] + s[k]];
    }
    r := CarryOver(r, k);
  }

  /** Once every position is done, the sum has no leading zero. */
  lemma {:induction false} AddedAll(longer: seq<int>, s: seq<int>, res: seq<int>)
    requires WfDigits(longer) && WfDigits(s) && |s| <= |longer|
    requires AddedUpTo(longer, s, res, |longer|)
    ensures WfDigits(res) && Mag(res) == Mag(longer) + Mag(s)
  {
    var n := |longer|;
    assert s[..|s|] == s;
    MagBounds(s);
    if |res| == n && n >= 2 && res[n - 1] == 0 {
      MagTop(longer);
      assert res == res[..n - 1] + [0];
      MagAppend(res[..n - 1], 0);
      MagBounds(res[..n - 1]);
    }
  }

  /**
   * The same-sign branch of `add`: the shorter digit vector is added into a
   * copy of the longer one, position by position, each followed by
   * `carry_over`.
   */
  method AddDigits(longer: seq<int>, s: seq<int>) returns (res: seq<int>)
    requires WfDigits(longer) && WfDigits(s) && |s| <= |longer|
    ensures WfDigits(res) && Mag(res) == Mag(longer) + Mag(s)
  {
    res := longer;
    var n := |res|;
    for k := 0 to n
      invariant AddedUpTo(longer, s, res, k)
    {
      res := AddPosition(longer, s, res, k);
    }
    AddedAll(longer, s, res);
  }

  /**
   * `add`: operands of different signs go through `sub`; otherwise the
   * digits of the shorter operand are added into the longer one's.
   */
  method Add(a: Bigint, b: Bigint) returns (r: Bigint)
    requires WellFormed(a) && WellFormed(b)
    ensures WellFormed(r) && Value(r) == Value(a) + Value(b)
    ensures Canonical(a) && Canonical(b) ==> Canonical(r)
    decreases if a.sign == b.sign then 0 else 1
  {
    if a.sign < b.sign {
      r := Sub(b, Neg(a));
      return;
    } else if a.sign > b.sign {
      r := Sub(a, Neg(b));
      return;
    }
    var longer, smaller := b, a;
    if |b.digits| < |a.digits| {
      longer, smaller := a, b;
    }
    var digits := AddDigits(longer.digits, smaller.digits);
    r := Bigint(longer.sign, digits);
    SignedSum(r.sign, Mag(longer.digits), Mag(smaller.digits));
    if Canonical(a) && Canonical(b) {
      CanonicalIsZero(a);
      CanonicalIsZero(b);
      CanonicalIsZero(r);
      MagBounds(a.digits);
      MagBounds(b.digits);
    }
  }

  lemma SignedDifference(sg: int, x: int, y: int)
    requires sg == 1 || sg == -1
    ensures sg * (x - y) == sg * x - sg * y
    ensures -sg * (y - x) == sg * x - sg * y
  {
  }

  /** Taking `x` from the entry at position `k` takes `x * 10^k` from the magnitude. */
  lemma SubtractAt(d: seq<int>, k: nat, x: int)
    requires k < |d|
    ensures Mag(d[k := d[k] - x]) == Mag(d) - x * Pow10(k)
  {
    MagUpdate(d, k, d[k] - x);
    assert (d[k] - x - d[k]) * Pow10(k) == -(x * Pow10(k));
  }

  /** Adding ten at one position and taking one from the next keeps the magnitude. */
  lemma BorrowStep(d: seq<int>, i: nat)
    requires i + 1 < |d|
    ensures Mag(d[i := d[i] + 10][i + 1 := d[i + 1] - 1]) == Mag(d)
  {
    var e := d[i := d[i] + 10];
    MagUpdate(d, i, d[i] + 10);
    MagUpdate(e, i + 1, e[i + 1] - 1);
    assert Pow10(i + 1) == 10 * Pow10(i);
  }

  /**
   * The borrow loop of `sub`: while the entry at the current position is
   * negative, it gains ten and the next position loses one.
   */
  method Borrow(d: seq<int>, k: nat) returns (r: seq<int>)
    requires k < |d| && -9 <= d[k] <= 9
    requires forall j :: 0 <= j < |d| && j != k ==> 0 <= d[j] <= 9
    requires Mag(d) >= 0
    ensures |r| == |d| && Digits(r)
    ensures r[..k] == d[..k]
    ensures Mag(r) == Mag(d)
  {
    r := d;
    var i := k;
    while r[i] < 0
      invariant k <= i < |r| == |d|
      invariant -9 <= r[i] <= 9
      invariant forall j :: 0 <= j < |r| && j != i ==> 0 <= r[j] <= 9
      invariant r[..k] == d[..k]
      invariant Mag(r) == Mag(d)
      decreases |r| - i
    {
      if i + 1 == |r| {
        NegativeTop(r);
        assert false;
      }
      BorrowStep(r, i);
      r := r[i := r[i] + 10][i + 1 := r[i + 1] - 1];
      i := i + 1;
    }
  }

  /** The final loop of `sub`: most significant zeros are popped. */
  method PopZeros(d: seq<int>) returns (r: seq<int>)
    requires Digits(d)
    ensures Digits(r) && (|r| == 0 || r[|r| - 1] != 0)
    ensures |r| <= |d| && r == d[..|r|] && Mag(r) == Mag(d)
  {
    r := d;
    while |r| > 0 && r[|r| - 1] == 0
      invariant Digits(r) && |r| <= |d| && r == d[..|r|]
      invariant Mag(r) == Mag(d)
    {
      assert r == r[..|r| - 1] + [0];
      MagAppend(r[..|r| - 1], 0);
      r := r[..|r| - 1];
    }
  }

  /**
   * The same-sign branch of `sub`: the smaller magnitude is taken from a
   * copy of the larger one digit by digit, each negative position borrowing
   * from the positions above it; then the most significant zeros are popped.
   */
  method SubtractDigits(larger: seq<int>, smaller: seq<int>) returns (res: seq<int>)
    requires WfDigits(larger) && WfDigits(smaller) && Mag(smaller) <= Mag(larger)
    ensures Digits(res) && (|res| == 0 || res[|res| - 1] != 0)
    ensures Mag(res) == Mag(larger) - Mag(smaller)
  {
    res := larger;
    if |larger| < |smaller| {
      MagShorter(larger, smaller);
    }
    for k := 0 to |smaller|
      invariant |res| == |larger| && Digits(res)
      invariant Mag(res) == Mag(larger) - Mag(smaller[..k])
    {
      assert smaller[..k + 1] == smaller[..k] + [smaller[k]];
      MagAppend(smaller[..k], smaller[k]);
      SubtractAt(res, k, smaller[k]);
      MagPrefix(smaller, k + 1);
      var d := res[k := res[k] - smaller[k]];
      assert Mag(d) == Mag(larger) - Mag(smaller[..k + 1]) >= 0;
      res := Borrow(d, k);
    }
    assert smaller[..|smaller|] == smaller;
    res := PopZeros(res);
  }

  method Sub(a: Bigint, b: Bigint) returns (r: Bigint)
    requires WellFormed(a) && WellFormed(b)
    ensures WellFormed(r) && Value(r) == Value(a) - Value(b)
    ensures Canonical(a) && Canonical(b) ==> Canonical(r)
    ensures a.sign == b.sign ==> Canonical(r)
    decreases if a.sign == b.sign then 0 else 1
  {
    if a.sign > b.sign {
      assert Canonical(b) ==> !IsZero(b);
      r := Add(a, Neg(b));
      return;
    } else if a.sign < b.sign {
      var t := Add(Neg(a), b);
      if Canonical(a) && Canonical(b) {
        CanonicalIsZero(a);
        MagBounds(a.digits);
        MagBounds(b.digits);
        CanonicalIsZero(t);
      }
      r := Neg(t);
      return;
    }
    var c := Cmp(a, b);
    var larger, sign, smaller;
    if (c == Greater && a.sign > 0) || (c == Less && a.sign < 0) {
      larger, sign, smaller := a.digits, a.sign, b.digits;
    } else {
      larger, sign, smaller := b.digits, -1 * a.sign, a.digits;
    }
    var digits := SubtractDigits(larger, smaller);
    SignedDifference(a.sign, Mag(a.digits), Mag(b.digits));
    if |digits| == 0 {
      r := New();
    } else {
      r := Bigint(sign, digits);
      CanonicalIsZero(r);
    }
  }
}
