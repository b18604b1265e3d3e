/**
 * A parameterised FizzBuzz: entry `i` (counted from 1) is the third label
 * when both divisors divide `i`, the second when only `k2` does, the first
 * when only `k1` does, and the decimal text of `i` otherwise.  The labels
 * live in a three-slot array that `ChangeLabel` overwrites in place.
 */
module FizzBuzz {
  import opened Decimal

  /** The labels `fizzbuzz` and `custom_buzz` start from. */
  const DefaultLabels: seq<string> := ["Fizz", "Buzz", "Fizzbuzz"]

  /** Entry `i` for divisors `k1`, `k2` and the three labels. */
  function Entry(i: nat, k1: nat, k2: nat, labels: seq<string>): (r: string)
    requires k1 >= 1 && k2 >= 1 && |labels| == 3
    ensures i % k1 == 0 && i % k2 == 0 ==> r == labels[2]
    ensures i % k1 != 0 && i % k2 == 0 ==> r == labels[1]
    ensures i % k1 == 0 && i % k2 != 0 ==> r == labels[0]
    ensures i % k1 != 0 && i % k2 != 0 ==> r == NatToString(i)
  {
    var byK1 := i % k1 == 0;
    var byK2 := i % k2 == 0;
    if byK1 && byK2 then labels[2]
    else if byK2 then labels[1]
    else if byK1 then labels[0]
    else NatToString(i)
  }

  /** A numeral: a non-empty string of ASCII digits. */
  predicate IsDecimalText(s: string) {
    |s| >= 1 && AllDigits(s)
  }

  /**
   * With labels that are not numerals, an entry is a numeral exactly when
   * neither divisor divides its position, and then it spells the position.
   */
  lemma EntryIsDecimalText(i: nat, k1: nat, k2: nat, labels: seq<string>)
    requires k1 >= 1 && k2 >= 1 && |labels| == 3
    requires forall j :: 0 <= j < 3 ==> !IsDecimalText(labels[j])
    ensures IsDecimalText(Entry(i, k1, k2, labels)) <==> i % k1 != 0 && i % k2 != 0
    ensures i % k1 != 0 && i % k2 != 0 ==> DecimalValue(Entry(i, k1, k2, labels)) == i
  {
    if i % k1 != 0 && i % k2 != 0 {
      NatToStringRoundTrip(i);
    }
  }

  lemma DefaultLabelsAreWords()
    ensures |DefaultLabels| == 3 && forall j :: 0 <= j < 3 ==> !IsDecimalText(DefaultLabels[j])
  {
    assert !IsDigit(DefaultLabels[0][0]);
    assert !IsDigit(DefaultLabels[1][0]);
    assert !IsDigit(DefaultLabels[2][0]);
  }

  /** `FizzBuzzer`: two divisors below 256 and three labels. */
  class FizzBuzzer {
    var k1: nat
    var k2: nat
    var labels: array<string>

    predicate Valid()
      reads this
    {
      k1 < 256 && k2 < 256 && labels.Length == 3
    }

    /** The struct literal `FizzBuzzer { k1, k2, labels }`. */
    constructor (k1: nat, k2: nat, labels: seq<string>)
      requires k1 < 256 && k2 < 256 && |labels| == 3
      ensures Valid() && fresh(this.labels)
      ensures this.k1 == k1 && this.k2 == k2 && this.labels[..] == labels
    {
      this.k1 := k1;
      this.k2 := k2;
      this.labels := new string[3](j requires 0 <= j < 3 => labels[j]);
    }

    /**
     * `take`: the first `n` entries.  Divisors 0 and 1 make the original
     * panic; here they are excluded by the precondition.  Nothing changes.
     */
    method Take(n: nat) returns (res: seq<string>)
      requires Valid() && k1 >= 2 && k2 >= 2
      ensures |res| == n
      ensures forall i :: 0 <= i < n ==> res[i] == Entry(i + 1, k1, k2, labels[..])
    {
      res := [];
      for i := 1 to n + 1
        invariant |res| == i - 1
        invariant forall j :: 0 <= j < i - 1 ==> res[j] == Entry(j + 1, k1, k2, labels[..])
      {
        var divByK1 := i % k1 == 0;
        var divByK2 := i % k2 == 0;
        if divByK1 && divByK2 {
          res := res + [labels[2]];
        } else if divByK2 {
          res := res + [labels[1]];
        } else if divByK1 {
          res := res + [labels[0]];
        } else {
          res := res + [NatToString(i)];
        }
      }
    }

    /**
     * `change_label`: slot `index` gets the new text and the other two keep
     * theirs.  An index above 2 makes the original panic; here it is excluded
     * by the precondition.
     */
    method ChangeLabel(index: nat, value: string)
      requires Valid() && index <= 2
      modifies labels
      ensures Valid()
      ensures labels[..] == old(labels[..])[index := value]
    {
      labels[index] := value;
    }
  }

  /** `custom_buzz`: the first `n` entries for divisors `k1`, `k2` and the default labels. */
  method CustomBuzz(n: nat, k1: nat, k2: nat) returns (res: seq<string>)
    requires 2 <= k1 < 256 && 2 <= k2 < 256
    ensures |res| == n
    ensures forall i :: 0 <= i < n ==> res[i] == Entry(i + 1, k1, k2, DefaultLabels)
  {
    var fb := new FizzBuzzer(k1, k2, DefaultLabels);
    res := fb.Take(n);
  }

  /** `fizzbuzz`: `custom_buzz` with divisors 3 and 5. */
  method FizzBuzz(n: nat) returns (res: seq<string>)
    ensures |res| == n
    ensures forall i :: 0 <= i < n ==> res[i] == Entry(i + 1, 3, 5, DefaultLabels)
  {
    res := CustomBuzz(n, 3, 5);
  }

  /** Moving on by 15 keeps the remainder by 3. */
  lemma ShiftThree(i: nat)
    ensures (i + 15) % 3 == i % 3
  {
    assert i + 15 == 3 * (i / 3 + 5) + i % 3;
  }

  /** Moving on by 15 keeps the remainder by 5. */
  lemma ShiftFive(i: nat)
    ensures (i + 15) % 5 == i % 5
  {
    assert i + 15 == 5 * (i / 5 + 3) + i % 5;
  }

  /** Moving on by 15 keeps the remainder by 15. */
  lemma ShiftFifteen(i: nat)
    ensures (i + 15) % 15 == i % 15
  {
    assert i + 15 == 15 * (i / 15 + 1) + i % 15;
  }

  /** Below 15, only 0 is divisible by both 3 and 5. */
  lemma BelowFifteen(i: nat)
    requires i < 15
    ensures (i % 3 == 0 && i % 5 == 0) <==> i == 0
  {
    if i % 3 == 0 && i % 5 == 0 {
      assert i == 0 || i == 3 || i == 6 || i == 9 || i == 12;
    }
  }

  /** Divisible by both 3 and 5 is divisible by 15. */
  lemma {:induction false} DivisibleByFifteen(i: nat)
    ensures (i % 3 == 0 && i % 5 == 0) <==> i % 15 == 0
    decreases i
  {
    if i >= 15 {
      DivisibleByFifteen(i - 15);
      ShiftThree(i - 15);
      ShiftFive(i - 15);
      ShiftFifteen(i - 15);
    } else {
      BelowFifteen(i);
    }
  }

  /**
   * The classic rule: with divisors 3 and 5, multiples of 15 get the third
   * label, other multiples of 5 the second, other multiples of 3 the first.
   */
  lemma ClassicRule(i: nat, labels: seq<string>)
    requires |labels| == 3
    ensures Entry(i, 3, 5, labels) ==
      if i % 15 == 0 then labels[2]
      else if i % 5 == 0 then labels[1]
      else if i % 3 == 0 then labels[0]
      else NatToString(i)
  {
    DivisibleByFifteen(i);
  }
}
