/**
 * FizzBuzz as an endless iterator: a `FizzBuzzer` holds three labels and
 * its iterator counts up from 0, classifying each new count by 3 and 5.
 */
module FizzBuzzIter {
  import opened Options
  import opened Decimal
  import FizzBuzz

  /** `FizzBuzzer`: three labels, never changed after construction. */
  datatype FizzBuzzer = FizzBuzzer(labels: seq<string>)

  /** What the iterator yields for count `k`. */
  function Item(k: nat, labels: seq<string>): (r: string)
    requires |labels| == 3
    ensures r == FizzBuzz.Entry(k, 3, 5, labels)
  {
    var by3 := k % 3 == 0;
    var by5 := k % 5 == 0;
    if by3 && by5 then labels[2]
    else if by5 then labels[1]
    else if by3 then labels[0]
    else NatToString(k)
  }

  /**
   * The iterator yields the entries of the list-building FizzBuzz with
   * divisors 3 and 5, and so follows the classic rule by multiples of 15.
   */
  lemma ItemIsEntry(k: nat, labels: seq<string>)
    requires |labels| == 3
    ensures Item(k, labels) == FizzBuzz.Entry(k, 3, 5, labels)
    ensures Item(k, labels) ==
      if k % 15 == 0 then labels[2]
      else if k % 5 == 0 then labels[1]
      else if k % 3 == 0 then labels[0]
      else NatToString(k)
  {
    FizzBuzz.ClassicRule(k, labels);
  }

  /** `FizzBuzzerIter`: the labels it borrows and the last count it produced. */
  class FizzBuzzerIter {
    const fizzbuzzer: FizzBuzzer
    var num: nat

    /** `FizzBuzzer::iter`: a fresh iterator over the given labels, with the count at 0. */
    constructor (fizzbuzzer: FizzBuzzer)
      requires |fizzbuzzer.labels| == 3
      ensures this.fizzbuzzer == fizzbuzzer && num == 0
    {
      this.fizzbuzzer := fizzbuzzer;
      num := 0;
    }

    /** `next`: the count moves on by one and its item is always produced. */
    method Next() returns (r: Option<string>)
      requires |fizzbuzzer.labels| == 3
      modifies this
      ensures num == old(num) + 1
      ensures r == Some(Item(num, fizzbuzzer.labels))
    {
      num := num + 1;
      var div3 := num % 3 == 0;
      var div5 := num % 5 == 0;
      if div3 && div5 {
        r := Some(fizzbuzzer.labels[2]);
      } else if div5 {
        r := Some(fizzbuzzer.labels[1]);
      } else if div3 {
        r := Some(fizzbuzzer.labels[0]);
      } else {
        r := Some(NatToString(num));
      }
    }
  }
}
