/**
 * A big integer kept as its decimal digits in text order, with a plain
 * rendering and a rendering that puts a comma between groups of three
 * digits counted from the right.
 */
module DigitDisplay {
  import opened Decimal

  datatype Bigint = Bigint(digits: seq<nat>)

  datatype ParseResult = Ok(value: Bigint) | Err(message: string)

  /** `from_str`: one digit per character, in text order; any other character is an error. */
  method FromStr(s: string) returns (r: ParseResult)
    ensures r.Ok? <==> AllDigits(s)
    ensures r.Ok? ==> |r.value.digits| == |s| && forall i :: 0 <= i < |s| ==> r.value.digits[i] == DigitValue(s[i])
    ensures r.Err? ==> r.message == "Invalid input!"
  {
    var digits: seq<nat> := [];
    for i := 0 to |s|
      invariant AllDigits(s[..i])
      invariant |digits| == i && forall k :: 0 <= k < i ==> digits[k] == DigitValue(s[k])
    {
      if !IsDigit(s[i]) {
        return Err("Invalid input!");
      }
      digits := digits + [DigitValue(s[i])];
    }
    assert s[..|s|] == s;
    return Ok(Bigint(digits));
  }

  /** The first `k` entries written one after another, each in decimal. */
  function PlainPrefix(ds: seq<nat>, k: nat): string
    requires k <= |ds|
  {
    if k == 0 then "" else PlainPrefix(ds, k - 1) + NatToString(ds[k - 1])
  }

  /** What `Display for Bigint` writes. */
  function Plain(ds: seq<nat>): string {
    PlainPrefix(ds, |ds|)
  }

  /** A comma follows entry `i` of `n` when a multiple of three entries follows it, and it is not the last. */
  predicate Mark(n: nat, i: nat)
    requires i < n
  {
    (n - 1 - i) % 3 == 0 && i != n - 1
  }

  /** The first `k` entries with the commas `Mark` puts after them. */
  function DelimitedPrefix(ds: seq<nat>, k: nat): string
    requires k <= |ds|
  {
    if k == 0 then ""
    else DelimitedPrefix(ds, k - 1) + NatToString(ds[k - 1]) + (if Mark(|ds|, k - 1) then "," else "")
  }

  /** What `Display for Delimited` writes. */
  function Delimited(ds: seq<nat>): string {
    DelimitedPrefix(ds, |ds|)
  }

  /** `Display for Bigint`: each digit written in turn. */
  method Format(b: Bigint) returns (out: string)
    ensures out == Plain(b.digits)
  {
    out := "";
    for i := 0 to |b.digits|
      invariant out == PlainPrefix(b.digits, i)
    {
      out := out + NatToString(b.digits[i]);
    }
  }

  /** `Display for Delimited`: each digit written in turn, followed by a comma where `Mark` says. */
  method FormatDelimited(b: Bigint) returns (out: string)
    ensures out == Delimited(b.digits)
  {
    out := "";
    var len := |b.digits|;
    for i := 0 to len
      invariant out == DelimitedPrefix(b.digits, i)
    {
      var ind := len - 1 - i;
      var del := ind % 3 == 0 && i != len - 1;
      if del {
        out := out + NatToString(b.digits[i]) + ",";
      } else {
        out := out + NatToString(b.digits[i]);
      }
    }
  }

  // ---------------------------------------------------------------------
  // Properties of the two renderings
  // ---------------------------------------------------------------------

  predicate SingleDigits(ds: seq<nat>) {
    forall i :: 0 <= i < |ds| ==> ds[i] < 10
  }

  /** Writing out the digits a text was parsed into gives the text back. */
  lemma {:induction false} PlainPrefixOfParsed(s: string, ds: seq<nat>, k: nat)
    requires AllDigits(s) && |ds| == |s| && k <= |s|
    requires forall i :: 0 <= i < |s| ==> ds[i] == DigitValue(s[i])
    ensures PlainPrefix(ds, k) == s[..k]
  {
    if k > 0 {
      PlainPrefixOfParsed(s, ds, k - 1);
      assert NatToString(ds[k - 1]) == [DigitChar(ds[k - 1])];
      assert s[..k] == s[..k - 1] + [s[k - 1]];
    }
  }

  lemma FormatParsed(s: string, ds: seq<nat>)
    requires AllDigits(s) && |ds| == |s|
    requires forall i :: 0 <= i < |s| ==> ds[i] == DigitValue(s[i])
    ensures Plain(ds) == s
  {
    PlainPrefixOfParsed(s, ds, |s|);
    assert s[..|s|] == s;
  }

  /** The text with every comma taken out. */
  function RemoveCommas(s: string): (t: string)
    ensures |t| <= |s|
  {
    if |s| == 0 then ""
    else RemoveCommas(s[..|s| - 1]) + (if s[|s| - 1] == ',' then "" else [s[|s| - 1]])
  }

  function CountCommas(s: string): (n: nat)
    ensures n == |s| - |RemoveCommas(s)|
  {
    if |s| == 0 then 0
    else CountCommas(s[..|s| - 1]) + (if s[|s| - 1] == ',' then 1 else 0)
  }

  lemma {:induction false} RemoveCommasAppend(a: string, b: string)
    ensures RemoveCommas(a + b) == RemoveCommas(a) + RemoveCommas(b)
    decreases |b|
  {
    if |b| > 0 {
      var b' := b[..|b| - 1];
      assert (a + b)[..|a + b| - 1] == a + b';
      RemoveCommasAppend(a, b');
    } else {
      assert a + b == a;
    }
  }

  lemma {:induction false} RemoveCommasFromDigits(s: string)
    requires AllDigits(s)
    ensures RemoveCommas(s) == s
    decreases |s|
  {
    if |s| > 0 {
      RemoveCommasFromDigits(s[..|s| - 1]);
      assert s == s[..|s| - 1] + [s[|s| - 1]];
    }
  }

  lemma {:induction false} DelimitedPrefixWithoutCommas(ds: seq<nat>, k: nat)
    requires k <= |ds|
    ensures RemoveCommas(DelimitedPrefix(ds, k)) == PlainPrefix(ds, k)
  {
    if k > 0 {
      var piece := NatToString(ds[k - 1]);
      var comma: string := if Mark(|ds|, k - 1) then "," else "";
      DelimitedPrefixWithoutCommas(ds, k - 1);
      RemoveCommasAppend(DelimitedPrefix(ds, k - 1) + piece, comma);
      RemoveCommasAppend(DelimitedPrefix(ds, k - 1), piece);
      RemoveCommasFromDigits(piece);
      assert RemoveCommas(comma) == "" by {
        if comma == "," {
          assert RemoveCommas(comma) == RemoveCommas("") + "";
        }
      }
    }
  }

  /** Taking the commas out of the delimited rendering gives the plain one. */
  lemma DelimitedWithoutCommas(ds: seq<nat>)
    ensures RemoveCommas(Delimited(ds)) == Plain(ds)
  {
    DelimitedPrefixWithoutCommas(ds, |ds|);
  }

  /** How many of the first `k` entries `Mark` puts a comma after. */
  function MarksBefore(n: nat, k: nat): nat
    requires k <= n
  {
    if k == 0 then 0 else MarksBefore(n, k - 1) + (if Mark(n, k - 1) then 1 else 0)
  }

  /** Entries before the last one are marked once in every three, counted from the right. */
  lemma {:induction false} MarksBeforeCount(n: nat, k: nat)
    requires k < n
    ensures MarksBefore(n, k) == (n - 1) / 3 - (n - 1 - k) / 3
  {
    if k > 0 {
      MarksBeforeCount(n, k - 1);
      var a := n - 1 - k;
      assert (a + 1) / 3 == a / 3 + (if (a + 1) % 3 == 0 then 1 else 0);
    }
  }

  lemma {:induction false} DelimitedPrefixLength(ds: seq<nat>, k: nat)
    requires SingleDigits(ds) && k <= |ds|
    ensures |DelimitedPrefix(ds, k)| == k + MarksBefore(|ds|, k)
  {
    if k > 0 {
      DelimitedPrefixLength(ds, k - 1);
      assert |NatToString(ds[k - 1])| == 1;
    }
  }

  lemma {:induction false} PlainPrefixLength(ds: seq<nat>, k: nat)
    requires SingleDigits(ds) && k <= |ds|
    ensures |PlainPrefix(ds, k)| == k
  {
    if k > 0 {
      PlainPrefixLength(ds, k - 1);
      assert |NatToString(ds[k - 1])| == 1;
    }
  }

  /**
   * A number of `n >= 1` digits gets `(n - 1) / 3` commas, so up to three
   * digits print as they are.
   */
  lemma DelimitedCommaCount(ds: seq<nat>)
    requires SingleDigits(ds) && |ds| >= 1
    ensures CountCommas(Delimited(ds)) == (|ds| - 1) / 3
    ensures |Delimited(ds)| == |ds| + (|ds| - 1) / 3
    ensures |ds| <= 3 ==> Delimited(ds) == Plain(ds)
  {
    var n := |ds|;
    DelimitedPrefixLength(ds, n);
    PlainPrefixLength(ds, n);
    MarksBeforeCount(n, n - 1);
    assert !Mark(n, n - 1);
    DelimitedWithoutCommas(ds);
    if n <= 3 {
      assert RemoveCommas(Delimited(ds)) == Delimited(ds) by {
        NoCommaRemoved(Delimited(ds));
      }
    }
  }

  lemma {:induction false} NoCommaRemoved(s: string)
    requires CountCommas(s) == 0
    ensures RemoveCommas(s) == s
    decreases |s|
  {
    if |s| > 0 {
      NoCommaRemoved(s[..|s| - 1]);
      assert s == s[..|s| - 1] + [s[|s| - 1]];
    }
  }

  /** The delimited rendering of a non-empty number neither starts nor ends with a comma. */
  lemma DelimitedEnds(ds: seq<nat>)
    requires |ds| >= 1
    ensures Delimited(ds)[0] != ',' && Delimited(ds)[|Delimited(ds)| - 1] != ','
  {
    var n := |ds|;
    assert !Mark(n, n - 1);
    var last := NatToString(ds[n - 1]);
    assert Delimited(ds) == DelimitedPrefix(ds, n - 1) + last + "";
    DelimitedPrefixStart(ds, n);
  }

  lemma {:induction false} DelimitedPrefixStart(ds: seq<nat>, k: nat)
    requires 1 <= k <= |ds|
    ensures |DelimitedPrefix(ds, k)| >= 1 && DelimitedPrefix(ds, k)[0] == NatToString(ds[0])[0]
  {
    if k > 1 {
      DelimitedPrefixStart(ds, k - 1);
    }
  }
}
