/**
 * String helpers from the .NET base library that the request's convenience
 * overloads rely on: decimal formatting of an `int`, searching for a character,
 * and `string.Join`. Each comes with the inverse used to state what it means.
 */
module Text {
  import opened Wrappers

  predicate IsDigit(c: char) {
    '0' <= c <= '9'
  }

  predicate AllDigits(s: string) {
    forall i :: 0 <= i < |s| ==> IsDigit(s[i])
  }

  function DigitChar(d: nat): (c: char)
    requires d < 10
    ensures IsDigit(c)
  {
    ('0' as int + d) as char
  }

  function DigitValue(c: char): (d: nat)
    requires IsDigit(c)
    ensures d < 10
  {
    c as int - '0' as int
  }

  /** The decimal digits of `n`, most significant first, without leading zeros. */
  function Digits(n: nat): (s: string)
    ensures |s| > 0 && AllDigits(s)
    decreases n
  {
    if n < 10 then [DigitChar(n)] else Digits(n / 10) + [DigitChar(n % 10)]
  }

  /** The value of a string of decimal digits. */
  function ParseDigits(s: string): nat
    requires AllDigits(s)
  {
    if |s| == 0 then 0 else ParseDigits(s[..|s| - 1]) * 10 + DigitValue(s[|s| - 1])
  }

  /** `int.ToString()` under the invariant culture: an optional '-' followed by the digits. */
  function FormatInt(n: int): (s: string)
    ensures ':' !in s
  {
    if n < 0 then "-" + Digits(-n) else Digits(n)
  }

  /** Reads back what `FormatInt` writes; anything else is rejected. */
  function ParseInt(s: string): Option<int> {
    if |s| > 1 && s[0] == '-' && AllDigits(s[1..]) then Some(-(ParseDigits(s[1..]) as int))
    else if |s| > 0 && AllDigits(s) then Some(ParseDigits(s))
    else None
  }

  lemma {:induction false} DigitsRoundTrip(n: nat)
    ensures ParseDigits(Digits(n)) == n
    decreases n
  {
    if n >= 10 {
      var s := Digits(n);
      assert s[..|s| - 1] == Digits(n / 10);
      DigitsRoundTrip(n / 10);
    }
  }

  /** Formatting an integer and parsing it back gives the integer. */
  lemma FormatIntRoundTrip(n: int)
    ensures ParseInt(FormatInt(n)) == Some(n)
  {
    if n < 0 {
      assert FormatInt(n)[1..] == Digits(-n);
      DigitsRoundTrip(-n);
    } else {
      DigitsRoundTrip(n);
    }
  }

  /** The position of the first occurrence of `c` in `s`. */
  function IndexOf(s: string, c: char): (r: Option<nat>)
    ensures r.Some? ==> r.value < |s| && s[r.value] == c && c !in s[..r.value]
    ensures r.None? ==> c !in s
  {
    if |s| == 0 then None
    else if s[0] == c then Some(0)
    else match IndexOf(s[1..], c)
      case None => None
      case Some(i) => Some(i + 1)
  }

  /** The position of the last occurrence of `c` in `s`. */
  function LastIndexOf(s: string, c: char): (r: Option<nat>)
    ensures r.Some? ==> r.value < |s| && s[r.value] == c && c !in s[r.value + 1..]
    ensures r.None? ==> c !in s
  {
    if |s| == 0 then None
    else if s[|s| - 1] == c then Some(|s| - 1)
    else LastIndexOf(s[..|s| - 1], c)
  }

  /** In `a + [c] + b`, the first `c` is the one after `a` when `a` has none. */
  lemma IndexOfAfterPrefix(a: string, c: char, b: string)
    requires c !in a
    ensures IndexOf(a + [c] + b, c) == Some(|a|)
  {
    assert (a + [c] + b)[|a|] == c;
  }

  /** In `a + [c] + b`, the last `c` is the one before `b` when `b` has none. */
  lemma LastIndexOfBeforeSuffix(a: string, c: char, b: string)
    requires c !in b
    ensures LastIndexOf(a + [c] + b, c) == Some(|a|)
  {
    assert (a + [c] + b)[|a|] == c;
  }

  function TotalLength(values: seq<string>): nat {
    if |values| == 0 then 0 else |values[0]| + TotalLength(values[1..])
  }

  /**
   * `string.Join(separator, values)`: the values in order with the separator
   * between each two neighbours; no values give the empty string.
   */
  function Join(separator: string, values: seq<string>): (r: string)
    ensures |r| == TotalLength(values) + if |values| == 0 then 0 else (|values| - 1) * |separator|
  {
    if |values| == 0 then ""
    else if |values| == 1 then values[0]
    else values[0] + separator + Join(separator, values[1..])
  }

  /** Cuts `s` at every occurrence of `c`; the partner of `Join` for one-character separators. */
  function Split(s: string, c: char): (r: seq<string>)
    ensures |r| > 0
    decreases |s|
  {
    match IndexOf(s, c)
    case None => [s]
    case Some(i) => [s[..i]] + Split(s[i + 1..], c)
  }

  /** Joining a single value gives that value unchanged; joining none gives "". */
  lemma JoinSingleAndEmpty(separator: string, value: string)
    ensures Join(separator, [value]) == value
    ensures Join(separator, []) == ""
  {
  }

  /** Joining two non-empty runs of values puts one separator between their joins. */
  lemma {:induction false} JoinAppend(separator: string, a: seq<string>, b: seq<string>)
    requires |a| > 0 && |b| > 0
    ensures Join(separator, a + b) == Join(separator, a) + separator + Join(separator, b)
    decreases |a|
  {
    if |a| == 1 {
      assert (a + b)[1..] == b;
    } else {
      assert (a + b)[1..] == a[1..] + b;
      JoinAppend(separator, a[1..], b);
    }
  }

  /**
   * With a one-character separator that no value contains, the joined string
   * splits back into exactly the values, in order.
   */
  lemma {:induction false} JoinSplitRoundTrip(c: char, values: seq<string>)
    requires |values| > 0
    requires forall i :: 0 <= i < |values| ==> c !in values[i]
    ensures Split(Join([c], values), c) == values
    decreases |values|
  {
    if |values| == 1 {
      assert IndexOf(values[0], c) == None;
    } else {
      var rest := Join([c], values[1..]);
      assert Join([c], values) == values[0] + [c] + rest;
      IndexOfAfterPrefix(values[0], c, rest);
      var s := values[0] + [c] + rest;
      assert s[..|values[0]|] == values[0];
      assert s[|values[0]| + 1..] == rest;
      JoinSplitRoundTrip(c, values[1..]);
    }
  }
}
