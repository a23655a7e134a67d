/** Decimal numbers as the protocol prints and reads them. */
module Decimals {
  import opened Bytes

  predicate AllDigits(t: Bytes) { forall i :: 0 <= i < |t| ==> IsDigit(t[i]) }

  function DigitsValue(t: Bytes): nat
    requires AllDigits(t)
  {
    if t == [] then 0 else DigitsValue(t[..|t| - 1]) * 10 + (t[|t| - 1] - 48)
  }

  function SkipDigits(s: Bytes, at: nat): (r: nat)
    requires at <= |s|
    ensures at <= r <= |s|
    ensures forall i :: at <= i < r ==> IsDigit(s[i])
    ensures r < |s| ==> !IsDigit(s[r])
    decreases |s| - at
  {
    if at < |s| && IsDigit(s[at]) then SkipDigits(s, at + 1) else at
  }

  /** What `%u` and `%zu` print. */
  function Decimal(n: nat): (r: Bytes)
    ensures |r| > 0 && AllDigits(r)
    ensures r[0] == 48 ==> n == 0 && |r| == 1
    ensures 0 !in r
  {
    if n < 10 then [48 + n] else Decimal(n / 10) + [48 + n % 10]
  }

  /** Printing loses nothing. */
  lemma {:induction false} DecimalValue(n: nat)
    ensures DigitsValue(Decimal(n)) == n
  {
    var t := Decimal(n);
    if n >= 10 {
      DecimalValue(n / 10);
      assert t[..|t| - 1] == Decimal(n / 10);
    } else {
      assert t[..0] == [];
    }
  }

  function Pow10(k: nat): (r: nat)
    ensures r > 0
  {
    if k == 0 then 1 else 10 * Pow10(k - 1)
  }

  /** How long a number prints: under `k` digits stay the numbers under the `k`-th power. */
  lemma {:induction false} DecimalLength(n: nat, k: nat)
    requires k > 0
    ensures |Decimal(n)| <= k <==> n < Pow10(k)
    decreases k
  {
    if k > 1 {
      if n >= 10 {
        DecimalLength(n / 10, k - 1);
      }
    } else {
      assert Pow10(1) == 10 * Pow10(0);
    }
  }

  lemma {:induction false} DigitsGrow(t: Bytes, k: nat)
    requires AllDigits(t) && k <= |t|
    ensures DigitsValue(t[..k]) <= DigitsValue(t)
    decreases |t|
  {
    if k < |t| {
      DigitsGrow(t[..|t| - 1], k);
      assert t[..|t| - 1][..k] == t[..k];
    } else {
      assert t[..k] == t;
    }
  }

  lemma NoDigits()
    ensures DigitsValue([]) == 0
  {}

  lemma DigitsSnoc(t: Bytes, b: byte)
    requires AllDigits(t) && IsDigit(b)
    ensures AllDigits(t + [b]) && DigitsValue(t + [b]) == DigitsValue(t) * 10 + (b - 48)
  {
    assert (t + [b])[..|t|] == t;
  }

  lemma {:induction false} DigitsRead(s: Bytes, at: nat, d: Bytes)
    requires Holds(s, at, d) && (forall i :: 0 <= i < |d| ==> IsDigit(d[i]))
    requires at + |d| == |s| || !IsDigit(s[at + |d|])
    ensures SkipDigits(s, at) == at + |d|
    decreases |d|
  {
    if d != [] {
      assert s[at] == s[at..at + |d|][0] == d[0];
      assert s[at + 1..at + |d|] == s[at..at + |d|][1..] == d[1..];
      DigitsRead(s, at + 1, d[1..]);
    }
  }

  /** The test made before multiplying is the test that matters. */
  lemma PastMax(value: nat, digit: nat, max: nat)
    requires digit < 10
    ensures value > (max - digit) / 10 <==> value * 10 + digit > max
  {}

  /** Twenty digits are enough for every 64-bit number. */
  lemma TwentyDigits()
    ensures Pow10(20) >= 0x1_0000_0000_0000_0000
  {
    assert Pow10(5) == 100_000;
    assert Pow10(10) == 100_000 * Pow10(5);
    assert Pow10(15) == 100_000 * Pow10(10);
    assert Pow10(20) == 100_000 * Pow10(15);
  }
}
