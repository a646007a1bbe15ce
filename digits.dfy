/** The digit arithmetic behind the mine counter and the timer: a number is
    shown in a fixed row of digit sprites, filled from the rightmost one by
    repeated `% 10` and `/= 10`. */
module Digits {

  function Pow10(n: nat): (r: nat)
    ensures r >= 1
  {
    if n == 0 then 1 else 10 * Pow10(n - 1)
  }

  /** The number a row of decimal digits spells, most significant first
      (read left to right, each digit shifting the earlier ones one place). */
  function Value(d: seq<int>): int {
    if d == [] then 0 else 10 * Value(d[..|d| - 1]) + d[|d| - 1]
  }

  predicate AllDigits(d: seq<int>) {
    forall i :: 0 <= i < |d| ==> 0 <= d[i] <= 9
  }

  /** Euclidean division by a positive number has a unique quotient and remainder. */
  lemma DivModUnique(n: int, m: int, a: int, b: int)
    requires m > 0 && n == a * m + b && 0 <= b < m
    ensures n / m == a && n % m == b
  {
    var q, r := n / m, n % m;
    assert n == q * m + r && 0 <= r < m;
    assert (a - q) * m == r - b;
    if a > q {
      MulAtLeast(a - q, m);
      assert false;
    } else if a < q {
      MulAtLeast(q - a, m);
      assert false;
    }
  }

  lemma MulAtLeast(x: int, m: int)
    requires x >= 1 && m > 0
    ensures x * m >= m
  {
  }

  /** One step of the digit loop: taking the last digit of n / P and dividing by ten again. */
  lemma DigitStep(n: nat, p: nat)
    requires p >= 1
    ensures (n / p) / 10 == n / (10 * p)
    ensures ((n / p) % 10) * p + n % p == n % (10 * p)
  {
    var q, r := n / p, n % p;
    var q1, s := q / 10, q % 10;
    Regroup(n, p, q, r, q1, s);
    DigitPlaceBound(s, p, r);
    DivModUnique(n, 10 * p, q1, s * p + r);
  }

  /** Splitting the quotient q of n by p into q1 tens and s units. */
  lemma Regroup(n: int, p: int, q: int, r: int, q1: int, s: int)
    requires n == q * p + r && q == q1 * 10 + s
    ensures n == q1 * (10 * p) + (s * p + r)
  {
    calc {
      n;
      q * p + r;
      (q1 * 10 + s) * p + r;
      q1 * (10 * p) + (s * p + r);
    }
  }

  /** A digit times p plus a remainder below p stays below 10 p. */
  lemma DigitPlaceBound(s: int, p: int, r: int)
    requires 0 <= s <= 9 && p >= 1 && 0 <= r < p
    ensures 0 <= s * p + r < 10 * p
  {
    assert (9 - s) * p >= 0;
  }

  /** A row of w digits spells a number below 10^w. */
  lemma {:induction false} ValueBound(d: seq<int>)
    requires AllDigits(d)
    ensures 0 <= Value(d) < Pow10(|d|)
  {
    if d != [] {
      ValueBound(d[..|d| - 1]);
    }
  }

  /** Two digit rows of the same width that spell the same number are equal:
      the digits shown are the decimal representation. */
  lemma {:induction false} DigitsUnique(d1: seq<int>, d2: seq<int>)
    requires |d1| == |d2| && AllDigits(d1) && AllDigits(d2) && Value(d1) == Value(d2)
    ensures d1 == d2
  {
    if d1 != [] {
      var n := |d1| - 1;
      ValueBound(d1[..n]);
      ValueBound(d2[..n]);
      DivModUnique(Value(d1), 10, Value(d1[..n]), d1[n]);
      DivModUnique(Value(d2), 10, Value(d2[..n]), d2[n]);
      DigitsUnique(d1[..n], d2[..n]);
      assert d1 == d1[..n] + [d1[n]];
      assert d2 == d2[..n] + [d2[n]];
    }
  }

  /** A leading digit x in front of s adds x times the place value of |s| digits. */
  lemma {:induction false} PrependDigit(x: int, s: seq<int>)
    ensures Value([x] + s) == x * Pow10(|s|) + Value(s)
  {
    if s != [] {
      var n := |s| - 1;
      assert ([x] + s)[..|s|] == [x] + s[..n];
      PrependDigit(x, s[..n]);
      assert 10 * (x * Pow10(n)) == x * Pow10(|s|);
    }
  }

  /** The digit loop of updateCounter and updateTimer: fill `width` digits from
      the right with the last digits of n. What is shown is n modulo 10^width. */
  method SplitDigits(n: nat, width: nat) returns (d: seq<int>)
    ensures |d| == width && AllDigits(d)
    ensures Value(d) == n % Pow10(width)
  {
    d := seq(width, _ => 0);
    var count := n;
    var i := width - 1;
    while i >= 0
      invariant -1 <= i < width && |d| == width
      invariant AllDigits(d)
      invariant count == n / Pow10(width - 1 - i)
      invariant Value(d[i + 1..]) == n % Pow10(width - 1 - i)
    {
      ghost var k: nat := width - 1 - i;
      var digit := count % 10;
      count := count / 10;
      ghost var done := d[i + 1..];
      d := d[i := digit];
      assert d[i..] == [digit] + done;
      assert Pow10(k + 1) == 10 * Pow10(k);
      DigitStep(n, Pow10(k));
      PrependDigit(digit, done);
      i := i - 1;
    }
    assert i == -1;
    assert d[i + 1..] == d;
    assert Value(d[i + 1..]) == n % Pow10(width - 1 - i);
    assert Value(d) == n % Pow10(width);
  }

  /** Dropping the leading digit leaves the number modulo the remaining place value. */
  lemma ValueTail(d: seq<int>)
    requires |d| > 0 && AllDigits(d)
    ensures Value(d[1..]) == Value(d) % Pow10(|d| - 1)
  {
    ValueBound(d[1..]);
    PrependDigit(d[0], d[1..]);
    assert [d[0]] + d[1..] == d;
    DivModUnique(Value(d), Pow10(|d| - 1), d[0], Value(d[1..]));
  }

  /** Taking n modulo 10 * p and then modulo p is taking it modulo p. */
  lemma ModOfMod(n: nat, p: nat)
    requires p >= 1
    ensures (n % (10 * p)) % p == n % p
  {
    var q, r := n / (10 * p), n % (10 * p);
    var a, b := r / p, r % p;
    assert n == (10 * q + a) * p + b by {
      calc {
        n;
        q * (10 * p) + r;
        q * (10 * p) + (a * p + b);
        (10 * q + a) * p + b;
      }
    }
    DivModUnique(n, p, 10 * q + a, b);
  }
}
