/** The index arithmetic behind the gift modal of script.js: JavaScript's
    remainder, the fallback of a gift value to index 0, and the "next" step. */
module QuoteIndex {

  /** The number of lines in the table. */
  const LINE_COUNT: int := 10

  /** JavaScript's truncating integer division: the quotient rounded toward zero. */
  function JsQuot(a: int, n: int): int
    requires n > 0
  {
    if a >= 0 then a / n else -((-a) / n)
  }

  /** JavaScript's `%` on integers: the remainder of truncating division, which
      takes the sign of the dividend (Dafny's own `%` never goes negative). */
  function JsRem(a: int, n: int): (r: int)
    requires n > 0
    ensures a >= 0 ==> 0 <= r < n
    ensures a < 0 ==> -n < r <= 0
    ensures a == JsQuot(a, n) * n + r
  {
    if a >= 0 then a % n else -((-a) % n)
  }

  /** The facts JsRem promises fix its result: no other value with the dividend's
      sign and a magnitude below the divisor differs from the dividend by a
      multiple of the divisor. */
  lemma JsRemUnique(a: int, n: int, q: int, r: int)
    requires n > 0
    requires a >= 0 ==> 0 <= r < n
    requires a < 0 ==> -n < r <= 0
    requires a == q * n + r
    ensures r == JsRem(a, n) && q == JsQuot(a, n)
  {
    var q0 := JsQuot(a, n);
    var r0 := JsRem(a, n);
    assert (q0 - q) * n == r - r0;
    if q0 > q {
      MulAtLeast(q0 - q, n);
    } else if q0 < q {
      MulAtLeast(q - q0, n);
    }
  }

  lemma MulAtLeast(d: int, n: int)
    requires d >= 1 && n > 0
    ensures d * n >= n
  {
  }

  /** For a non-negative dividend JavaScript and Dafny agree; for -1 they do not. */
  lemma JsRemVersusEuclid(a: int, n: int)
    requires n > 0
    ensures a >= 0 ==> JsRem(a, n) == a % n
    ensures JsRem(-1, 10) == -1 && -1 % 10 == 9
  {
  }

  /** A gift button's value attribute converted to a number: an integer, or NaN. */
  datatype GiftValue = Num(n: int) | NotANumber

  /** A NaN or zero gift value falls back to index 0; any other value is the index. */
  function GiftIndex(v: GiftValue): (i: int)
    ensures v.NotANumber? ==> i == 0
    ensures v.Num? ==> i == v.n
  {
    match v
    case Num(n) => if n == 0 then 0 else n
    case NotANumber => 0
  }

  /** The index showQuote records for an argument. */
  function LineIndex(lineIdx: int): (idx: int)
    ensures lineIdx >= 0 ==> 0 <= idx < LINE_COUNT
    ensures lineIdx < 0 ==> -LINE_COUNT < idx <= 0
  {
    JsRem(lineIdx, LINE_COUNT)
  }

  /** The line the "next" button moves to from line c. */
  function NextLine(c: int): (idx: int)
    ensures 0 <= c < LINE_COUNT ==> idx == if c == LINE_COUNT - 1 then 0 else c + 1
    ensures -LINE_COUNT < c < 0 ==> idx == c + 1
  {
    LineIndex(c + 1)
  }

  /** From line -1 onwards a "next" click moves to the following line mod 10. */
  lemma NextLineMod(c: int)
    requires c >= -1
    ensures NextLine(c) == (c + 1) % LINE_COUNT
  {
  }

  /** The line after k "next" clicks starting from line c. */
  function NextTimes(c: int, k: nat): (r: int)
    ensures 0 <= c < LINE_COUNT ==> 0 <= r < LINE_COUNT
    ensures -LINE_COUNT < c < LINE_COUNT ==> -LINE_COUNT < r < LINE_COUNT
  {
    if k == 0 then c else NextLine(NextTimes(c, k - 1))
  }

  /** From a line of the table, k "next" clicks advance k lines cyclically. */
  lemma {:induction false} NextTimesCycle(c: int, k: nat)
    requires 0 <= c < LINE_COUNT
    ensures NextTimes(c, k) == (c + k) % LINE_COUNT
  {
    if k == 0 {
      ModOf(c, 0, c);
    } else {
      NextTimesCycle(c, k - 1);
      CycleStep(c, k, NextTimes(c, k - 1));
    }
  }

  /** One more "next" click from where k - 1 clicks ended. */
  lemma CycleStep(c: nat, k: nat, y: int)
    requires k > 0 && y == (c + (k - 1)) % LINE_COUNT
    ensures NextLine(y) == (c + k) % LINE_COUNT
  {
    var x: nat := c + (k - 1);
    NextLineWrap(x);
    assert c + k == x + 1;
  }

  /** A "next" click from the remainder of x is the remainder of x + 1. */
  lemma NextLineWrap(x: nat)
    ensures NextLine(x % LINE_COUNT) == (x + 1) % LINE_COUNT
  {
    ModSucc(x);
  }

  /** Counting up by one modulo the table size wraps from the last line to 0. */
  lemma ModSucc(x: nat)
    ensures (x + 1) % LINE_COUNT == if x % LINE_COUNT == LINE_COUNT - 1 then 0 else x % LINE_COUNT + 1
  {
    var q := x / LINE_COUNT;
    assert x == q * LINE_COUNT + x % LINE_COUNT;
    if x % LINE_COUNT == LINE_COUNT - 1 {
      assert x + 1 == (q + 1) * LINE_COUNT;
    } else {
      assert x + 1 == q * LINE_COUNT + (x % LINE_COUNT + 1);
    }
  }

  /** The remainder of x is the r of any decomposition x = q * 10 + r with r in [0,10). */
  lemma ModOf(x: int, q: int, r: int)
    requires x == q * LINE_COUNT + r && 0 <= r < LINE_COUNT
    ensures x % LINE_COUNT == r
  {
  }

  /** Adding k to a line of the table gives it back modulo ten exactly when k is a
      multiple of ten. */
  lemma ModReturn(c: int, k: nat)
    requires 0 <= c < LINE_COUNT
    ensures (c + k) % LINE_COUNT == c <==> k % LINE_COUNT == 0
  {
    var q := k / LINE_COUNT;
    var r := k % LINE_COUNT;
    assert k == q * LINE_COUNT + r;
    if c + r < LINE_COUNT {
      ModOf(c + k, q, c + r);
    } else {
      ModOf(c + k, q + 1, c + r - LINE_COUNT);
    }
  }

  /** From a line of the table, k "next" clicks come back to the starting line
      exactly when k is a multiple of ten. */
  lemma NextTimesReturn(c: int, k: nat)
    requires 0 <= c < LINE_COUNT
    ensures NextTimes(c, k) == c <==> k % LINE_COUNT == 0
  {
    NextTimesCycle(c, k);
    ModReturn(c, k);
  }

  /** From a negative line (a negative gift index), each "next" click adds one
      until line 0 is reached. */
  lemma {:induction false} NextTimesFromNegative(c: int, k: nat)
    requires -LINE_COUNT < c < 0 && k <= -c
    ensures NextTimes(c, k) == c + k
  {
    if k > 0 {
      NextTimesFromNegative(c, k - 1);
    }
  }

  /** From a negative line, once enough "next" clicks have reached line 0, no
      further click leaves the table. */
  lemma {:induction false} NextTimesIntoTable(c: int, k: nat)
    requires -LINE_COUNT < c < 0 && k >= -c
    ensures 0 <= NextTimes(c, k) < LINE_COUNT
  {
    if k == -c {
      NextTimesFromNegative(c, k);
    } else {
      NextTimesIntoTable(c, k - 1);
    }
  }
}
