/**
 * Ownership shares of a hypercert: the units of an owner's tokens as a rounded percentage of all
 * units, computed on big integers and handed on as a JavaScript number.
 */
module HypercertShares {
  import opened Options
  import opened Sums
  import opened Text

  datatype Token = Token(owner: string, units: nat)

  function UnitsIn(t: Token): int { t.units }

  function Units(tokens: seq<Token>): int { Total(tokens, UnitsIn) }

  function TokensFor(tokens: seq<Token>, address: string): seq<Token> {
    if tokens == [] then []
    else
      var last := tokens[|tokens| - 1];
      TokensFor(tokens[..|tokens| - 1], address) + if last.owner == Lower(address) then [last] else []
  }

  lemma UnitsAdd(tokens: seq<Token>, owner: string, units: nat)
    ensures Units([]) == 0 && Units(tokens + [Token(owner, units)]) == Units(tokens) + units
  {
    TotalAppend(tokens, Token(owner, units), UnitsIn);
  }

  // -------------------------------------------------------------- rounding

  /** bn.js divRound: the quotient, one more if the remainder is at least half the divisor. */
  function DivRound(num: nat, den: nat): nat
    requires den > 0
  {
    var q, r, half := num / den, num % den, den / 2;
    if r == 0 || r < half || (den % 2 == 1 && r == half) then q else q + 1
  }

  /** It is the nearest integer to num / den, the upper one of two equally near. */
  lemma DivRoundNearest(num: nat, den: nat)
    requires den > 0
    ensures 2 * num - den < 2 * (DivRound(num, den) * den) <= 2 * num + den
  {
    assert num == num / den * den + num % den;
    assert (num / den + 1) * den == num / den * den + den;
  }

  lemma Nearest(num: nat, den: nat, q: nat)
    requires den > 0 && 2 * num - den < 2 * (q * den) <= 2 * num + den
    ensures q == DivRound(num, den)
  {
    var d := DivRound(num, den);
    DivRoundNearest(num, den);
    if q < d { MulLess(q + 1, d, den); }
    if d < q { MulLess(d + 1, q, den); }
  }

  lemma MulLess(a: int, b: int, k: nat)
    requires a <= b
    ensures a * k <= b * k && (a + 1) * k == a * k + k && a * k == (a - 1) * k + k
  {
  }

  lemma DivRoundMonotone(a: nat, b: nat, den: nat)
    requires den > 0 && a <= b
    ensures DivRound(a, den) <= DivRound(b, den)
  {
    var p, q := DivRound(a, den), DivRound(b, den);
    DivRoundNearest(a, den);
    DivRoundNearest(b, den);
    if q < p { MulLess(q + 1, p, den); }
  }

  // ------------------------------------------------------------- precision

  function Pow10(n: nat): (p: nat)
    ensures p >= 1
  {
    if n == 0 then 1 else 10 * Pow10(n - 1)
  }

  /** Numbers with at most 53 bits, which toNumber converts; larger ones make it throw. */
  const LIMIT: nat := 0x20_0000_0000_0000

  /** Decimal places asked for, clamped to 0..15, 2 if missing or negative; two more for the percent. */
  function Places(precision: Option<int>): nat {
    var p := if precision.None? || precision.value < 0 then 2 else if precision.value > 15 then 15 else precision.value;
    if p + 2 <= 15 then p + 2 else 15
  }

  function Scale(precision: Option<int>): nat { Pow10(Places(precision)) }

  lemma {:induction false} Pow10Grows(m: nat, n: nat)
    requires m <= n
    ensures Pow10(m) <= Pow10(n)
  {
    if m == n {
    } else {
      Pow10Grows(m, n - 1);
    }
  }

  /** Every scale is a number that a double represents exactly. */
  lemma ScaleFits(precision: Option<int>)
    ensures 100 <= Scale(precision) <= 1_000_000_000_000_000 < LIMIT
  {
    Pow10Grows(2, Places(precision));
    Pow10Grows(Places(precision), 15);
    assert Pow10(5) == 100000;
    assert Pow10(10) == 100000 * Pow10(5);
    assert Pow10(15) == 100000 * Pow10(10);
  }

  lemma {:induction false} Pow10Strict(m: nat, n: nat)
    requires m < n
    ensures Pow10(m) < Pow10(n)
  {
    if m == n - 1 {
    } else {
      Pow10Strict(m, n - 1);
    }
  }

  lemma Pow10Next(n: nat)
    ensures Pow10(n + 2) == 100 * Pow10(n)
  {
    assert Pow10(n + 2) == 10 * Pow10(n + 1);
  }

  /**
   * A precision of p decimal places is honoured up to 13: percentages then come in steps of 10^-p.
   * Asking for 14 or more, although 15 is nominally allowed, gives 13; none or a negative number gives 2.
   */
  lemma PrecisionHonoured(p: nat)
    ensures Scale(Some(p)) == 100 * Pow10(p) <==> p <= 13
    ensures p >= 13 ==> Scale(Some(p)) == 100 * Pow10(13)
    ensures forall n :: n < 0 ==> Scale(Some(n)) == Scale(None) == 100 * Pow10(2)
  {
    hide Pow10;
    Pow10Next(p);
    Pow10Next(13);
    Pow10Next(2);
    forall n: int | n < 0 ensures Scale(Some(n)) == Scale(None) == 100 * Pow10(2) {
      assert Places(Some(n)) == Places(None) == 2 + 2;
    }
    if p > 13 { Pow10Strict(13, p); }
  }

  /** The percentage in steps of 100 / p, unless dividing by zero or an oversized result throws. */
  function Shown(units: nat, total: nat, p: nat): Option<real>
    requires p > 0
  {
    if total == 0 then None
    else
      var q := DivRound(units * p, total);
      if q >= LIMIT then None else Some(q as real / p as real * 100.0)
  }

  function Percentage(units: nat, total: nat, precision: Option<int>): Option<real> {
    Shown(units, total, Scale(precision))
  }

  /** The rounded share stays below a limit exactly if the share itself stays half a unit below it. */
  lemma RoundedBelow(num: nat, den: nat, limit: nat)
    requires den > 0 && limit > 0
    ensures DivRound(num, den) < limit <==> 2 * num < 2 * (limit * den) - den
  {
    hide DivRound;
    var q := DivRound(num, den);
    DivRoundNearest(num, den);
    if q >= limit {
      MulLess(limit, q, den);
    } else {
      MulLess(q, limit - 1, den);
      MulLess(limit, limit, den);
    }
  }

  lemma ShareAtMostScale(units: nat, total: nat, p: nat)
    requires 0 < total && units <= total && p > 0
    ensures DivRound(units * p, total) <= p
  {
    hide DivRound;
    RoundedBelow(units * p, total, p + 1);
    MulLess(units, total, p);
    MulLess(p + 1, p + 1, total);
    assert total * p == p * total;
  }

  /**
   * A percentage is shown exactly if there are units in all and the owner's are not out of all
   * proportion to them; in particular whenever they are part of the total.
   */
  lemma PercentageDefined(units: nat, total: nat, precision: Option<int>)
    ensures Percentage(units, total, precision).Some? <==>
              total > 0 && 2 * (units * Scale(precision)) < 2 * (9_007_199_254_740_992 * total) - total
    ensures 0 < total && units <= total ==> Percentage(units, total, precision).Some?
  {
    hide Scale, DivRound;
    ScaleFits(precision);
    if total > 0 {
      RoundedBelow(units * Scale(precision), total, LIMIT);
      if units <= total { ShareAtMostScale(units, total, Scale(precision)); }
    }
  }

  /** Within half a step of the exact percentage, a step being 100 over the scale. */
  lemma PercentageNear(units: nat, total: nat, precision: Option<int>)
    requires Percentage(units, total, precision).Some?
    ensures var shown, exact := Percentage(units, total, precision).value, units as real / total as real * 100.0;
            var step := 100.0 / Scale(precision) as real;
            -step <= 2.0 * (shown - exact) <= step
  {
    hide Scale, DivRound;
    var p, q := Scale(precision), DivRound(units * Scale(precision), total);
    ScaleFits(precision);
    DivRoundNearest(units * p, total);
    ShownNear(units, p, q, total);
  }

  /** What is shown is a whole number of steps: the nearest to the exact share, the upper of two. */
  lemma PercentageInSteps(units: nat, total: nat, precision: Option<int>) returns (steps: nat)
    requires Percentage(units, total, precision).Some?
    ensures Percentage(units, total, precision).value * Scale(precision) as real == 100.0 * steps as real
    ensures 2 * (units * Scale(precision)) - total < 2 * (steps * total) <= 2 * (units * Scale(precision)) + total
  {
    hide Scale, DivRound;
    ScaleFits(precision);
    steps := DivRound(units * Scale(precision), total);
    DivRoundNearest(units * Scale(precision), total);
    Restore(steps as real, Scale(precision) as real);
  }

  lemma Restore(q: real, p: real)
    requires p > 0.0
    ensures q / p * 100.0 * p == 100.0 * q
  {
    var x := q / p;
    assert x * p == q;
    assert x * 100.0 * p == 100.0 * (x * p);
  }

  lemma AsReals(u: int, p: int, q: int, t: int)
    requires 2 * (u * p) - t <= 2 * (q * t) <= 2 * (u * p) + t
    ensures 2.0 * (u as real * p as real) - t as real <= 2.0 * (q as real * t as real)
              <= 2.0 * (u as real * p as real) + t as real
  {
    assert (u * p) as real == u as real * p as real;
    assert (q * t) as real == q as real * t as real;
  }

  lemma ShownNear(u: nat, p: nat, q: nat, t: nat)
    requires p > 0 && t > 0
    requires 2 * (u * p) - t <= 2 * (q * t) <= 2 * (u * p) + t
    ensures var step := 100.0 / p as real;
            -step <= 2.0 * (q as real / p as real * 100.0 - u as real / t as real * 100.0) <= step
  {
    AsReals(u, p, q, t);
    RoundedRatio(u as real, t as real, p as real, q as real);
  }

  lemma RoundedRatio(u: real, t: real, p: real, q: real)
    requires t > 0.0 && p > 0.0
    requires 2.0 * (u * p) - t <= 2.0 * (q * t) <= 2.0 * (u * p) + t
    ensures -(100.0 / p) <= 2.0 * (q / p * 100.0 - u / t * 100.0) <= 100.0 / p
  {
    var a, b, e := q / p, u / t, 1.0 / p;
    assert q == a * p && u == b * t && e * p == 1.0;
    var d := a - b;
    var w := Scaled(a, b, u, q, p, t, d);
    Cancel(d * p, t, w);
    Half(d, p, e);
    assert 100.0 / p == 100.0 * e;
  }

  lemma Scaled(a: real, b: real, u: real, q: real, p: real, t: real, d: real) returns (w: real)
    requires u == b * t && q == a * p && a == b + d
    requires 2.0 * (u * p) - t <= 2.0 * (q * t) <= 2.0 * (u * p) + t
    ensures w == d * p * t && -t <= 2.0 * w <= t
  {
    w := q * t - u * p;
    assert q * t == b * p * t + d * p * t;
    assert u * p == b * p * t;
  }

  lemma Cancel(x: real, t: real, w: real)
    requires t > 0.0 && w == x * t && -t <= 2.0 * w <= t
    ensures -1.0 <= 2.0 * x <= 1.0
  {
    assert (2.0 * x - 1.0) * t == 2.0 * w - t <= 0.0;
    assert (2.0 * x + 1.0) * t == 2.0 * w + t >= 0.0;
  }

  lemma Half(d: real, p: real, e: real)
    requires e * p == 1.0 && e > 0.0 && -1.0 <= 2.0 * (d * p) <= 1.0
    ensures -(100.0 * e) <= 2.0 * (d * 100.0) <= 100.0 * e
  {
    var x := d * p;
    assert x * e == d * (p * e) == d;
    assert (1.0 - 2.0 * x) * e >= 0.0;
    assert (1.0 + 2.0 * x) * e >= 0.0;
    assert (1.0 - 2.0 * x) * e == e - 2.0 * (x * e);
    assert (1.0 + 2.0 * x) * e == e + 2.0 * (x * e);
  }

  /** More units never show as a smaller percentage. */
  lemma PercentageMonotone(a: nat, b: nat, total: nat, precision: Option<int>)
    requires a <= b && Percentage(b, total, precision).Some?
    ensures Percentage(a, total, precision).Some?
    ensures Percentage(a, total, precision).value <= Percentage(b, total, precision).value
  {
    hide Scale, DivRound;
    var p := Scale(precision);
    ScaleFits(precision);
    MulLess(a, b, p);
    DivRoundMonotone(a * p, b * p, total);
    RatioMonotone(DivRound(a * p, total) as real, DivRound(b * p, total) as real, p as real);
  }

  lemma RatioMonotone(a: real, b: real, p: real)
    requires a <= b && p > 0.0
    ensures a / p * 100.0 <= b / p * 100.0
  {
    var x, y := a / p, b / p;
    assert x * p == a && y * p == b;
    assert (y - x) * p == b - a;
    RealSign(y - x, p);
  }

  lemma RealSign(d: real, p: real)
    requires p > 0.0 && d * p >= 0.0
    ensures d >= 0.0
  {
  }

  // ----------------------------------------------------------- all owners

  predicate DistinctOwners(owners: seq<string>) {
    forall i, j :: 0 <= i < j < |owners| ==> Lower(owners[i]) != Lower(owners[j])
  }

  /** Every token is found under one of the given names. */
  predicate Covers(owners: seq<string>, tokens: seq<Token>) {
    forall t :: t in tokens ==> exists o :: o in owners && Lower(o) == t.owner
  }

  function Held(tokens: seq<Token>): string -> int { o => Units(TokensFor(tokens, o)) }

  function PartOf(t: Token): string -> int { o => if Lower(o) == t.owner then t.units else 0 }

  lemma {:induction false} OneOwner(owners: seq<string>, t: Token)
    requires DistinctOwners(owners)
    ensures Total(owners, PartOf(t)) == if exists o :: o in owners && Lower(o) == t.owner then t.units else 0
  {
    hide Lower;
    if owners == [] {
    } else {
      var front, last := owners[..|owners| - 1], owners[|owners| - 1];
      assert owners == front + [last];
      OneOwner(front, t);
    }
  }

  lemma TokensForAppend(front: seq<Token>, t: Token, o: string)
    ensures TokensFor(front + [t], o) == TokensFor(front, o) + if t.owner == Lower(o) then [t] else []
  {
    hide Lower;
    assert (front + [t])[..|front|] == front;
  }

  lemma HeldAppend(front: seq<Token>, t: Token, o: string)
    ensures Held(front + [t])(o) == Held(front)(o) + PartOf(t)(o)
  {
    hide Lower, TokensFor;
    TokensForAppend(front, t, o);
    assert Held(front + [t])(o) == Units(TokensFor(front + [t], o));
    if t.owner == Lower(o) {
      TotalAppend(TokensFor(front, o), t, UnitsIn);
    } else {
      assert TokensFor(front + [t], o) == TokensFor(front, o);
    }
  }

  /** Splitting the tokens by owner neither loses nor repeats units. */
  lemma {:induction false} OwnersPartition(owners: seq<string>, tokens: seq<Token>)
    requires DistinctOwners(owners) && Covers(owners, tokens)
    ensures Total(owners, Held(tokens)) == Units(tokens)
  {
    hide Lower;
    if tokens == [] {
      TotalZero(owners, Held(tokens));
    } else {
      var front, last := tokens[..|tokens| - 1], tokens[|tokens| - 1];
      assert tokens == front + [last] && last in tokens;
      OwnersPartition(owners, front);
      forall o | o in owners ensures Held(tokens)(o) == Held(front)(o) + PartOf(last)(o) { HeldAppend(front, last, o); }
      TotalAdds(owners, Held(front), PartOf(last), Held(tokens));
      OneOwner(owners, last);
    }
  }

  lemma {:induction false} UnitsNonNegative(tokens: seq<Token>)
    ensures Units(tokens) >= 0
  {
    if tokens == [] {
    } else {
      UnitsNonNegative(tokens[..|tokens| - 1]);
    }
  }

  /** The whole number behind an owner's percentage, in steps of the scale. */
  function Steps(tokens: seq<Token>, total: nat, scale: nat): string -> int
    requires total > 0
  {
    o => UnitsNonNegative(TokensFor(tokens, o)); DivRound(Units(TokensFor(tokens, o)) * scale, total)
  }

  /** `steps` times the total is `held` times the scale, give or take n halves of the total. */
  predicate Near(held: int, steps: int, n: nat, total: nat, scale: nat) {
    2 * (held * scale) - n * total <= 2 * (steps * total) <= 2 * (held * scale) + n * total
  }

  lemma RoundedNear(units: nat, total: nat, scale: nat)
    requires total > 0
    ensures Near(units, DivRound(units * scale, total), 1, total, scale)
  {
    hide DivRound;
    DivRoundNearest(units * scale, total);
  }

  lemma StepsNear(tokens: seq<Token>, total: nat, scale: nat, o: string)
    requires total > 0
    ensures Near(Held(tokens)(o), Steps(tokens, total, scale)(o), 1, total, scale)
  {
    hide Lower, DivRound, Total, Near, TokensFor;
    UnitsNonNegative(TokensFor(tokens, o));
    RoundedNear(Units(TokensFor(tokens, o)), total, scale);
  }

  lemma NearAdds(h1: int, s1: int, n: nat, h2: int, s2: int, total: nat, scale: nat)
    requires Near(h1, s1, n, total, scale) && Near(h2, s2, 1, total, scale)
    ensures Near(h1 + h2, s1 + s2, n + 1, total, scale)
  {
    assert (h1 + h2) * scale == h1 * scale + h2 * scale;
    assert (s1 + s2) * total == s1 * total + s2 * total;
    assert (n + 1) * total == n * total + total;
  }

  lemma {:induction false} StepsSum(owners: seq<string>, tokens: seq<Token>, total: nat, scale: nat)
    requires total > 0
    ensures Near(Total(owners, Held(tokens)), Total(owners, Steps(tokens, total, scale)), |owners|, total, scale)
  {
    hide Lower, DivRound, Units, TokensFor, Near;
    var held, steps := Held(tokens), Steps(tokens, total, scale);
    if owners == [] {
      NearZero(total, scale);
    } else {
      var front, o := owners[..|owners| - 1], owners[|owners| - 1];
      StepsSum(front, tokens, total, scale);
      StepsNear(tokens, total, scale, o);
      NearAdds(Total(front, held), Total(front, steps), |front|, held(o), steps(o), total, scale);
    }
  }

  lemma NearZero(total: nat, scale: nat)
    ensures Near(0, 0, 0, total, scale)
  {
  }

  /** The percentage shown for an owner is that many steps of 100 / scale. */
  lemma StepsShown(tokens: seq<Token>, total: nat, precision: Option<int>, o: string)
    requires total > 0 && Units(TokensFor(tokens, o)) >= 0
    requires Percentage(Units(TokensFor(tokens, o)), total, precision).Some?
    ensures Percentage(Units(TokensFor(tokens, o)), total, precision).value * Scale(precision) as real
            == 100.0 * Steps(tokens, total, Scale(precision))(o) as real
  {
    hide Scale, DivRound, Lower, TokensFor, Units, Percentage;
    var steps := PercentageInSteps(Units(TokensFor(tokens, o)), total, precision);
    Nearest(Units(TokensFor(tokens, o)) * Scale(precision), total, steps);
  }

  /** Shares of distinct owners who together hold all units add up to the scale, give or take half a step each. */
  lemma SharesAddUp(owners: seq<string>, tokens: seq<Token>, precision: Option<int>)
    requires DistinctOwners(owners) && Covers(owners, tokens) && Units(tokens) > 0
    ensures var sum := Total(owners, Steps(tokens, Units(tokens), Scale(precision)));
            2 * Scale(precision) - |owners| <= 2 * sum <= 2 * Scale(precision) + |owners|
  {
    hide Scale, Steps, DistinctOwners, Covers, Near;
    var total, scale := Units(tokens), Scale(precision);
    OwnersPartition(owners, tokens);
    StepsSum(owners, tokens, total, scale);
    NearAll(total, Total(owners, Steps(tokens, total, scale)), |owners|, scale);
  }

  lemma NearAll(total: nat, sum: int, n: nat, scale: nat)
    requires total > 0 && Near(total, sum, n, total, scale)
    ensures 2 * scale - n <= 2 * sum <= 2 * scale + n
  {
    var x: int := 2 * sum - 2 * scale;
    assert x * total == 2 * (sum * total) - 2 * (total * scale);
    assert (n - x) * total == n * total - x * total;
    assert (n + x) * total == n * total + x * total;
    IntSign(n - x, total);
    IntSign(n + x, total);
  }

  lemma IntSign(d: int, k: nat)
    requires k > 0 && d * k >= 0
    ensures d >= 0
  {
  }

  /**
   * A token is found under its own owner's name exactly when that name is in lower case: the argument
   * is lower-cased and the token's owner is not.
   */
  lemma FoundIffLowerCase(tokens: seq<Token>, i: nat)
    requires i < |tokens|
    ensures tokens[i] in TokensFor(tokens, tokens[i].owner) <==> Lower(tokens[i].owner) == tokens[i].owner
  {
    TokensForIff(tokens, tokens[i].owner, tokens[i]);
  }

  lemma {:induction false} TokensForIff(tokens: seq<Token>, address: string, t: Token)
    ensures t in TokensFor(tokens, address) <==> t in tokens && t.owner == Lower(address)
  {
    if tokens == [] {
    } else {
      assert tokens == tokens[..|tokens| - 1] + [tokens[|tokens| - 1]];
      TokensForIff(tokens[..|tokens| - 1], address, t);
    }
  }
}
