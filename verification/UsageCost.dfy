/** calculateUsageCost (packages/core/src/budget.ts): exact integer arithmetic, rounded up. */
module UsageCost {
  import opened Wrappers
  import opened Numbers

  const PER_MILLION: int := 1_000_000
  const PER_MINUTE: int := 60_000

  datatype Usage = Usage(
    inputTokens: int, outputTokens: int,
    cacheReadInputTokens: Option<int>, cacheCreation5mInputTokens: Option<int>, cacheCreation1hInputTokens: Option<int>,
    runtimeMs: int)

  datatype Rates = Rates(
    input: int, output: int,
    cacheRead: Option<int>, cacheCreation5m: Option<int>, cacheCreation1h: Option<int>,
    runtime: int)

  // A non-negative safe integer; anything else throws.
  predicate Amount(value: int) {
    0 <= value <= MAX_SAFE_INTEGER
  }

  function DivideUp(numerator: nat, denominator: nat): nat
    requires denominator > 0
  {
    if numerator == 0 then 0 else (numerator + denominator - 1) / denominator
  }

  function ToMicrodollars(value: int): Option<int> {
    if value > MAX_SAFE_INTEGER then None else Some(value)
  }

  function DerivedRate(value: int, numerator: nat, denominator: nat): Option<int>
    requires denominator > 0
  {
    if Amount(value) then ToMicrodollars(DivideUp(value * numerator, denominator)) else None
  }

  // The rate given, or the one derived from the input rate.
  function EffectiveRate(given: Option<int>, input: int, numerator: nat, denominator: nat): Option<int>
    requires denominator > 0
  {
    var rate := if given.Some? then given else DerivedRate(input, numerator, denominator);
    if rate.Some? && Amount(rate.value) then rate else None
  }

  // One kind of usage: how much of it, at what rate, per how many units. Six kinds are charged.
  datatype Line = Line(quantity: nat, rate: nat, per: nat)

  function LineFor(quantity: int, rate: Option<int>, per: nat): Option<Line> {
    if Amount(quantity) && rate.Some? && Amount(rate.value) then Some(Line(quantity, rate.value, per)) else None
  }

  function Lines(u: Usage, r: Rates): seq<Option<Line>> {
    [ LineFor(u.inputTokens, Some(r.input), PER_MILLION),
      LineFor(u.outputTokens, Some(r.output), PER_MILLION),
      LineFor(u.cacheReadInputTokens.GetOr(0), EffectiveRate(r.cacheRead, r.input, 1, 10), PER_MILLION),
      LineFor(u.cacheCreation5mInputTokens.GetOr(0), EffectiveRate(r.cacheCreation5m, r.input, 5, 4), PER_MILLION),
      LineFor(u.cacheCreation1hInputTokens.GetOr(0), EffectiveRate(r.cacheCreation1h, r.input, 2, 1), PER_MILLION),
      LineFor(u.runtimeMs, Some(r.runtime), PER_MINUTE) ]
  }

  predicate Chargeable(lines: seq<Option<Line>>) {
    forall i :: 0 <= i < |lines| ==> lines[i].Some? && lines[i].value.per > 0
  }

  function Charge(line: Line): nat
    requires line.per > 0
  {
    DivideUp(line.quantity * line.rate, line.per)
  }

  function Total(lines: seq<Option<Line>>): nat
    requires Chargeable(lines)
  {
    if lines == [] then 0 else Charge(lines[0].value) + Total(lines[1..])
  }

  function CalculateUsageCost(u: Usage, r: Rates): Option<int> {
    var lines := Lines(u, r);
    if Chargeable(lines) then ToMicrodollars(Total(lines)) else None
  }

  // ----- rounding up -----

  lemma Cancel(a: int, b: int, d: nat)
    requires d > 0 && a * d < b * d
    ensures a < b
  {
    if a >= b { MulKeepsOrder(b, a, d); }
  }

  lemma MulKeepsOrder(a: int, b: int, d: nat)
    requires a <= b
    ensures a * d <= b * d
  {
  }

  // Rounding up is the least integer at or above the quotient.
  lemma DivideUpBounds(n: nat, d: nat)
    requires d > 0
    ensures n <= DivideUp(n, d) * d < n + d
  {
    if n > 0 {
      var m := n + d - 1;
      assert m == (m / d) * d + m % d;
    }
  }

  lemma DivideUpLeast(n: nat, d: nat, q: int)
    requires d > 0 && n <= q * d
    ensures DivideUp(n, d) <= q
  {
    DivideUpBounds(n, d);
    assert (q + 1) * d == q * d + d;
    Cancel(DivideUp(n, d), q + 1, d);
  }

  lemma DivideUpMonotone(m: nat, n: nat, d: nat)
    requires d > 0 && m <= n
    ensures DivideUp(m, d) <= DivideUp(n, d)
  {
    DivideUpBounds(n, d);
    DivideUpLeast(m, d, DivideUp(n, d));
  }

  lemma DivideUpSplits(m: nat, n: nat, d: nat)
    requires d > 0
    ensures DivideUp(m + n, d) <= DivideUp(m, d) + DivideUp(n, d) <= DivideUp(m + n, d) + 1
  {
    var a, b, c := DivideUp(m, d), DivideUp(n, d), DivideUp(m + n, d);
    DivideUpBounds(m, d);
    DivideUpBounds(n, d);
    DivideUpBounds(m + n, d);
    Distribute(a, b, d);
    DivideUpLeast(m + n, d, a + b);
    Distribute(c, 2, d);
    Cancel(a + b, c + 2, d);
  }

  lemma Distribute(a: int, b: int, d: int)
    ensures (a + b) * d == a * d + b * d
  {
  }

  lemma RealCancel(x: real, y: real, d: real)
    requires d > 0.0
    ensures x * d <= y * d ==> x <= y
    ensures x * d < y * d ==> x < y
  {
    if x > y { assert (x - y) * d > 0.0; }
    if x >= y { assert (x - y) * d >= 0.0; }
  }

  lemma ChargeRounds(line: Line)
    requires line.per > 0
    ensures var exact := (line.quantity * line.rate) as real / line.per as real;
            exact <= Charge(line) as real < exact + 1.0
  {
    var n, d, q := line.quantity * line.rate, line.per, Charge(line);
    DivideUpBounds(n, d);
    var exact := n as real / d as real;
    assert exact * d as real == n as real;
    assert (q * d) as real == q as real * d as real;
    assert (exact + 1.0) * d as real == n as real + d as real;
    RealCancel(exact, q as real, d as real);
    RealCancel(q as real, exact + 1.0, d as real);
  }

  // ----- the cost, term by term -----

  // The least integer at or above x.
  predicate Ceiling(c: int, x: real) {
    x <= c as real < x + 1.0
  }

  // What is billed for a quantity at a rate per so many units, before rounding.
  ghost function Term(quantity: int, rate: int, per: real): real
    requires per > 0.0
  {
    quantity as real * rate as real / per
  }

  // A cache rate: the one given, or else a fraction of the input rate, rounded up.
  ghost predicate CacheRate(rate: int, given: Option<int>, fraction: real) {
    if given.Some? then rate == given.value else Ceiling(rate, fraction)
  }

  datatype CacheRates = CacheRates(read: int, creation5m: int, creation1h: int)

  ghost predicate CacheRatesOf(c: CacheRates, r: Rates) {
    && CacheRate(c.read, r.cacheRead, r.input as real / 10.0)
    && CacheRate(c.creation5m, r.cacheCreation5m, r.input as real * 1.25)
    && CacheRate(c.creation1h, r.cacheCreation1h, r.input as real * 2.0)
  }

  // The six terms, in the order they are added.
  ghost function Terms(u: Usage, r: Rates, c: CacheRates): seq<real> {
    [ Term(u.inputTokens, r.input, 1_000_000.0),
      Term(u.outputTokens, r.output, 1_000_000.0),
      Term(u.cacheReadInputTokens.GetOr(0), c.read, 1_000_000.0),
      Term(u.cacheCreation5mInputTokens.GetOr(0), c.creation5m, 1_000_000.0),
      Term(u.cacheCreation1hInputTokens.GetOr(0), c.creation1h, 1_000_000.0),
      Term(u.runtimeMs, r.runtime, 60_000.0) ]
  }

  // Every quantity and every rate is a non-negative safe integer, the derived rates included.
  predicate Billable(u: Usage, r: Rates) {
    && Amount(u.inputTokens) && Amount(u.outputTokens) && Amount(u.runtimeMs)
    && Amount(u.cacheReadInputTokens.GetOr(0)) && Amount(u.cacheCreation5mInputTokens.GetOr(0))
    && Amount(u.cacheCreation1hInputTokens.GetOr(0))
    && Amount(r.input) && Amount(r.output) && Amount(r.runtime)
    && Amount(r.cacheRead.GetOr(0))
    && (if r.cacheCreation5m.Some? then Amount(r.cacheCreation5m.value) else 5 * r.input <= 4 * MAX_SAFE_INTEGER)
    && (if r.cacheCreation1h.Some? then Amount(r.cacheCreation1h.value) else 2 * r.input <= MAX_SAFE_INTEGER)
  }

  lemma DivideUpIsCeiling(n: nat, d: nat)
    requires d > 0
    ensures Ceiling(DivideUp(n, d), n as real / d as real)
  {
    ChargeRounds(Line(n, 1, d));
    assert n * 1 == n;
  }

  lemma ProductAsReal(a: int, b: int)
    ensures (a * b) as real == a as real * b as real
  {
  }

  lemma TermIs(quantity: int, rate: int, per: nat)
    requires per > 0
    ensures Term(quantity, rate, per as real) == (quantity * rate) as real / per as real
  {
    ProductAsReal(quantity, rate);
  }

  lemma TermIsCharged(line: Line)
    requires line.per > 0
    ensures Ceiling(Charge(line), Term(line.quantity, line.rate, line.per as real))
  {
    ChargeRounds(line);
    TermIs(line.quantity, line.rate, line.per);
    hide Charge, Term;
  }

  // The rate a cache line is charged at, when there is one.
  lemma EffectiveRateIs(given: Option<int>, input: int, n: nat, d: nat)
    requires d > 0 && Amount(input)
    ensures var rate := EffectiveRate(given, input, n, d);
            && (given.Some? ==> rate == if Amount(given.value) then given else None)
            && (given.None? ==> (rate.Some? <==> input * n <= MAX_SAFE_INTEGER * d))
            && (rate.Some? ==> Amount(rate.value) && CacheRate(rate.value, given, (input * n) as real / d as real))
  {
    if given.None? {
      DivideUpIsCeiling(input * n, d);
      DivideUpBounds(input * n, d);
      if input * n <= MAX_SAFE_INTEGER * d {
        DivideUpLeast(input * n, d, MAX_SAFE_INTEGER);
      } else if DivideUp(input * n, d) <= MAX_SAFE_INTEGER {
        MulKeepsOrder(DivideUp(input * n, d), MAX_SAFE_INTEGER, d);
      }
    }
  }

  // What can be charged of which line depends on its own quantity and rate.
  lemma LineIs(u: Usage, r: Rates, lines: seq<Option<Line>>)
    requires lines == Lines(u, r)
    ensures Chargeable(lines) <==>
            && Amount(u.inputTokens) && Amount(r.input) && Amount(u.outputTokens) && Amount(r.output)
            && Amount(u.cacheReadInputTokens.GetOr(0)) && EffectiveRate(r.cacheRead, r.input, 1, 10).Some?
            && Amount(u.cacheCreation5mInputTokens.GetOr(0)) && EffectiveRate(r.cacheCreation5m, r.input, 5, 4).Some?
            && Amount(u.cacheCreation1hInputTokens.GetOr(0)) && EffectiveRate(r.cacheCreation1h, r.input, 2, 1).Some?
            && Amount(u.runtimeMs) && Amount(r.runtime)
  {
    assert |lines| == 6;
    if Chargeable(lines) {
      assert lines[0].Some? && lines[1].Some? && lines[2].Some? && lines[3].Some? && lines[4].Some? && lines[5].Some?;
    }
  }

  lemma FractionsAre(input: int)
    ensures (input * 1) as real / 10 as real == input as real / 10.0
    ensures (input * 5) as real / 4 as real == input as real * 1.25
    ensures (input * 2) as real / 1 as real == input as real * 2.0
  {
  }

  lemma BillableIsChargeable(u: Usage, r: Rates)
    ensures Chargeable(Lines(u, r)) <==> Billable(u, r)
  {
    LineIs(u, r, Lines(u, r));
    if Amount(r.input) {
      EffectiveRateIs(r.cacheRead, r.input, 1, 10);
      EffectiveRateIs(r.cacheCreation5m, r.input, 5, 4);
      EffectiveRateIs(r.cacheCreation1h, r.input, 2, 1);
      hide EffectiveRate, CacheRate, Lines, Chargeable;
    }
  }

  // The rates the cache lines are charged at.
  function CacheRatesFor(r: Rates): Option<CacheRates> {
    var read := EffectiveRate(r.cacheRead, r.input, 1, 10);
    var creation5m := EffectiveRate(r.cacheCreation5m, r.input, 5, 4);
    var creation1h := EffectiveRate(r.cacheCreation1h, r.input, 2, 1);
    if read.None? || creation5m.None? || creation1h.None? then None
    else Some(CacheRates(read.value, creation5m.value, creation1h.value))
  }

  lemma CacheRatesAre(r: Rates)
    requires Amount(r.input) && CacheRatesFor(r).Some?
    ensures var c := CacheRatesFor(r).value;
            CacheRatesOf(c, r) && Amount(c.read) && Amount(c.creation5m) && Amount(c.creation1h)
  {
    EffectiveRateIs(r.cacheRead, r.input, 1, 10);
    EffectiveRateIs(r.cacheCreation5m, r.input, 5, 4);
    EffectiveRateIs(r.cacheCreation1h, r.input, 2, 1);
    hide EffectiveRate, CacheRate;
    FractionsAre(r.input);
  }

  // The six lines carry the quantities, rates and units the terms are made of.
  lemma LinesAre(u: Usage, r: Rates)
    requires Billable(u, r)
    ensures CacheRatesFor(r).Some?
    ensures var c := CacheRatesFor(r).value; var lines := Lines(u, r);
            && CacheRatesOf(c, r) && Chargeable(lines) && |lines| == 6
            && lines[0].value == Line(u.inputTokens, r.input, 1_000_000)
            && lines[1].value == Line(u.outputTokens, r.output, 1_000_000)
            && lines[2].value == Line(u.cacheReadInputTokens.GetOr(0), c.read, 1_000_000)
            && lines[3].value == Line(u.cacheCreation5mInputTokens.GetOr(0), c.creation5m, 1_000_000)
            && lines[4].value == Line(u.cacheCreation1hInputTokens.GetOr(0), c.creation1h, 1_000_000)
            && lines[5].value == Line(u.runtimeMs, r.runtime, 60_000)
  {
    BillableIsChargeable(u, r);
    LineIs(u, r, Lines(u, r));
    CacheRatesAre(r);
    hide EffectiveRate, CacheRatesOf, Billable;
  }

  /**
   * The cost is the sum of six terms over the usage and the rates, each rounded up on its own; it is
   * refused exactly when an amount is out of range, or that sum is.
   */
  lemma {:induction false} CostIsExact(u: Usage, r: Rates) returns (c: CacheRates, parts: seq<int>)
    ensures !Billable(u, r) ==> CalculateUsageCost(u, r) == None
    ensures Billable(u, r) ==>
              && CacheRatesOf(c, r)
              && |parts| == 6 && (forall i :: 0 <= i < 6 ==> Ceiling(parts[i], Terms(u, r, c)[i]))
              && var sum := parts[0] + parts[1] + parts[2] + parts[3] + parts[4] + parts[5];
                 CalculateUsageCost(u, r) == if sum <= MAX_SAFE_INTEGER then Some(sum) else None
  {
    BillableIsChargeable(u, r);
    c, parts := CacheRates(0, 0, 0), [];
    if Billable(u, r) {
      LinesAre(u, r);
      c := CacheRatesFor(r).value;
      var lines := Lines(u, r);
      hide Lines, Billable, CacheRatesFor, CacheRatesOf, Charge, Term, Ceiling;
      parts := [ Charge(lines[0].value), Charge(lines[1].value), Charge(lines[2].value),
                 Charge(lines[3].value), Charge(lines[4].value), Charge(lines[5].value) ];
      forall i | 0 <= i < 6 ensures Ceiling(parts[i], Terms(u, r, c)[i]) {
        TermIsCharged(lines[i].value);
      }
      TotalOfSix(lines);
    }
  }

  lemma TotalOfSix(lines: seq<Option<Line>>)
    requires Chargeable(lines) && |lines| == 6
    ensures Total(lines) == Charge(lines[0].value) + Charge(lines[1].value) + Charge(lines[2].value)
                            + Charge(lines[3].value) + Charge(lines[4].value) + Charge(lines[5].value)
  {
    hide Charge;
    assert Total(lines[5..]) == Charge(lines[5].value);
    assert Total(lines[4..]) == Charge(lines[4].value) + Total(lines[4..][1..]) && lines[4..][1..] == lines[5..];
    assert Total(lines[3..]) == Charge(lines[3].value) + Total(lines[3..][1..]) && lines[3..][1..] == lines[4..];
    assert Total(lines[2..]) == Charge(lines[2].value) + Total(lines[2..][1..]) && lines[2..][1..] == lines[3..];
    assert Total(lines[1..]) == Charge(lines[1].value) + Total(lines[1..][1..]) && lines[1..][1..] == lines[2..];
  }

  // The cost without rounding.
  ghost function ExactCost(u: Usage, r: Rates, c: CacheRates): real {
    u.inputTokens as real * r.input as real / 1_000_000.0
    + u.outputTokens as real * r.output as real / 1_000_000.0
    + u.cacheReadInputTokens.GetOr(0) as real * c.read as real / 1_000_000.0
    + u.cacheCreation5mInputTokens.GetOr(0) as real * c.creation5m as real / 1_000_000.0
    + u.cacheCreation1hInputTokens.GetOr(0) as real * c.creation1h as real / 1_000_000.0
    + u.runtimeMs as real * r.runtime as real / 60_000.0
  }

  lemma ExactCostIsItsTerms(u: Usage, r: Rates, c: CacheRates)
    ensures var t := Terms(u, r, c);
            |t| == 6 && ExactCost(u, r, c) == t[0] + t[1] + t[2] + t[3] + t[4] + t[5]
  {
  }

  /** The cost is never below the exact cost and less than six microdollars above it. */
  lemma CostRounds(u: Usage, r: Rates) returns (c: CacheRates)
    requires CalculateUsageCost(u, r).Some?
    ensures CacheRatesOf(c, r)
    ensures ExactCost(u, r, c) <= CalculateUsageCost(u, r).value as real < ExactCost(u, r, c) + 6.0
  {
    var parts;
    c, parts := CostIsExact(u, r);
    ExactCostIsItsTerms(u, r, c);
    hide CacheRatesOf, Billable, Terms, ExactCost, CalculateUsageCost;
    var terms := Terms(u, r, c);
    assert forall i :: 0 <= i < 6 ==> terms[i] <= parts[i] as real < terms[i] + 1.0;
  }

  // ----- how costs compare -----

  // The same lines at the same rates, with no quantity larger.
  ghost predicate NoMore(a: seq<Option<Line>>, b: seq<Option<Line>>) {
    && Chargeable(a) && Chargeable(b) && |a| == |b|
    && forall i :: 0 <= i < |a| ==> a[i].value.rate == b[i].value.rate && a[i].value.per == b[i].value.per
                                    && a[i].value.quantity <= b[i].value.quantity
  }

  lemma {:induction false} TotalMonotone(a: seq<Option<Line>>, b: seq<Option<Line>>)
    requires NoMore(a, b)
    ensures Total(a) <= Total(b)
  {
    if a != [] {
      var x, y := a[0].value, b[0].value;
      assert x.quantity * x.rate <= y.quantity * y.rate;
      DivideUpMonotone(x.quantity * x.rate, y.quantity * y.rate, x.per);
      TotalMonotone(a[1..], b[1..]);
    }
  }

  ghost predicate SumOf(a: seq<Option<Line>>, b: seq<Option<Line>>, c: seq<Option<Line>>) {
    && NoMore(a, c) && NoMore(b, c)
    && forall i :: 0 <= i < |a| ==> c[i].value.quantity == a[i].value.quantity + b[i].value.quantity
  }

  lemma {:induction false} TotalSplits(a: seq<Option<Line>>, b: seq<Option<Line>>, c: seq<Option<Line>>)
    requires SumOf(a, b, c)
    ensures Total(c) <= Total(a) + Total(b) <= Total(c) + |c|
  {
    if c != [] {
      var x, y, z := a[0].value, b[0].value, c[0].value;
      assert z.quantity * z.rate == x.quantity * x.rate + y.quantity * y.rate;
      DivideUpSplits(x.quantity * x.rate, y.quantity * y.rate, z.per);
      TotalSplits(a[1..], b[1..], c[1..]);
    }
  }

  predicate LessUsage(a: Usage, b: Usage) {
    && a.inputTokens <= b.inputTokens && a.outputTokens <= b.outputTokens && a.runtimeMs <= b.runtimeMs
    && a.cacheReadInputTokens.GetOr(0) <= b.cacheReadInputTokens.GetOr(0)
    && a.cacheCreation5mInputTokens.GetOr(0) <= b.cacheCreation5mInputTokens.GetOr(0)
    && a.cacheCreation1hInputTokens.GetOr(0) <= b.cacheCreation1hInputTokens.GetOr(0)
  }

  function PlusUsage(a: Usage, b: Usage): Usage {
    Usage(a.inputTokens + b.inputTokens, a.outputTokens + b.outputTokens,
          Some(a.cacheReadInputTokens.GetOr(0) + b.cacheReadInputTokens.GetOr(0)),
          Some(a.cacheCreation5mInputTokens.GetOr(0) + b.cacheCreation5mInputTokens.GetOr(0)),
          Some(a.cacheCreation1hInputTokens.GetOr(0) + b.cacheCreation1hInputTokens.GetOr(0)),
          a.runtimeMs + b.runtimeMs)
  }

  lemma LinesOf(u: Usage, r: Rates)
    ensures |Lines(u, r)| == 6
    ensures forall i :: 0 <= i < 6 && Lines(u, r)[i].Some? ==>
              Lines(u, r)[i] == Some(Line(Quantity(u, i), Lines(u, r)[i].value.rate,
                                          if i < 5 then PER_MILLION else PER_MINUTE))
  {
  }

  function Quantity(u: Usage, i: nat): int {
    if i == 0 then u.inputTokens else if i == 1 then u.outputTokens
    else if i == 2 then u.cacheReadInputTokens.GetOr(0) else if i == 3 then u.cacheCreation5mInputTokens.GetOr(0)
    else if i == 4 then u.cacheCreation1hInputTokens.GetOr(0) else u.runtimeMs
  }

  lemma SameRates(a: Usage, b: Usage, r: Rates)
    requires Chargeable(Lines(a, r)) && Chargeable(Lines(b, r))
    ensures forall i :: 0 <= i < 6 ==> Lines(a, r)[i].value.rate == Lines(b, r)[i].value.rate
  {
  }

  predicate NonNegative(u: Usage) {
    && u.inputTokens >= 0 && u.outputTokens >= 0 && u.runtimeMs >= 0
    && u.cacheReadInputTokens.GetOr(0) >= 0
    && u.cacheCreation5mInputTokens.GetOr(0) >= 0 && u.cacheCreation1hInputTokens.GetOr(0) >= 0
  }

  // Whatever is no more than what can be charged can be charged.
  lemma LessIsChargeable(a: Usage, b: Usage, r: Rates)
    requires NonNegative(a) && LessUsage(a, b) && Chargeable(Lines(b, r))
    ensures NoMore(Lines(a, r), Lines(b, r))
  {
    var x, y := Lines(a, r), Lines(b, r);
    forall i | 0 <= i < 6 ensures x[i].Some? && x[i].value.per > 0 {
      assert y[i].Some?;
    }
    LinesOf(a, r);
    LinesOf(b, r);
    SameRates(a, b, r);
  }

  /** Using no more of anything costs no more, and never fails where using more does not. */
  lemma CostMonotone(a: Usage, b: Usage, r: Rates)
    requires NonNegative(a) && LessUsage(a, b) && CalculateUsageCost(b, r).Some?
    ensures CalculateUsageCost(a, r).Some? && CalculateUsageCost(a, r).value <= CalculateUsageCost(b, r).value
  {
    hide Lines;
    LessIsChargeable(a, b, r);
    TotalMonotone(Lines(a, r), Lines(b, r));
  }

  /**
   * Whatever can be billed at once can be billed in two parts, which costs at least as much, and at
   * most six microdollars more.
   */
  lemma CostSplits(a: Usage, b: Usage, r: Rates)
    requires NonNegative(a) && NonNegative(b) && CalculateUsageCost(PlusUsage(a, b), r).Some?
    ensures CalculateUsageCost(a, r).Some? && CalculateUsageCost(b, r).Some?
    ensures var whole := CalculateUsageCost(PlusUsage(a, b), r).value;
            whole <= CalculateUsageCost(a, r).value + CalculateUsageCost(b, r).value <= whole + 6
  {
    var c := PlusUsage(a, b);
    CostMonotone(a, c, r);
    CostMonotone(b, c, r);
    LinesOf(a, r);
    LinesOf(b, r);
    LinesOf(c, r);
    hide Lines;
    LessIsChargeable(a, c, r);
    LessIsChargeable(b, c, r);
    forall i | 0 <= i < 6 ensures Quantity(c, i) == Quantity(a, i) + Quantity(b, i) {
    }
    TotalSplits(Lines(a, r), Lines(b, r), Lines(c, r));
  }
}
