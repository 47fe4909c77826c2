/** Deriving spend from the token ledger and the rate card: u128 nanos, saturating into i64. */
module CostSpend {
  import opened Base
  import opened Ledger

  const NANOS_PER_CENT: nat := 10_000_000
  const NANOS_PER_MICRO: nat := 1_000
  const MICROS_PER_CENT: nat := 10_000
  /** The greatest rate for which four products of a u64 count always fit u128: 2^62. */
  const SAFE_RATE: nat := 0x4000_0000_0000_0000

  datatype Rate = Rate(input: nat, output: nat, cacheRead: nat, cacheWrite: nat)
  type Card = Option<map<string, Rate>>

  const ZERO_RATE := Rate(0, 0, 0, 0)

  /** No card prices everything at zero; a card prices only what it lists. */
  function RateFor(card: Card, model: string): Option<Rate> {
    if card.None? then Some(ZERO_RATE)
    else if model in card.value then Some(card.value[model])
    else None
  }

  function ExactCost(r: Rate, t: TierTokens): nat {
    t.input * r.input + t.output * r.output + t.cacheRead * r.cacheRead + t.cacheWrite * r.cacheWrite
  }

  /** The cost as u128 arithmetic yields it, wrapping as a release build does. */
  function CostNanos(r: Rate, t: TierTokens): nat {
    ExactCost(r, t) % U128_MOD
  }

  function Min(a: nat, b: nat): nat {
    if a < b then a else b
  }

  function RowCost(card: Card, row: ModelTokens): nat {
    var r := RateFor(card, row.model);
    if r.Some? then ExactCost(r.value, row.tokens) else 0
  }

  /** The exact nanos of a ledger. */
  function TotalNanos(card: Card, rows: seq<ModelTokens>): nat {
    if rows == [] then 0 else TotalNanos(card, rows[..|rows| - 1]) + RowCost(card, rows[|rows| - 1])
  }

  /** The nanos the derivation sums, each row's cost as u128 yields it. */
  function SummedNanos(card: Card, rows: seq<ModelTokens>): nat {
    if rows == [] then 0
    else SummedNanos(card, rows[..|rows| - 1]) + RowCost(card, rows[|rows| - 1]) % U128_MOD
  }

  /** No row's cost wraps. */
  predicate CostsFit(card: Card, rows: seq<ModelTokens>) {
    forall i :: 0 <= i < |rows| ==> RowCost(card, rows[i]) < U128_MOD
  }

  // ---- i64 and u128 arithmetic on non-negative values ----

  function ToI64(x: nat): nat {
    Min(x, I64_MAX)
  }

  function MulI64(a: nat, b: nat): nat {
    Min(a * b, I64_MAX)
  }

  function AddI64(a: nat, b: nat): nat {
    Min(a + b, I64_MAX)
  }

  function AddU128(a: nat, b: nat): nat {
    Min(a + b, U128_MOD - 1)
  }

  // ---- The derivations as written ----

  method SumNanos(card: Card, rows: seq<ModelTokens>) returns (nanos: nat)
    ensures nanos == Min(SummedNanos(card, rows), U128_MOD - 1)
  {
    nanos := 0;
    for i := 0 to |rows|
      invariant nanos == Min(SummedNanos(card, rows[..i]), U128_MOD - 1)
    {
      assert rows[..i + 1][..i] == rows[..i];
      var rate := RateFor(card, rows[i].model);
      if rate.Some? {
        nanos := AddU128(nanos, CostNanos(rate.value, rows[i].tokens));
      }
    }
    assert rows[..|rows|] == rows;
  }

  /** What the cents are to be: the floored token cost and the flat fee, pinned at the top of i64. */
  function Cents(nanos: nat, price: nat, feeRequests: nat): nat {
    Min(nanos / NANOS_PER_CENT + price * feeRequests, I64_MAX)
  }

  /** The cents derived for a ledger and `n` billable requests. */
  function DerivedCents(card: Card, price: nat, rows: seq<ModelTokens>, n: nat): (cents: nat)
    ensures cents <= I64_MAX
  {
    Cents(SummedNanos(card, rows), price, n)
  }

  method DeriveSpendCents(card: Card, price: nat, rows: seq<ModelTokens>, feeRequests: nat, includeFee: bool)
    returns (cents: nat)
    ensures cents == DerivedCents(card, price, rows, if includeFee then feeRequests else 0)
    ensures CostsFit(card, rows) ==>
      cents == Cents(TotalNanos(card, rows), price, if includeFee then feeRequests else 0)
  {
    var nanos := SumNanos(card, rows);
    cents := ToI64(nanos / NANOS_PER_CENT);
    SaturatedQuotient(SummedNanos(card, rows), NANOS_PER_CENT);
    if includeFee {
      var fee := MulI64(price, ToI64(feeRequests));
      SaturatedFee(price, feeRequests);
      cents := AddI64(cents, fee);
    }
    SumExactIff(card, rows);
  }

  /** The exact micro-units of a nano total and its fees. */
  function Micros(nanos: nat, price: nat, feeRequests: nat): nat {
    nanos / NANOS_PER_MICRO + price * MICROS_PER_CENT * feeRequests
  }

  function DerivedMicros(card: Card, price: nat, rows: seq<ModelTokens>, n: nat): (micros: nat)
    ensures micros <= I64_MAX
  {
    Min(Micros(SummedNanos(card, rows), price, n), I64_MAX)
  }

  method DeriveSpendMicros(card: Card, price: nat, rows: seq<ModelTokens>, feeRequests: nat, includeFee: bool)
    returns (micros: nat)
    ensures micros == DerivedMicros(card, price, rows, if includeFee then feeRequests else 0)
    ensures CostsFit(card, rows) ==>
      micros == Min(Micros(TotalNanos(card, rows), price, if includeFee then feeRequests else 0), I64_MAX)
  {
    var nanos := SumNanos(card, rows);
    micros := ToI64(nanos / NANOS_PER_MICRO);
    SaturatedQuotient(SummedNanos(card, rows), NANOS_PER_MICRO);
    if includeFee {
      var fee := MulI64(MulI64(price, MICROS_PER_CENT), ToI64(feeRequests));
      SaturatedMicroFee(price, feeRequests);
      micros := AddI64(micros, fee);
    } else {
      assert price * MICROS_PER_CENT * 0 == 0;
    }
    SumExactIff(card, rows);
  }

  lemma {:induction false} SummedAtMostTotal(card: Card, rows: seq<ModelTokens>)
    ensures SummedNanos(card, rows) <= TotalNanos(card, rows)
  {
    if rows != [] {
      SummedAtMostTotal(card, rows[..|rows| - 1]);
    }
  }

  /** The derivation sums the exact cost exactly when no row's cost reaches 2^128. */
  lemma {:induction false} SumExactIff(card: Card, rows: seq<ModelTokens>)
    ensures SummedNanos(card, rows) == TotalNanos(card, rows) <==> CostsFit(card, rows)
  {
    hide RowCost;
    if rows != [] {
      var n := |rows| - 1;
      SumExactIff(card, rows[..n]);
      SummedAtMostTotal(card, rows[..n]);
      assert forall i :: 0 <= i < n ==> rows[i] == rows[..n][i];
      assert CostsFit(card, rows) <==> CostsFit(card, rows[..n]) && RowCost(card, rows[n]) < U128_MOD;
    }
  }

  /** Saturating at 2^128 - 1 first loses nothing: that quotient is already past the top of i64. */
  lemma SaturatedQuotient(total: nat, d: nat)
    requires d == NANOS_PER_CENT || d == NANOS_PER_MICRO
    ensures Min(Min(total, U128_MOD - 1) / d, I64_MAX) == Min(total / d, I64_MAX)
  {
  }

  lemma Grows(a: nat, b: nat)
    ensures a > 0 ==> a * b >= b
  {
  }

  lemma Product(a: nat, b: nat, c: nat, d: nat)
    requires a <= b && c <= d
    ensures a * c <= b * d
  {
    assert a * c <= b * c <= b * d;
  }

  /** Clamping the request count before multiplying gives the clamped product. */
  lemma SaturatedFee(price: nat, n: nat)
    ensures MulI64(price, ToI64(n)) == Min(price * n, I64_MAX)
  {
    if n > I64_MAX && price > 0 {
      Grows(price, n);
      Grows(price, I64_MAX);
    }
  }

  lemma SaturatedMicroFee(price: nat, n: nat)
    ensures MulI64(MulI64(price, MICROS_PER_CENT), ToI64(n)) == Min(price * MICROS_PER_CENT * n, I64_MAX)
  {
    var p := price * MICROS_PER_CENT;
    SaturatedFee(Min(p, I64_MAX), n);
    if p > I64_MAX && n > 0 {
      Grows(n, p);
      Grows(n, I64_MAX);
    }
  }

  // ---- Consequences ----

  /** Rates up to 2^62 nanos never wrap, whatever the counts. */
  lemma SafeRatesFit(card: Card, rows: seq<ModelTokens>)
    requires forall i :: 0 <= i < |rows| ==>
      var t := rows[i].tokens;
      t.input < U64_MOD && t.output < U64_MOD && t.cacheRead < U64_MOD && t.cacheWrite < U64_MOD
    requires card.Some? ==> forall m :: m in card.value ==>
      var r := card.value[m];
      r.input <= SAFE_RATE && r.output <= SAFE_RATE && r.cacheRead <= SAFE_RATE && r.cacheWrite <= SAFE_RATE
    ensures CostsFit(card, rows)
  {
    forall i | 0 <= i < |rows| ensures RowCost(card, rows[i]) < U128_MOD {
      var r, t := RateFor(card, rows[i].model), rows[i].tokens;
      if r.Some? {
        Product(t.input, U64_MOD - 1, r.value.input, SAFE_RATE);
        Product(t.output, U64_MOD - 1, r.value.output, SAFE_RATE);
        Product(t.cacheRead, U64_MOD - 1, r.value.cacheRead, SAFE_RATE);
        Product(t.cacheWrite, U64_MOD - 1, r.value.cacheWrite, SAFE_RATE);
      }
    }
  }

  // ---- What each tier contributes ----

  function OfRate(r: Rate, tier: Tier): nat {
    match tier
    case Input => r.input
    case Output => r.output
    case CacheRead => r.cacheRead
    case CacheWrite => r.cacheWrite
  }

  /** The rate the card lists for a model's tier; nothing without a card or an entry. */
  function ListedRate(card: Card, model: string, tier: Tier): nat {
    if card.Some? && model in card.value then OfRate(card.value[model], tier) else 0
  }

  /** Ledger `b` is ledger `a` with `k` more tokens in one tier of row `i`. */
  ghost predicate RaisedBy(a: seq<ModelTokens>, b: seq<ModelTokens>, i: nat, tier: Tier, k: nat) {
    && i < |a| == |b| && b == a[i := b[i]] && a[i].model == b[i].model
    && forall t :: OfTier(b[i].tokens, t) == OfTier(a[i].tokens, t) + if t == tier then k else 0
  }

  lemma RowRaised(card: Card, a: ModelTokens, b: ModelTokens, tier: Tier, k: nat)
    requires a.model == b.model
    requires forall t :: OfTier(b.tokens, t) == OfTier(a.tokens, t) + if t == tier then k else 0
    ensures RowCost(card, b) == RowCost(card, a) + k * ListedRate(card, a.model, tier)
  {
    var s, t := a.tokens, b.tokens;
    assert OfTier(t, Input) == t.input && OfTier(t, Output) == t.output;
    assert OfTier(t, CacheRead) == t.cacheRead && OfTier(t, CacheWrite) == t.cacheWrite;
    var r := RateFor(card, a.model);
    if r.Some? {
      Distributes(s.input, k, r.value.input);
      Distributes(s.output, k, r.value.output);
      Distributes(s.cacheRead, k, r.value.cacheRead);
      Distributes(s.cacheWrite, k, r.value.cacheWrite);
    }
  }

  lemma Distributes(x: nat, k: nat, r: nat)
    ensures (x + k) * r == x * r + k * r
  {
  }

  /** Raising a row's count in one tier raises the total by that many times the rate the card lists for
      that model and that tier, and by nothing when it lists none. */
  lemma {:induction false} TierContributes(card: Card, a: seq<ModelTokens>, b: seq<ModelTokens>, i: nat, tier: Tier, k: nat)
    requires RaisedBy(a, b, i, tier, k)
    ensures TotalNanos(card, b) == TotalNanos(card, a) + k * ListedRate(card, a[i].model, tier)
  {
    var n := |a| - 1;
    if i < n {
      TierContributes(card, a[..n], b[..n], i, tier, k);
      assert a[n] == b[n];
    } else {
      assert a[..n] == b[..n];
      RowRaised(card, a[i], b[i], tier, k);
    }
  }

  /** A ledger of zero counts costs nothing. */
  lemma {:induction false} NothingCostsNothing(card: Card, rows: seq<ModelTokens>)
    requires forall i, t :: 0 <= i < |rows| ==> OfTier(rows[i].tokens, t) == 0
    ensures TotalNanos(card, rows) == 0
  {
    if rows != [] {
      var n := |rows| - 1;
      NothingCostsNothing(card, rows[..n]);
      assert OfTier(rows[n].tokens, Input) == 0 && OfTier(rows[n].tokens, Output) == 0;
      assert OfTier(rows[n].tokens, CacheRead) == 0 && OfTier(rows[n].tokens, CacheWrite) == 0;
    }
  }

  /** The same of the derived spend, when no row of the larger ledger reaches 2^128. */
  lemma TierIsBilled(card: Card, price: nat, a: seq<ModelTokens>, b: seq<ModelTokens>, i: nat, tier: Tier, k: nat, n: nat)
    requires RaisedBy(a, b, i, tier, k) && CostsFit(card, b)
    ensures var nanos := SummedNanos(card, a) + k * ListedRate(card, a[i].model, tier);
      && DerivedCents(card, price, b, n) == Cents(nanos, price, n)
      && DerivedMicros(card, price, b, n) == Min(Micros(nanos, price, n), I64_MAX)
  {
    forall j | 0 <= j < |a| ensures RowCost(card, a[j]) < U128_MOD {
      assert RowCost(card, b[j]) < U128_MOD;
      if j == i {
        RowRaised(card, a[i], b[i], tier, k);
      }
    }
    SumExactIff(card, a);
    SumExactIff(card, b);
    TierContributes(card, a, b, i, tier, k);
  }

  // ---- What is derived, and when it is monotone ----

  /** Row by row, the same models with no fewer tokens. */
  predicate NoFewer(a: seq<ModelTokens>, b: seq<ModelTokens>) {
    && |a| == |b|
    && forall i :: 0 <= i < |a| ==> a[i].model == b[i].model && TokensWithin(a[i].tokens, b[i].tokens)
  }

  lemma RowMonotone(card: Card, a: ModelTokens, b: ModelTokens)
    requires a.model == b.model && TokensWithin(a.tokens, b.tokens)
    ensures RowCost(card, a) <= RowCost(card, b)
  {
    var r, s, t := RateFor(card, a.model), a.tokens, b.tokens;
    if r.Some? {
      Product(s.input, t.input, r.value.input, r.value.input);
      Product(s.output, t.output, r.value.output, r.value.output);
      Product(s.cacheRead, t.cacheRead, r.value.cacheRead, r.value.cacheRead);
      Product(s.cacheWrite, t.cacheWrite, r.value.cacheWrite, r.value.cacheWrite);
    }
  }

  lemma {:induction false} NanosMonotone(card: Card, a: seq<ModelTokens>, b: seq<ModelTokens>)
    requires NoFewer(a, b)
    ensures TotalNanos(card, a) <= TotalNanos(card, b)
  {
    if a != [] {
      var n := |a| - 1;
      NanosMonotone(card, a[..n], b[..n]);
      RowMonotone(card, a[n], b[n]);
    }
  }

  lemma FewerFit(card: Card, a: seq<ModelTokens>, b: seq<ModelTokens>)
    requires NoFewer(a, b) && CostsFit(card, b)
    ensures CostsFit(card, a)
  {
    forall i | 0 <= i < |a| ensures RowCost(card, a[i]) < U128_MOD {
      RowMonotone(card, a[i], b[i]);
      assert RowCost(card, b[i]) < U128_MOD;
    }
  }

  /** More tokens or more billable requests never derive to less, when no row of the larger ledger
      wraps. */
  lemma SpendMonotone(card: Card, price: nat, a: seq<ModelTokens>, b: seq<ModelTokens>, m: nat, n: nat)
    requires NoFewer(a, b) && m <= n && CostsFit(card, b)
    ensures DerivedCents(card, price, a, m) <= DerivedCents(card, price, b, n)
    ensures DerivedMicros(card, price, a, m) <= DerivedMicros(card, price, b, n)
  {
    FewerFit(card, a, b);
    SumExactIff(card, a);
    SumExactIff(card, b);
    NanosMonotone(card, a, b);
    QuotientMonotone(SummedNanos(card, a), SummedNanos(card, b));
    Product(price, price, m, n);
    Product(price * MICROS_PER_CENT, price * MICROS_PER_CENT, m, n);
  }

  lemma QuotientMonotone(x: nat, y: nat)
    requires x <= y
    ensures x / NANOS_PER_CENT <= y / NANOS_PER_CENT && x / NANOS_PER_MICRO <= y / NANOS_PER_MICRO
  {
  }

  /** Every rate is a u64, as the card holds it. */
  predicate RatesInRange(card: Card) {
    card.Some? ==> forall m :: m in card.value ==>
      var r := card.value[m];
      r.input < U64_MOD && r.output < U64_MOD && r.cacheRead < U64_MOD && r.cacheWrite < U64_MOD
  }

  predicate TokensWithin(s: TierTokens, t: TierTokens) {
    s.input <= t.input && s.output <= t.output && s.cacheRead <= t.cacheRead && s.cacheWrite <= t.cacheWrite
  }

  /** One token less, in a tier that has one. */
  function OneLess(t: TierTokens): TierTokens
    requires t != ZERO_TOKENS
  {
    if t.input > 0 then t.(input := t.input - 1)
    else if t.output > 0 then t.(output := t.output - 1)
    else if t.cacheRead > 0 then t.(cacheRead := t.cacheRead - 1)
    else t.(cacheWrite := t.cacheWrite - 1)
  }

  lemma OneLessCost(r: Rate, t: TierTokens)
    requires r.input < U64_MOD && r.output < U64_MOD && r.cacheRead < U64_MOD && r.cacheWrite < U64_MOD
    requires t != ZERO_TOKENS
    ensures ExactCost(r, t) - U64_MOD < ExactCost(r, OneLess(t)) <= ExactCost(r, t)
  {
    var s := OneLess(t);
    assert s.input < t.input ==> s.input * r.input == t.input * r.input - r.input;
    assert s.output < t.output ==> s.output * r.output == t.output * r.output - r.output;
    assert s.cacheRead < t.cacheRead ==> s.cacheRead * r.cacheRead == t.cacheRead * r.cacheRead - r.cacheRead;
    assert s.cacheWrite < t.cacheWrite ==> s.cacheWrite * r.cacheWrite == t.cacheWrite * r.cacheWrite - r.cacheWrite;
  }

  /** Below a cost that wraps lies one that does not and is within one token of 2^128: take tokens away
      one at a time until the cost drops under. */
  lemma {:induction false} JustUnder(r: Rate, t: TierTokens) returns (s: TierTokens)
    requires r.input < U64_MOD && r.output < U64_MOD && r.cacheRead < U64_MOD && r.cacheWrite < U64_MOD
    requires ExactCost(r, t) >= U128_MOD
    ensures TokensWithin(s, t) && U128_MOD - U64_MOD <= ExactCost(r, s) < U128_MOD
    decreases t.input + t.output + t.cacheRead + t.cacheWrite
  {
    s := OneLess(t);
    OneLessCost(r, t);
    if ExactCost(r, s) >= U128_MOD {
      s := JustUnder(r, s);
    }
  }

  lemma {:induction false} RowAtMostSum(card: Card, rows: seq<ModelTokens>, i: nat)
    requires i < |rows|
    ensures RowCost(card, rows[i]) % U128_MOD <= SummedNanos(card, rows)
  {
    if i < |rows| - 1 {
      RowAtMostSum(card, rows[..|rows| - 1], i);
    }
  }

  /** Within a ledger with a row that wraps lies a smaller one that is pinned at the top of i64. */
  lemma SmallerIsPinned(card: Card, b: seq<ModelTokens>) returns (a: seq<ModelTokens>)
    requires RatesInRange(card) && !CostsFit(card, b)
    ensures NoFewer(a, b) && SummedNanos(card, a) >= U128_MOD - U64_MOD
  {
    var i :| 0 <= i < |b| && RowCost(card, b[i]) >= U128_MOD;
    var s := JustUnder(RateFor(card, b[i].model).value, b[i].tokens);
    a := b[i := ModelTokens(b[i].model, s)];
    RowAtMostSum(card, a, i);
  }

  lemma PinnedDerives(card: Card, price: nat, a: seq<ModelTokens>, n: nat)
    requires SummedNanos(card, a) >= U128_MOD - U64_MOD
    ensures DerivedCents(card, price, a, n) == I64_MAX && DerivedMicros(card, price, a, n) == I64_MAX
  {
    hide SummedNanos;
    QuotientMonotone(U128_MOD - U64_MOD, SummedNanos(card, a));
    Product(0, price, 0, n);
    Product(0, price * MICROS_PER_CENT, 0, n);
  }

  /** Nothing smaller derives to more than this ledger does. */
  ghost predicate TopsSmaller(card: Card, price: nat, b: seq<ModelTokens>, n: nat) {
    forall a, m: nat :: NoFewer(a, b) && m <= n ==>
      && DerivedCents(card, price, a, m) <= DerivedCents(card, price, b, n)
      && DerivedMicros(card, price, a, m) <= DerivedMicros(card, price, b, n)
  }

  /** Spend is monotone up to a ledger exactly when no row of it wraps, or it derives to the very top of
      i64 in both units. */
  lemma MonotoneExactlyWhen(card: Card, price: nat, b: seq<ModelTokens>, n: nat)
    requires RatesInRange(card)
    ensures TopsSmaller(card, price, b, n) <==>
      || CostsFit(card, b)
      || (DerivedCents(card, price, b, n) == I64_MAX && DerivedMicros(card, price, b, n) == I64_MAX)
  {
    hide DerivedCents, DerivedMicros, CostsFit;
    if CostsFit(card, b) {
      forall a, m: nat | NoFewer(a, b) && m <= n
        ensures DerivedCents(card, price, a, m) <= DerivedCents(card, price, b, n)
        ensures DerivedMicros(card, price, a, m) <= DerivedMicros(card, price, b, n)
      {
        SpendMonotone(card, price, a, b, m, n);
      }
    } else {
      var a := SmallerIsPinned(card, b);
      PinnedDerives(card, price, a, n);
      assert TopsSmaller(card, price, b, n) ==> DerivedCents(card, price, a, n) <= DerivedCents(card, price, b, n);
    }
  }

  /** All four tiers of one model at half of 2^64, the first tier `less` tokens short of it. */
  function HalfLedger(less: nat): seq<ModelTokens>
    requires less <= U64_MOD / 2
  {
    [ModelTokens("m", TierTokens(U64_MOD / 2 - less, U64_MOD / 2, U64_MOD / 2, U64_MOD / 2))]
  }

  const HALF_CARD: Card := Some(map["m" := Rate(U64_MOD / 2, U64_MOD / 2, U64_MOD / 2, U64_MOD / 2)])

  lemma OneRowSum(card: Card, row: ModelTokens)
    ensures SummedNanos(card, [row]) == RowCost(card, row) % U128_MOD
    ensures TotalNanos(card, [row]) == RowCost(card, row)
  {
    assert [row][..0] == [];
  }

  lemma HalfCost(less: nat)
    requires less <= 1
    ensures TotalNanos(HALF_CARD, HalfLedger(less)) == U128_MOD - less * (U64_MOD / 2)
    ensures SummedNanos(HALF_CARD, HalfLedger(less)) == if less == 0 then 0 else U128_MOD - U64_MOD / 2
  {
    OneRowSum(HALF_CARD, HalfLedger(less)[0]);
    var rate, tokens := HALF_CARD.value["m"], HalfLedger(less)[0].tokens;
    assert tokens.output * rate.output == U128_MOD / 4;
    assert tokens.input * rate.input == U128_MOD / 4 - less * (U64_MOD / 2);
  }

  /** A ledger that costs 2^128 nanos derives to nothing at all, fee apart. */
  lemma LargeRatesCanDeriveFree()
    ensures TotalNanos(HALF_CARD, HalfLedger(0)) == U128_MOD
    ensures DerivedCents(HALF_CARD, 0, HalfLedger(0), 0) == 0 && DerivedMicros(HALF_CARD, 0, HalfLedger(0), 0) == 0
  {
    HalfCost(0);
  }

  /** And one token less derives to the most there is: spend can fall as tokens rise. */
  lemma SpendCanFall()
    ensures NoFewer(HalfLedger(1), HalfLedger(0))
    ensures DerivedCents(HALF_CARD, 0, HalfLedger(1), 0) == I64_MAX
    ensures DerivedCents(HALF_CARD, 0, HalfLedger(0), 0) == 0
  {
    LargeRatesCanDeriveFree();
    HalfCost(1);
    PinnedDerives(HALF_CARD, 0, HalfLedger(1), 0);
  }

  /** The two projections agree: cents are micros over 10,000 whenever the micros fit i64. */
  lemma CentsAreMicrosOverTenThousand(nanos: nat, price: nat, n: nat)
    requires Micros(nanos, price, n) <= I64_MAX
    ensures Cents(nanos, price, n) == Micros(nanos, price, n) / MICROS_PER_CENT
  {
    assert price * MICROS_PER_CENT * n == MICROS_PER_CENT * (price * n);
    NestedQuotient(nanos, price * n);
  }

  lemma NestedQuotient(total: nat, fee: nat)
    ensures (total / NANOS_PER_MICRO + MICROS_PER_CENT * fee) / MICROS_PER_CENT == total / NANOS_PER_CENT + fee
  {
    var q := total / NANOS_PER_MICRO;
    assert (q + MICROS_PER_CENT * fee) / MICROS_PER_CENT == q / MICROS_PER_CENT + fee;
    assert q / MICROS_PER_CENT == total / NANOS_PER_CENT;
  }
}
