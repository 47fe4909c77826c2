/** The token ledger: counters that saturate at zero and at 2^64 - 1, into which the nodes of a fleet
    flush signed deltas in any order. */
module Ledger {
  import opened Base

  const U64_MAX: nat := U64_MOD - 1

  datatype Tier = Input | Output | CacheRead | CacheWrite
  datatype TierTokens = TierTokens(input: nat, output: nat, cacheRead: nat, cacheWrite: nat)
  datatype ModelTokens = ModelTokens(model: string, tokens: TierTokens)
  datatype Usage = Usage(requests: nat, billable: nat, models: seq<ModelTokens>)

  datatype TierDelta = TierDelta(input: int, output: int, cacheRead: int, cacheWrite: int)
  datatype ModelDelta = ModelDelta(model: string, tokens: TierDelta)
  datatype UsageDelta = UsageDelta(requests: int, billable: int, models: seq<ModelDelta>)

  const ZERO_TOKENS := TierTokens(0, 0, 0, 0)
  const EMPTY_USAGE := Usage(0, 0, [])

  /** `saturating_add_signed` on u64. */
  function SatAdd(x: nat, d: int): nat {
    if x + d < 0 then 0 else if x + d > U64_MAX then U64_MAX else x + d
  }

  /** Saturating addition is the counter value nearest to the exact sum. */
  lemma SatAddIsNearest(x: nat, d: int, y: nat)
    requires y <= U64_MAX
    ensures SatAdd(x, d) <= U64_MAX
    ensures y <= SatAdd(x, d) <= x + d || x + d <= SatAdd(x, d) <= y || SatAdd(x, d) == x + d
  {
  }

  function AddTiers(t: TierTokens, d: TierDelta): TierTokens {
    TierTokens(SatAdd(t.input, d.input), SatAdd(t.output, d.output),
               SatAdd(t.cacheRead, d.cacheRead), SatAdd(t.cacheWrite, d.cacheWrite))
  }

  /** The row of `model`, or the number of rows when there is none. */
  function Row(models: seq<ModelTokens>, model: string): (i: nat)
    ensures i <= |models| && (i < |models| ==> models[i].model == model)
    ensures forall k :: 0 <= k < i ==> models[k].model != model
  {
    if models == [] || models[0].model == model then 0 else 1 + Row(models[1..], model)
  }

  function ApplyModel(models: seq<ModelTokens>, d: ModelDelta): seq<ModelTokens> {
    var i := Row(models, d.model);
    if i < |models| then models[i := ModelTokens(d.model, AddTiers(models[i].tokens, d.tokens))]
    else models + [ModelTokens(d.model, AddTiers(ZERO_TOKENS, d.tokens))]
  }

  function ApplyModels(models: seq<ModelTokens>, ds: seq<ModelDelta>): seq<ModelTokens> {
    if ds == [] then models else ApplyModel(ApplyModels(models, ds[..|ds| - 1]), ds[|ds| - 1])
  }

  function Apply(u: Usage, d: UsageDelta): Usage {
    Usage(SatAdd(u.requests, d.requests), SatAdd(u.billable, d.billable), ApplyModels(u.models, d.models))
  }

  // ---- The ledger object ----

  class UsageLedger {
    var requests: nat
    var billable: nat
    var models: seq<ModelTokens>

    ghost function Value(): Usage
      reads this
    {
      Usage(requests, billable, models)
    }

    constructor ()
      ensures Value() == EMPTY_USAGE
    {
      requests, billable, models := 0, 0, [];
    }

    method ApplyModelDelta(d: ModelDelta)
      modifies this`models
      ensures models == ApplyModel(old(models), d)
    {
      var i := 0;
      while i < |models| && models[i].model != d.model
        invariant 0 <= i <= |models| && models == old(models)
        invariant forall k :: 0 <= k < i ==> models[k].model != d.model
      {
        i := i + 1;
      }
      assert i == Row(models, d.model);
      if i == |models| {
        models := models + [ModelTokens(d.model, ZERO_TOKENS)];
      }
      var t := models[i].tokens;
      t := t.(input := SatAdd(t.input, d.tokens.input));
      t := t.(output := SatAdd(t.output, d.tokens.output));
      t := t.(cacheRead := SatAdd(t.cacheRead, d.tokens.cacheRead));
      t := t.(cacheWrite := SatAdd(t.cacheWrite, d.tokens.cacheWrite));
      models := models[i := ModelTokens(d.model, t)];
    }

    method ApplyDelta(d: UsageDelta)
      modifies this
      ensures Value() == Apply(old(Value()), d)
    {
      requests := SatAdd(requests, d.requests);
      billable := SatAdd(billable, d.billable);
      for i := 0 to |d.models|
        invariant models == ApplyModels(old(models), d.models[..i])
        invariant requests == SatAdd(old(requests), d.requests) && billable == SatAdd(old(billable), d.billable)
      {
        assert d.models[..i + 1][..i] == d.models[..i];
        ApplyModelDelta(d.models[i]);
      }
      assert d.models[..|d.models|] == d.models;
    }

    method TotalTokens() returns (total: nat)
      ensures total == if TokenSum(models) > U64_MAX then U64_MAX else TokenSum(models)
    {
      total := 0;
      for i := 0 to |models|
        invariant total == if TokenSum(models[..i]) > U64_MAX then U64_MAX else TokenSum(models[..i])
      {
        assert models[..i + 1][..i] == models[..i];
        var t := models[i].tokens;
        var row := SatAdd(SatAdd(SatAdd(t.input, t.output), t.cacheRead), t.cacheWrite);
        total := SatAdd(total, row);
      }
      assert models[..|models|] == models;
    }
  }

  /** The exact number of tokens in the ledger. */
  function TokenSum(models: seq<ModelTokens>): nat {
    if models == [] then 0
    else
      var t := models[|models| - 1].tokens;
      TokenSum(models[..|models| - 1]) + t.input + t.output + t.cacheRead + t.cacheWrite
  }

  /** Each tier of each row counts once: one more token anywhere is one more in the sum. */
  lemma {:induction false} TokenSumCounts(a: seq<ModelTokens>, b: seq<ModelTokens>, i: nat, tier: Tier, k: nat)
    requires i < |a| == |b| && b == a[i := b[i]]
    requires forall t :: OfTier(b[i].tokens, t) == OfTier(a[i].tokens, t) + if t == tier then k else 0
    ensures TokenSum(b) == TokenSum(a) + k
  {
    var n := |a| - 1;
    if i < n {
      TokenSumCounts(a[..n], b[..n], i, tier, k);
    } else {
      assert a[..n] == b[..n];
      AllTiers(a[i].tokens, b[i].tokens, tier, k);
    }
  }

  lemma AllTiers(s: TierTokens, t: TierTokens, tier: Tier, k: nat)
    requires forall u :: OfTier(t, u) == OfTier(s, u) + if u == tier then k else 0
    ensures t.input + t.output + t.cacheRead + t.cacheWrite == s.input + s.output + s.cacheRead + s.cacheWrite + k
  {
    assert OfTier(t, Input) == t.input && OfTier(t, Output) == t.output;
    assert OfTier(t, CacheRead) == t.cacheRead && OfTier(t, CacheWrite) == t.cacheWrite;
  }

  lemma {:induction false} TokenSumOfNothing(models: seq<ModelTokens>)
    requires forall i, t :: 0 <= i < |models| ==> OfTier(models[i].tokens, t) == 0
    ensures TokenSum(models) == 0
  {
    if models != [] {
      var n := |models| - 1;
      TokenSumOfNothing(models[..n]);
      assert OfTier(models[n].tokens, Input) == 0 && OfTier(models[n].tokens, Output) == 0;
      assert OfTier(models[n].tokens, CacheRead) == 0 && OfTier(models[n].tokens, CacheWrite) == 0;
    }
  }

  // ---- Counters ----

  datatype Counter = Requests | Billable | Tokens(model: string, tier: Tier)

  function OfTier(t: TierTokens, tier: Tier): nat {
    match tier
    case Input => t.input
    case Output => t.output
    case CacheRead => t.cacheRead
    case CacheWrite => t.cacheWrite
  }

  function DeltaOfTier(t: TierDelta, tier: Tier): int {
    match tier
    case Input => t.input
    case Output => t.output
    case CacheRead => t.cacheRead
    case CacheWrite => t.cacheWrite
  }

  function TokensFor(models: seq<ModelTokens>, model: string): TierTokens {
    var i := Row(models, model);
    if i < |models| then models[i].tokens else ZERO_TOKENS
  }

  function Count(u: Usage, c: Counter): nat {
    match c
    case Requests => u.requests
    case Billable => u.billable
    case Tokens(model, tier) => OfTier(TokensFor(u.models, model), tier)
  }

  /** The sum of what a delta's rows say about one model and tier. */
  function RowDelta(ds: seq<ModelDelta>, model: string, tier: Tier): int {
    if ds == [] then 0
    else RowDelta(ds[..|ds| - 1], model, tier) +
         if ds[|ds| - 1].model == model then DeltaOfTier(ds[|ds| - 1].tokens, tier) else 0
  }

  function Net(d: UsageDelta, c: Counter): int {
    match c
    case Requests => d.requests
    case Billable => d.billable
    case Tokens(model, tier) => RowDelta(d.models, model, tier)
  }

  predicate OneRowEach(models: seq<ModelTokens>) {
    forall i, j :: 0 <= i < j < |models| ==> models[i].model != models[j].model
  }

  predicate OneDeltaEach(ds: seq<ModelDelta>) {
    forall i, j :: 0 <= i < j < |ds| ==> ds[i].model != ds[j].model
  }

  lemma {:induction false} RowUnique(models: seq<ModelTokens>, i: nat)
    requires i < |models| && OneRowEach(models)
    ensures Row(models, models[i].model) == i
  {
  }

  /** Applying one row touches that model's counters and no other, and never splits a model. */
  lemma ApplyModelEffect(models: seq<ModelTokens>, d: ModelDelta, model: string)
    requires OneRowEach(models)
    ensures OneRowEach(ApplyModel(models, d))
    ensures TokensFor(ApplyModel(models, d), model) ==
      if model == d.model then AddTiers(TokensFor(models, model), d.tokens) else TokensFor(models, model)
  {
    var after, i, j := ApplyModel(models, d), Row(models, d.model), Row(models, model);
    assert OneRowEach(after);
    if model == d.model {
      RowUnique(after, i);
    } else if j < |models| {
      assert after[j] == models[j];
      RowUnique(after, j);
    } else {
      assert forall k :: 0 <= k < |after| ==> after[k].model != model;
    }
  }

  lemma {:induction false} ApplyModelsUnique(models: seq<ModelTokens>, ds: seq<ModelDelta>)
    requires OneRowEach(models)
    ensures OneRowEach(ApplyModels(models, ds))
  {
    if ds != [] {
      ApplyModelsUnique(models, ds[..|ds| - 1]);
      ApplyModelEffect(ApplyModels(models, ds[..|ds| - 1]), ds[|ds| - 1], "");
    }
  }

  lemma {:induction false} ApplyModelsEffect(models: seq<ModelTokens>, ds: seq<ModelDelta>, model: string, tier: Tier)
    requires OneRowEach(models) && OneDeltaEach(ds)
    ensures OneRowEach(ApplyModels(models, ds))
    ensures OfTier(TokensFor(ApplyModels(models, ds), model), tier) ==
      if forall i :: 0 <= i < |ds| ==> ds[i].model != model then OfTier(TokensFor(models, model), tier)
      else SatAdd(OfTier(TokensFor(models, model), tier), RowDelta(ds, model, tier))
    ensures (forall i :: 0 <= i < |ds| ==> ds[i].model != model) ==> RowDelta(ds, model, tier) == 0
  {
    if ds != [] {
      var init, last := ds[..|ds| - 1], ds[|ds| - 1];
      ApplyModelsEffect(models, init, model, tier);
      ApplyModelEffect(ApplyModels(models, init), last, model);
      assert forall i :: 0 <= i < |init| ==> init[i] == ds[i];
      assert last.model == model ==> forall i :: 0 <= i < |init| ==> init[i].model != model;
    }
  }

  /** One flush moves every counter by exactly its net delta, saturating, and splits no model. */
  lemma ApplyEffect(u: Usage, d: UsageDelta, c: Counter)
    requires OneRowEach(u.models) && OneDeltaEach(d.models) && Count(u, c) <= U64_MAX
    ensures OneRowEach(Apply(u, d).models)
    ensures Count(Apply(u, d), c) == SatAdd(Count(u, c), Net(d, c))
  {
    ApplyModelsEffect(u.models, d.models, if c.Tokens? then c.model else "", if c.Tokens? then c.tier else Input);
  }

  // ---- A fleet of nodes flushing into one ledger ----

  datatype Flush = Flush(node: nat, delta: UsageDelta)

  function After(h: seq<Flush>): Usage {
    if h == [] then EMPTY_USAGE else Apply(After(h[..|h| - 1]), h[|h| - 1].delta)
  }

  function FleetTotal(h: seq<Flush>, c: Counter): int {
    if h == [] then 0 else FleetTotal(h[..|h| - 1], c) + Net(h[|h| - 1].delta, c)
  }

  function NodeTotal(h: seq<Flush>, node: nat, c: Counter): int {
    if h == [] then 0
    else NodeTotal(h[..|h| - 1], node, c) + if h[|h| - 1].node == node then Net(h[|h| - 1].delta, c) else 0
  }

  function NodesTotal(h: seq<Flush>, nodes: nat, c: Counter): int {
    if nodes == 0 then 0 else NodesTotal(h, nodes - 1, c) + NodeTotal(h, nodes - 1, c)
  }

  predicate RowsOk(h: seq<Flush>) {
    forall i :: 0 <= i < |h| ==> OneDeltaEach(h[i].delta.models)
  }

  lemma {:induction false} NodesTotalStep(h: seq<Flush>, nodes: nat, c: Counter)
    requires h != []
    ensures NodesTotal(h, nodes, c) ==
      NodesTotal(h[..|h| - 1], nodes, c) + if h[|h| - 1].node < nodes then Net(h[|h| - 1].delta, c) else 0
  {
    if nodes > 0 {
      NodesTotalStep(h, nodes - 1, c);
    }
  }

  lemma {:induction false} EmptyNodes(nodes: nat, c: Counter)
    ensures NodesTotal([], nodes, c) == 0
  {
    if nodes > 0 {
      EmptyNodes(nodes - 1, c);
    }
  }

  /** The fleet's total is the sum of its nodes' totals. */
  lemma {:induction false} FleetIsSumOfNodes(h: seq<Flush>, nodes: nat, c: Counter)
    requires forall i :: 0 <= i < |h| ==> h[i].node < nodes
    ensures FleetTotal(h, c) == NodesTotal(h, nodes, c)
  {
    if h == [] {
      EmptyNodes(nodes, c);
    } else {
      FleetIsSumOfNodes(h[..|h| - 1], nodes, c);
      NodesTotalStep(h, nodes, c);
    }
  }

  lemma {:induction false} NodesNonNegative(h: seq<Flush>, nodes: nat, c: Counter)
    requires forall i :: 0 <= i < nodes ==> NodeTotal(h, i, c) >= 0
    ensures NodesTotal(h, nodes, c) >= 0
  {
    if nodes > 0 {
      NodesNonNegative(h, nodes - 1, c);
    }
  }

  /** No model ever has two rows. */
  lemma {:induction false} RowsStayUnique(h: seq<Flush>)
    ensures OneRowEach(After(h).models)
  {
    if h != [] {
      RowsStayUnique(h[..|h| - 1]);
      ApplyModelsUnique(After(h[..|h| - 1]).models, h[|h| - 1].delta.models);
    }
  }

  lemma {:induction false} CountInRange(h: seq<Flush>, c: Counter)
    requires RowsOk(h)
    ensures Count(After(h), c) <= U64_MAX
  {
    if h != [] {
      CountInRange(h[..|h| - 1], c);
      RowsStayUnique(h[..|h| - 1]);
      ApplyEffect(After(h[..|h| - 1]), h[|h| - 1].delta, c);
    }
  }

  /** A counter is exact at every point of a run exactly when the fleet's running total never leaves
      the range of u64: then, and only then, no saturation ever bites. */
  lemma {:induction false} ExactIffInRange(h: seq<Flush>, c: Counter)
    requires RowsOk(h)
    ensures (forall n :: 0 <= n <= |h| ==> Count(After(h[..n]), c) == FleetTotal(h[..n], c)) <==>
            (forall n :: 0 <= n <= |h| ==> 0 <= FleetTotal(h[..n], c) <= U64_MAX)
  {
    if forall n :: 0 <= n <= |h| ==> Count(After(h[..n]), c) == FleetTotal(h[..n], c) {
      forall n | 0 <= n <= |h| ensures 0 <= FleetTotal(h[..n], c) <= U64_MAX {
        CountInRange(h[..n], c);
        assert Count(After(h[..n]), c) == FleetTotal(h[..n], c);
      }
    }
    if forall n :: 0 <= n <= |h| ==> 0 <= FleetTotal(h[..n], c) <= U64_MAX {
      forall n | 0 <= n <= |h| ensures Count(After(h[..n]), c) == FleetTotal(h[..n], c) {
        ExactPrefix(h, n, c);
      }
    }
  }

  lemma {:induction false} ExactPrefix(h: seq<Flush>, n: nat, c: Counter)
    requires RowsOk(h) && n <= |h|
    requires forall k :: 0 <= k <= |h| ==> 0 <= FleetTotal(h[..k], c) <= U64_MAX
    ensures Count(After(h[..n]), c) == FleetTotal(h[..n], c)
  {
    if n > 0 {
      ExactPrefix(h, n - 1, c);
      assert h[..n][..n - 1] == h[..n - 1];
      RowsStayUnique(h[..n - 1]);
      ApplyEffect(After(h[..n - 1]), h[n - 1].delta, c);
      assert 0 <= FleetTotal(h[..n], c) <= U64_MAX;
    }
  }

  /** If every node's own running total never goes negative and the fleet total stays within u64, then
      after every interleaving of the nodes' flushes each counter is the exact fleet sum. */
  lemma FleetSumIsExact(h: seq<Flush>, nodes: nat, c: Counter)
    requires RowsOk(h) && forall i :: 0 <= i < |h| ==> h[i].node < nodes
    requires forall n, i :: 0 <= n <= |h| && 0 <= i < nodes ==> NodeTotal(h[..n], i, c) >= 0
    requires forall n :: 0 <= n <= |h| ==> FleetTotal(h[..n], c) <= U64_MAX
    ensures Count(After(h), c) == FleetTotal(h, c) == NodesTotal(h, nodes, c)
    ensures OneRowEach(After(h).models)
  {
    forall n | 0 <= n <= |h| ensures 0 <= FleetTotal(h[..n], c) {
      FleetIsSumOfNodes(h[..n], nodes, c);
      NodesNonNegative(h[..n], nodes, c);
    }
    ExactPrefix(h, |h|, c);
    assert h[..|h|] == h;
    FleetIsSumOfNodes(h, nodes, c);
    RowsStayUnique(h);
  }

  // ---- Deltas that name a model more than once ----

  /** A flush as the ledger applies it: the request counters, then its first `n` rows one by one. */
  function Unrolled(f: Flush, n: nat): seq<Flush>
    requires n <= |f.delta.models|
  {
    if n == 0 then [Flush(f.node, UsageDelta(f.delta.requests, f.delta.billable, []))]
    else Unrolled(f, n - 1) + [Flush(f.node, UsageDelta(0, 0, [f.delta.models[n - 1]]))]
  }

  function RowByRow(h: seq<Flush>): seq<Flush> {
    if h == [] then [] else RowByRow(h[..|h| - 1]) + Unrolled(h[|h| - 1], |h[|h| - 1].delta.models|)
  }

  lemma AfterOne(h: seq<Flush>, f: Flush, c: Counter)
    ensures After(h + [f]) == Apply(After(h), f.delta)
    ensures FleetTotal(h + [f], c) == FleetTotal(h, c) + Net(f.delta, c)
  {
    assert (h + [f])[..|h|] == h;
  }

  lemma ApplyNoRows(models: seq<ModelTokens>)
    ensures ApplyModels(models, []) == models
  {
  }

  lemma ApplyOneRow(models: seq<ModelTokens>, d: ModelDelta, model: string, tier: Tier)
    ensures ApplyModels(models, [d]) == ApplyModel(models, d)
    ensures RowDelta([d], model, tier) == if d.model == model then DeltaOfTier(d.tokens, tier) else 0
  {
    assert [d][..0] == [];
  }

  function Part(f: Flush, n: nat): UsageDelta
    requires n <= |f.delta.models|
  {
    UsageDelta(f.delta.requests, f.delta.billable, f.delta.models[..n])
  }

  lemma {:induction false} UnrolledAfter(h: seq<Flush>, f: Flush, n: nat)
    requires n <= |f.delta.models|
    ensures After(h + Unrolled(f, n)) == Apply(After(h), Part(f, n)) && RowsOk(Unrolled(f, n))
  {
    hide Apply, After;
    if n == 0 {
      AfterOne(h, Unrolled(f, 0)[0], Requests);
      assert Unrolled(f, 0)[0].delta == Part(f, 0);
    } else {
      var rows := f.delta.models;
      var row := Flush(f.node, UsageDelta(0, 0, [rows[n - 1]]));
      UnrolledAfter(h, f, n - 1);
      assert h + Unrolled(f, n) == (h + Unrolled(f, n - 1)) + [row];
      AfterOne(h + Unrolled(f, n - 1), row, Requests);
      ApplyPart(After(h), f, n);
    }
  }

  /** One more row of a delta, applied by itself. */
  lemma ApplyPart(u: Usage, f: Flush, n: nat)
    requires 0 < n <= |f.delta.models|
    ensures Apply(Apply(u, Part(f, n - 1)), UsageDelta(0, 0, [f.delta.models[n - 1]])) == Apply(u, Part(f, n))
  {
    hide ApplyModels, ApplyModel;
    var rows := f.delta.models;
    RowsSnoc(u.models, rows, n, "", Input);
    ApplyOneRow(ApplyModels(u.models, rows[..n - 1]), rows[n - 1], "", Input);
  }

  lemma {:induction false} UnrolledTotal(h: seq<Flush>, f: Flush, n: nat, c: Counter)
    requires n <= |f.delta.models|
    ensures FleetTotal(h + Unrolled(f, n), c) == FleetTotal(h, c) + Net(Part(f, n), c)
  {
    hide After;
    if n == 0 {
      AfterOne(h, Unrolled(f, 0)[0], c);
    } else {
      var rows := f.delta.models;
      var row := Flush(f.node, UsageDelta(0, 0, [rows[n - 1]]));
      UnrolledTotal(h, f, n - 1, c);
      assert h + Unrolled(f, n) == (h + Unrolled(f, n - 1)) + [row];
      AfterOne(h + Unrolled(f, n - 1), row, c);
      if c.Tokens? {
        RowsSnoc([], rows, n, c.model, c.tier);
        ApplyOneRow([], rows[n - 1], c.model, c.tier);
      }
    }
  }

  lemma RowsSnoc(models: seq<ModelTokens>, rows: seq<ModelDelta>, n: nat, model: string, tier: Tier)
    requires 0 < n <= |rows|
    ensures ApplyModels(models, rows[..n]) == ApplyModel(ApplyModels(models, rows[..n - 1]), rows[n - 1])
    ensures RowDelta(rows[..n], model, tier) ==
      RowDelta(rows[..n - 1], model, tier) + if rows[n - 1].model == model then DeltaOfTier(rows[n - 1].tokens, tier) else 0
  {
    assert rows[..n][..n - 1] == rows[..n - 1];
  }

  /** Applying flushes whole or row by row is the same. */
  lemma {:induction false} RowByRowSame(h: seq<Flush>, c: Counter)
    ensures After(RowByRow(h)) == After(h) && FleetTotal(RowByRow(h), c) == FleetTotal(h, c)
    ensures RowsOk(RowByRow(h))
  {
    if h != [] {
      var init, f := h[..|h| - 1], h[|h| - 1];
      RowByRowSame(init, c);
      UnrolledAfter(RowByRow(init), f, |f.delta.models|);
      UnrolledTotal(RowByRow(init), f, |f.delta.models|, c);
      assert Part(f, |f.delta.models|) == f.delta;
    }
  }

  /** With no condition on the deltas at all: the counter follows the fleet's exact total through every
      row exactly when that total stays within u64 at every row, and then the final count is exact. */
  lemma ExactIffInRangeRowByRow(h: seq<Flush>, c: Counter)
    ensures var r := RowByRow(h);
      && ((forall n :: 0 <= n <= |r| ==> Count(After(r[..n]), c) == FleetTotal(r[..n], c)) <==>
          (forall n :: 0 <= n <= |r| ==> 0 <= FleetTotal(r[..n], c) <= U64_MAX))
      && ((forall n :: 0 <= n <= |r| ==> 0 <= FleetTotal(r[..n], c) <= U64_MAX) ==>
          Count(After(h), c) == FleetTotal(h, c))
  {
    var r := RowByRow(h);
    RowByRowSame(h, c);
    ExactIffInRange(r, c);
    if forall n :: 0 <= n <= |r| ==> 0 <= FleetTotal(r[..n], c) <= U64_MAX {
      ExactPrefix(r, |r|, c);
      assert r[..|r|] == r;
    }
  }

  /** The rows matter: one delta that takes back five tokens before it adds them counts five too many. */
  lemma RepeatedModelCanMiscount()
    ensures var d := UsageDelta(0, 0, [
        ModelDelta("m", TierDelta(-5, 0, 0, 0)), ModelDelta("m", TierDelta(5, 0, 0, 0))]);
      && Net(d, Tokens("m", Input)) == 0
      && Count(Apply(EMPTY_USAGE, d), Tokens("m", Input)) == 5
  {
    var a, b := ModelDelta("m", TierDelta(-5, 0, 0, 0)), ModelDelta("m", TierDelta(5, 0, 0, 0));
    RowsSnoc([], [a, b], 1, "m", Input);
    RowsSnoc([], [a, b], 2, "m", Input);
    assert [a, b][..0] == [] && [a, b][..2] == [a, b];
    ApplyNoRows([]);
  }

  // ---- The store's default additive write ----

  type RowKey = (string, nat)

  function Get(rows: map<RowKey, Usage>, k: RowKey): Usage {
    if k in rows then rows[k] else EMPTY_USAGE
  }

  class Store {
    var rows: map<RowKey, Usage>

    constructor ()
      ensures rows == map[]
    {
      rows := map[];
    }

    /** Read, apply, write back. */
    method AddUsage(bucketId: string, windowStart: nat, delta: UsageDelta)
      modifies this
      ensures rows == old(rows)[(bucketId, windowStart) := Apply(Get(old(rows), (bucketId, windowStart)), delta)]
    {
      var cur := Get(rows, (bucketId, windowStart));
      var ledger := new UsageLedger();
      ledger.requests, ledger.billable, ledger.models := cur.requests, cur.billable, cur.models;
      ledger.ApplyDelta(delta);
      rows := rows[(bucketId, windowStart) := Usage(ledger.requests, ledger.billable, ledger.models)];
    }
  }
}
