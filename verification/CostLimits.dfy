/** Compiling a group's configured limits into enforcement buckets: one bucket per (window, pool), each
    cap the tightest of the limits it stands for. */
module CostLimits {
  import opened Base

  datatype Metric = Requests | Tokens | Budget | Concurrent
  datatype Window = Minute | Hour | Day | Month | Total

  /** What a bucket is keyed by. */
  datatype Scope = Scope(window: Window, pool: Option<string>)

  datatype Limit = Limit(
    metric: Metric, amount: nat, per: Option<Window>, pool: Option<string>, downgradeTo: Option<string>)

  datatype Bucket = Bucket(
    id: string,
    scope: Scope,
    requestsCap: Option<nat>,
    tokensCap: Option<nat>,
    budgetCap: Option<nat>,
    downgradeTo: Option<string>)

  function Word(w: Window): string {
    match w
    case Minute => "minute"
    case Hour => "hour"
    case Day => "day"
    case Month => "month"
    case Total => "total"
  }

  const GROUP_BUCKET_PREFIX := "group:"

  function BucketId(name: string, s: Scope): string {
    GROUP_BUCKET_PREFIX + name + "@" + ScopeText(s)
  }

  function ScopeText(s: Scope): string {
    Word(s.window) + if s.pool.Some? then "#" + s.pool.value else ""
  }

  // ---- What the compiled form is to be ----

  predicate Windowed(l: Limit) {
    l.metric != Concurrent && l.per.Some?
  }

  function ScopeOf(l: Limit): Scope
    requires Windowed(l)
  {
    Scope(l.per.value, l.pool)
  }

  predicate Bears(l: Limit, m: Metric, s: Scope) {
    l.metric == m && Windowed(l) && ScopeOf(l) == s
  }

  /** A budget is compared with a spend that is an i64, so its amount is clamped there. */
  function Amount(l: Limit): nat {
    if l.metric == Budget && l.amount > I64_MAX then I64_MAX else l.amount
  }

  function MinWith(cap: Option<nat>, amount: nat): Option<nat> {
    if cap.Some? && cap.value < amount then cap else Some(amount)
  }

  /** The least amount among the limits on metric `m` in scope `s`, if there is one. */
  function Tightest(limits: seq<Limit>, m: Metric, s: Scope): Option<nat> {
    if limits == [] then None
    else
      var before, l := Tightest(limits[..|limits| - 1], m, s), limits[|limits| - 1];
      if Bears(l, m, s) then MinWith(before, Amount(l)) else before
  }

  /** The exhaustion behaviour of the first budget that attains the least amount. */
  function Governing(limits: seq<Limit>, s: Scope): Option<string> {
    if limits == [] then None
    else
      var init, l := limits[..|limits| - 1], limits[|limits| - 1];
      var before := Tightest(init, Budget, s);
      if Bears(l, Budget, s) && (before.None? || Amount(l) < before.value) then l.downgradeTo
      else Governing(init, s)
  }

  function TightestConcurrent(limits: seq<Limit>): Option<nat> {
    if limits == [] then None
    else
      var before, l := TightestConcurrent(limits[..|limits| - 1]), limits[|limits| - 1];
      if l.metric == Concurrent then MinWith(before, l.amount) else before
  }

  /** The scopes the limits use, in order of first use. */
  function Scopes(limits: seq<Limit>): seq<Scope> {
    if limits == [] then []
    else
      var before, l := Scopes(limits[..|limits| - 1]), limits[|limits| - 1];
      if Windowed(l) && ScopeOf(l) !in before then before + [ScopeOf(l)] else before
  }

  function BucketFor(name: string, limits: seq<Limit>, s: Scope): Bucket {
    Bucket(BucketId(name, s), s, Tightest(limits, Requests, s), Tightest(limits, Tokens, s),
           Tightest(limits, Budget, s), Governing(limits, s))
  }

  function Compiled(name: string, limits: seq<Limit>): (b: seq<Bucket>)
    ensures |b| == |Scopes(limits)|
    ensures forall i :: 0 <= i < |b| ==> b[i] == BucketFor(name, limits, Scopes(limits)[i])
  {
    seq(|Scopes(limits)|, i requires 0 <= i < |Scopes(limits)| => BucketFor(name, limits, Scopes(limits)[i]))
  }

  // ---- The compiler as written ----

  /** Tighten one bucket by one limit of its scope. */
  function Tightened(b: Bucket, l: Limit): Bucket {
    match l.metric
    case Requests => b.(requestsCap := MinWith(b.requestsCap, l.amount))
    case Tokens => b.(tokensCap := MinWith(b.tokensCap, l.amount))
    case Budget =>
      var amount := if l.amount > I64_MAX then I64_MAX else l.amount;
      b.(downgradeTo := if b.budgetCap.None? || amount < b.budgetCap.value then l.downgradeTo else b.downgradeTo,
         budgetCap := MinWith(b.budgetCap, amount))
    case Concurrent => b
  }

  method ProjectLimits(name: string, limits: seq<Limit>) returns (buckets: seq<Bucket>, concurrentCap: Option<nat>)
    ensures buckets == Compiled(name, limits)
    ensures concurrentCap == TightestConcurrent(limits)
  {
    buckets, concurrentCap := [], None;
    for n := 0 to |limits|
      invariant buckets == Compiled(name, limits[..n])
      invariant concurrentCap == TightestConcurrent(limits[..n])
    {
      var l := limits[n];
      assert limits[..n + 1][..n] == limits[..n];
      if l.metric == Concurrent {
        concurrentCap := MinWith(concurrentCap, l.amount);
        CompiledUnchanged(name, limits[..n], l);
      } else if l.per.Some? {
        buckets := Place(name, limits[..n], buckets, l);
      } else {
        CompiledUnchanged(name, limits[..n], l);
      }
      assert limits[..n + 1] == limits[..n] + [l];
    }
    assert limits[..|limits|] == limits;
  }

  /** Find the limit's bucket, making one on first use, and tighten it. */
  method Place(name: string, ghost before: seq<Limit>, buckets: seq<Bucket>, l: Limit) returns (r: seq<Bucket>)
    requires Windowed(l) && buckets == Compiled(name, before)
    ensures r == Compiled(name, before + [l])
  {
    var scope := ScopeOf(l);
    var i := 0;
    while i < |buckets| && buckets[i].scope != scope
      invariant 0 <= i <= |buckets|
      invariant forall k :: 0 <= k < i ==> buckets[k].scope != scope
    {
      i := i + 1;
    }
    r := buckets;
    if i == |r| {
      r := r + [Bucket(BucketId(name, scope), scope, None, None, None, None)];
    }
    r := r[i := Tightened(r[i], l)];
    CompiledSnoc(name, before, l, i);
  }

  lemma SnocFacts(limits: seq<Limit>, l: Limit)
    ensures (limits + [l])[..|limits|] == limits && (limits + [l])[|limits|] == l
  {
  }

  lemma {:induction false} ScopesDistinct(limits: seq<Limit>)
    ensures forall i, j :: 0 <= i < j < |Scopes(limits)| ==> Scopes(limits)[i] != Scopes(limits)[j]
  {
    if limits != [] {
      ScopesDistinct(limits[..|limits| - 1]);
    }
  }

  lemma {:induction false} UnusedScope(limits: seq<Limit>, s: Scope)
    requires s !in Scopes(limits)
    ensures Governing(limits, s) == None
    ensures forall m :: Tightest(limits, m, s) == None
  {
    if limits != [] {
      UnusedScope(limits[..|limits| - 1], s);
    }
  }

  /** One more limit changes the bucket of its own scope and no other. */
  lemma OtherBucketsUnchanged(name: string, limits: seq<Limit>, l: Limit, s: Scope)
    requires Windowed(l) ==> ScopeOf(l) != s
    ensures BucketFor(name, limits + [l], s) == BucketFor(name, limits, s)
  {
    SnocFacts(limits, l);
  }

  lemma OwnBucketTightened(name: string, limits: seq<Limit>, l: Limit)
    requires Windowed(l)
    ensures BucketFor(name, limits + [l], ScopeOf(l)) == Tightened(BucketFor(name, limits, ScopeOf(l)), l)
  {
    SnocFacts(limits, l);
  }

  lemma CompiledUnchanged(name: string, limits: seq<Limit>, l: Limit)
    requires !Windowed(l)
    ensures Compiled(name, limits + [l]) == Compiled(name, limits)
  {
    SnocFacts(limits, l);
    forall s ensures BucketFor(name, limits + [l], s) == BucketFor(name, limits, s) {
      OtherBucketsUnchanged(name, limits, l, s);
    }
  }

  lemma CompiledSnoc(name: string, limits: seq<Limit>, l: Limit, i: nat)
    requires Windowed(l) && i <= |Compiled(name, limits)|
    requires forall k :: 0 <= k < i ==> Scopes(limits)[k] != ScopeOf(l)
    requires i < |Compiled(name, limits)| ==> Scopes(limits)[i] == ScopeOf(l)
    ensures var r := Compiled(name, limits) +
        if i == |Compiled(name, limits)| then [Bucket(BucketId(name, ScopeOf(l)), ScopeOf(l), None, None, None, None)]
        else [];
      Compiled(name, limits + [l]) == r[i := Tightened(r[i], l)]
  {
    SnocFacts(limits, l);
    var scopes := Scopes(limits);
    ScopesDistinct(limits);
    OwnBucketTightened(name, limits, l);
    if i == |scopes| {
      UnusedScope(limits, ScopeOf(l));
      assert Scopes(limits + [l]) == scopes + [ScopeOf(l)];
    } else {
      assert Scopes(limits + [l]) == scopes;
    }
    forall k | 0 <= k < |scopes| && k != i
      ensures BucketFor(name, limits + [l], scopes[k]) == BucketFor(name, limits, scopes[k])
    {
      OtherBucketsUnchanged(name, limits, l, scopes[k]);
    }
  }

  // ---- The compiled form means what was configured ----

  /** The tightest amount is attained, first by limit `i`, and none is tighter. */
  lemma {:induction false} TightestMeaning(limits: seq<Limit>, m: Metric, s: Scope) returns (i: nat)
    ensures Tightest(limits, m, s).None? ==> forall k :: 0 <= k < |limits| ==> !Bears(limits[k], m, s)
    ensures Tightest(limits, m, s).Some? ==>
      var least := Tightest(limits, m, s).value;
      && i < |limits| && Bears(limits[i], m, s) && Amount(limits[i]) == least
      && (forall k :: 0 <= k < |limits| && Bears(limits[k], m, s) ==> least <= Amount(limits[k]))
      && (forall k :: 0 <= k < i && Bears(limits[k], m, s) ==> least < Amount(limits[k]))
      && (m == Budget ==> Governing(limits, s) == limits[i].downgradeTo)
  {
    i := 0;
    if limits != [] {
      var n := |limits| - 1;
      i := TightestMeaning(limits[..n], m, s);
      var before, l := Tightest(limits[..n], m, s), limits[n];
      if Bears(l, m, s) && (before.None? || Amount(l) < before.value) {
        i := n;
      }
    }
  }

  /** A budget cap is one an i64 can hold: the least of the configured amounts and i64::MAX. */
  lemma {:induction false} BudgetCapFits(limits: seq<Limit>, s: Scope)
    requires Tightest(limits, Budget, s).Some?
    ensures var cap := Tightest(limits, Budget, s).value;
      && cap <= I64_MAX
      && (forall k :: 0 <= k < |limits| && Bears(limits[k], Budget, s) ==> cap <= limits[k].amount)
      && (cap < I64_MAX ==> exists k :: 0 <= k < |limits| && Bears(limits[k], Budget, s) && cap == limits[k].amount)
  {
    var i := TightestMeaning(limits, Budget, s);
  }

  predicate Used(limits: seq<Limit>, s: Scope) {
    exists k :: 0 <= k < |limits| && Windowed(limits[k]) && ScopeOf(limits[k]) == s
  }

  /** There is exactly one bucket per (window, pool) that some limit uses, and none besides. */
  lemma BucketsMirrorLimits(name: string, limits: seq<Limit>)
    ensures var b := Compiled(name, limits);
      && (forall i, j :: 0 <= i < j < |b| ==> b[i].scope != b[j].scope)
      && (forall i :: 0 <= i < |b| ==> Used(limits, b[i].scope))
      && (forall k :: 0 <= k < |limits| && Windowed(limits[k]) ==> exists i :: 0 <= i < |b| && b[i].scope == ScopeOf(limits[k]))
  {
    ScopesDistinct(limits);
    ScopesUsed(limits);
    var b, scopes := Compiled(name, limits), Scopes(limits);
    forall i | 0 <= i < |b| ensures Used(limits, b[i].scope) {
      assert b[i].scope == scopes[i] && scopes[i] in scopes;
    }
    forall k | 0 <= k < |limits| && Windowed(limits[k])
      ensures exists i :: 0 <= i < |b| && b[i].scope == ScopeOf(limits[k])
    {
      assert ScopeOf(limits[k]) in scopes;
      var i :| 0 <= i < |scopes| && scopes[i] == ScopeOf(limits[k]);
      assert b[i].scope == scopes[i];
    }
  }

  lemma {:induction false} ScopesUsed(limits: seq<Limit>)
    ensures forall k :: 0 <= k < |limits| && Windowed(limits[k]) ==> ScopeOf(limits[k]) in Scopes(limits)
    ensures forall s :: s in Scopes(limits) ==> Used(limits, s)
  {
    if limits != [] {
      var n := |limits| - 1;
      ScopesUsed(limits[..n]);
      forall s | s in Scopes(limits) ensures Used(limits, s) {
        if s in Scopes(limits[..n]) {
          var k :| 0 <= k < n && Windowed(limits[..n][k]) && ScopeOf(limits[..n][k]) == s;
          assert limits[k] == limits[..n][k];
        } else {
          assert Windowed(limits[n]) && ScopeOf(limits[n]) == s;
        }
      }
    }
  }

  /** The counters of one ledger cell; a derived spend is an i64. */
  datatype Cell = Cell(requests: nat, tokens: nat, spend: int)

  function Reading(c: Cell, m: Metric): int {
    match m
    case Requests => c.requests
    case Tokens => c.tokens
    case Budget => c.spend
    case Concurrent => 0
  }

  predicate WithinLimit(l: Limit, meter: Scope -> Cell, inFlight: nat) {
    if l.metric == Concurrent then inFlight <= l.amount
    else l.per.Some? ==> Reading(meter(Scope(l.per.value, l.pool)), l.metric) <= l.amount
  }

  predicate WithinLimits(limits: seq<Limit>, meter: Scope -> Cell, inFlight: nat) {
    forall k :: 0 <= k < |limits| ==> WithinLimit(limits[k], meter, inFlight)
  }

  predicate Under(x: int, cap: Option<nat>) {
    cap.Some? ==> x <= cap.value
  }

  predicate WithinBucket(b: Bucket, c: Cell) {
    Under(c.requests, b.requestsCap) && Under(c.tokens, b.tokensCap) && Under(c.spend, b.budgetCap)
  }

  predicate WithinBuckets(b: seq<Bucket>, concurrentCap: Option<nat>, meter: Scope -> Cell, inFlight: nat) {
    && (forall i :: 0 <= i < |b| ==> WithinBucket(b[i], meter(b[i].scope)))
    && Under(inFlight, concurrentCap)
  }

  /** The cap on one metric in one scope holds exactly when every limit it stands for does. */
  lemma CapMeans(limits: seq<Limit>, m: Metric, s: Scope, x: int)
    requires m != Concurrent && (m == Budget ==> x <= I64_MAX)
    ensures Under(x, Tightest(limits, m, s)) <==>
      forall k :: 0 <= k < |limits| && Bears(limits[k], m, s) ==> x <= limits[k].amount
  {
    var i := TightestMeaning(limits, m, s);
  }

  lemma {:induction false} ConcurrentMeans(limits: seq<Limit>, inFlight: nat)
    ensures Under(inFlight, TightestConcurrent(limits)) <==>
      forall k :: 0 <= k < |limits| && limits[k].metric == Concurrent ==> inFlight <= limits[k].amount
  {
    if limits != [] {
      var n := |limits| - 1;
      ConcurrentMeans(limits[..n], inFlight);
      assert forall k :: 0 <= k < n ==> limits[k] == limits[..n][k];
    }
  }

  /** Meaning is preserved: usage is at or below every compiled cap exactly when it is at or below
      every configured limit. */
  lemma CompilationPreservesMeaning(name: string, limits: seq<Limit>, meter: Scope -> Cell, inFlight: nat)
    requires forall s :: meter(s).spend <= I64_MAX
    ensures WithinBuckets(Compiled(name, limits), TightestConcurrent(limits), meter, inFlight) <==>
            WithinLimits(limits, meter, inFlight)
  {
    var b := Compiled(name, limits);
    ConcurrentMeans(limits, inFlight);
    BucketsMirrorLimits(name, limits);
    forall i, m: Metric | 0 <= i < |b| && m != Concurrent
      ensures Under(Reading(meter(b[i].scope), m), Tightest(limits, m, b[i].scope)) <==>
        forall k :: 0 <= k < |limits| && Bears(limits[k], m, b[i].scope) ==>
          Reading(meter(b[i].scope), m) <= limits[k].amount
    {
      CapMeans(limits, m, b[i].scope, Reading(meter(b[i].scope), m));
    }
    if WithinBuckets(b, TightestConcurrent(limits), meter, inFlight) {
      forall k | 0 <= k < |limits| ensures WithinLimit(limits[k], meter, inFlight) {
        if Windowed(limits[k]) {
          var i :| 0 <= i < |b| && b[i].scope == ScopeOf(limits[k]);
          assert WithinBucket(b[i], meter(b[i].scope));
          assert Under(Reading(meter(b[i].scope), limits[k].metric), Tightest(limits, limits[k].metric, b[i].scope));
          assert Bears(limits[k], limits[k].metric, b[i].scope);
        }
      }
    }
    if WithinLimits(limits, meter, inFlight) {
      forall i | 0 <= i < |b| ensures WithinBucket(b[i], meter(b[i].scope)) {
        assert forall k, m: Metric :: 0 <= k < |limits| && Bears(limits[k], m, b[i].scope) ==>
          WithinLimit(limits[k], meter, inFlight);
        assert Under(Reading(meter(b[i].scope), Requests), Tightest(limits, Requests, b[i].scope));
        assert Under(Reading(meter(b[i].scope), Tokens), Tightest(limits, Tokens, b[i].scope));
        assert Under(Reading(meter(b[i].scope), Budget), Tightest(limits, Budget, b[i].scope));
      }
    }
  }
}
