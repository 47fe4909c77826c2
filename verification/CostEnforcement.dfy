/** What an enforcement chain enforces: the configured limits of the key's group and of every ancestor. */
module CostEnforcement {
  import opened Base
  import opened CostLimits
  import opened CostChain

  /** Ledger cells are found by bucket id. */
  type Cells = string -> Cell

  predicate Covers(s: Scope, pool: string) {
    s.pool.None? || s.pool.value == pool
  }

  /** What one group's limits read for a request through `pool`: a limit on another pool reads nothing. */
  function MeterFor(cells: Cells, name: string, pool: string): Scope -> Cell {
    s => if Covers(s, pool) then cells(BucketId(name, s)) else Cell(0, 0, 0)
  }

  /** The chain entry is within its caps, or takes no part in a request through `pool`. */
  predicate EntryWithin(b: ChainBucket, cells: Cells, pool: string) {
    AppliesToPool(b, pool) && b.bucket.Some? ==> WithinBucket(b.bucket.value, cells(b.bucketId))
  }

  predicate AllWithin(bs: seq<ChainBucket>, cells: Cells, pool: string) {
    forall i :: 0 <= i < |bs| ==> EntryWithin(bs[i], cells, pool)
  }

  predicate OnTable(path: seq<nat>, table: seq<Named>) {
    forall j :: 0 <= j < |path| ==> path[j] < |table|
  }

  predicate ConcurrencyWithin(table: seq<Named>, path: seq<nat>, inFlight: nat -> nat)
    requires OnTable(path, table)
  {
    forall j :: 0 <= j < |path| ==> Under(inFlight(path[j]), Projected(table)[path[j]].concurrentCap)
  }

  /** Group `i`'s own configured limits hold. */
  predicate GroupWithin(table: seq<Named>, i: nat, cells: Cells, pool: string, inFlight: nat)
    requires i < |table|
  {
    WithinLimits(table[i].cfg.limits, MeterFor(cells, table[i].name, pool), inFlight)
  }

  /** One group's buckets in the chain mean that group's limits. */
  lemma GroupBucketsMean(table: seq<Named>, i: nat, cells: Cells, pool: string, inFlight: nat)
    requires i < |table| && forall id :: cells(id).spend <= I64_MAX
    ensures var g := Projected(table)[i];
      (AllWithin(BucketsOf(g), cells, pool) && Under(inFlight, g.concurrentCap)) <==>
      GroupWithin(table, i, cells, pool, inFlight)
  {
    var g, name, limits := Projected(table)[i], table[i].name, table[i].cfg.limits;
    var meter := MeterFor(cells, name, pool);
    forall s ensures meter(s).spend <= I64_MAX {
      assert cells(BucketId(name, s)).spend <= I64_MAX;
    }
    CompilationPreservesMeaning(name, limits, meter, inFlight);
    var b, bs := Compiled(name, limits), BucketsOf(g);
    forall k | 0 <= k < |b| ensures EntryWithin(bs[k], cells, pool) <==> WithinBucket(b[k], meter(b[k].scope)) {
      assert bs[k] == ChainBucket(b[k].id, Some(name), Some(b[k]));
      assert b[k].id == BucketId(name, b[k].scope);
    }
    if AllWithin(bs, cells, pool) {
      forall k | 0 <= k < |b| ensures WithinBucket(b[k], meter(b[k].scope)) {
        assert EntryWithin(bs[k], cells, pool);
      }
    }
    if WithinBuckets(b, TightestConcurrent(limits), meter, inFlight) {
      forall k | 0 <= k < |bs| ensures EntryWithin(bs[k], cells, pool) {
        assert WithinBucket(b[k], meter(b[k].scope));
      }
    }
  }

  lemma AllWithinAppend(a: seq<ChainBucket>, b: seq<ChainBucket>, cells: Cells, pool: string)
    ensures AllWithin(a + b, cells, pool) <==> AllWithin(a, cells, pool) && AllWithin(b, cells, pool)
  {
    assert forall i :: 0 <= i < |a| ==> (a + b)[i] == a[i];
    assert forall i :: 0 <= i < |b| ==> (a + b)[|a| + i] == b[i];
  }

  lemma ConcurrencySnoc(table: seq<Named>, path: seq<nat>, inFlight: nat -> nat)
    requires OnTable(path, table) && path != []
    ensures var n := |path| - 1;
      ConcurrencyWithin(table, path, inFlight) <==>
      ConcurrencyWithin(table, path[..n], inFlight) && Under(inFlight(path[n]), Projected(table)[path[n]].concurrentCap)
  {
    assert forall j :: 0 <= j < |path| - 1 ==> path[j] == path[..|path| - 1][j];
  }

  /** The configured limits of every group on the path hold. */
  predicate GroupsWithin(table: seq<Named>, path: seq<nat>, cells: Cells, pool: string, inFlight: nat -> nat)
    requires OnTable(path, table)
  {
    forall j :: 0 <= j < |path| ==> GroupWithin(table, path[j], cells, pool, inFlight(path[j]))
  }

  lemma GroupsSnoc(table: seq<Named>, path: seq<nat>, cells: Cells, pool: string, inFlight: nat -> nat)
    requires OnTable(path, table) && path != []
    ensures var n := |path| - 1;
      GroupsWithin(table, path, cells, pool, inFlight) <==>
      GroupsWithin(table, path[..n], cells, pool, inFlight) && GroupWithin(table, path[n], cells, pool, inFlight(path[n]))
  {
    hide GroupWithin;
    assert forall j :: 0 <= j < |path| - 1 ==> path[j] == path[..|path| - 1][j];
  }

  lemma {:induction false} PathMeans(table: seq<Named>, path: seq<nat>, cells: Cells, pool: string, inFlight: nat -> nat)
    requires OnTable(path, table) && forall id :: cells(id).spend <= I64_MAX
    ensures (AllWithin(BucketsAlong(Projected(table), path), cells, pool) && ConcurrencyWithin(table, path, inFlight)) <==>
      GroupsWithin(table, path, cells, pool, inFlight)
  {
    if path != [] {
      hide EntryWithin, GroupWithin, GroupsWithin, Projected, AllWithin, Under, ConcurrencyWithin;
      var n := |path| - 1;
      var init, last := path[..n], path[n];
      PathMeans(table, init, cells, pool, inFlight);
      GroupBucketsMean(table, last, cells, pool, inFlight(last));
      AllWithinAppend(BucketsAlong(Projected(table), init), BucketsOf(Projected(table)[last]), cells, pool);
      ConcurrencySnoc(table, path, inFlight);
      GroupsSnoc(table, path, cells, pool, inFlight);
    }
  }

  // ---- The configured tree ----

  /** Group names are the keys of the configuration, so no two are equal. */
  predicate DistinctNames(table: seq<Named>) {
    forall i, j :: 0 <= i < j < |table| ==> table[i].name != table[j].name
  }

  /** Each group on the path is the configured parent of the one before it. */
  predicate Lineage(table: seq<Named>, path: seq<nat>) {
    && path != [] && OnTable(path, table)
    && forall j :: 0 <= j < |path| - 1 ==> ParentNamed(table, path[j], path[j + 1])
  }

  /** Group `i` is `start` or one of its configured ancestors. */
  ghost predicate ConfiguredAncestor(table: seq<Named>, start: nat, i: nat) {
    exists path :: Lineage(table, path) && path[0] == start && path[|path| - 1] == i
  }

  /** Following the configured parent names comes back to where it began. */
  ghost predicate ConfiguredCycle(table: seq<Named>) {
    exists path :: Lineage(table, path) && |path| > 1 && path[0] == path[|path| - 1]
  }

  lemma ProjectedParent(table: seq<Named>, i: nat)
    requires i < |table|
    ensures ProjectedFrom(table, i, Projected(table)[i])
  {
  }

  lemma ParentIsUnique(table: seq<Named>, i: nat, k: nat)
    requires DistinctNames(table) && ParentNamed(table, i, k)
    ensures Projected(table)[i].parent == Some(k)
  {
    ProjectedParent(table, i);
  }

  /** The ancestors that the projection finds are a configured lineage. */
  lemma AncestorsAreLineage(table: seq<Named>, start: nat, k: nat) returns (path: seq<nat>)
    requires start < |table| && Ancestor(Projected(table), start, k).Some?
    ensures Lineage(table, path) && |path| == k + 1 && path[0] == start
    ensures Some(path[k]) == Ancestor(Projected(table), start, k)
  {
    hide Projected;
    var groups := Projected(table);
    forall j: nat | j <= k ensures Ancestor(groups, start, j).Some? {
      AncestorsBelow(groups, start, j, k);
    }
    path := seq(k + 1, j requires 0 <= j <= k => Ancestor(groups, start, j).value);
    forall j | 0 <= j < |path| - 1 ensures ParentNamed(table, path[j], path[j + 1]) {
      ProjectedParent(table, path[j]);
      assert Ancestor(groups, start, j + 1) == groups[path[j]].parent;
    }
  }

  lemma ConfiguredAcyclic(table: seq<Named>)
    requires !ConfiguredCycle(table)
    ensures !Cyclic(Projected(table))
  {
    hide Projected;
    var groups := Projected(table);
    if Cyclic(groups) {
      var i: nat, k: nat :| i < |groups| && k > 0 && Ancestor(groups, i, k) == Some(i);
      var path := AncestorsAreLineage(table, i, k);
    }
  }

  /** A configured lineage is what the projection finds. */
  lemma {:induction false} LineageIsFound(table: seq<Named>, path: seq<nat>)
    requires DistinctNames(table) && Lineage(table, path)
    ensures Ancestor(Projected(table), path[0], |path| - 1) == Some(path[|path| - 1])
  {
    hide Projected;
    var n := |path| - 1;
    if n > 0 {
      LineageIsFound(table, path[..n]);
      assert ParentNamed(table, path[n - 1], path[n]);
      ParentIsUnique(table, path[n - 1], path[n]);
    }
  }

  /** In a configuration without a cycle, the walk is the configured lineage of the group, each group
      once, up to one with no parent. */
  lemma WalkIsLineage(table: seq<Named>, start: nat)
    requires !ConfiguredCycle(table) && start < |table|
    ensures var path := Walk(Projected(table), Some(start), |table|);
      && Lineage(table, path) && path[0] == start && NoParent(table, path[|path| - 1])
      && (forall j, k :: 0 <= j < k < |path| ==> path[j] != path[k])
  {
    hide Projected, NoParent, ParentNamed, Walk, ConfiguredCycle;
    var groups := Projected(table);
    var path := Walk(groups, Some(start), |groups|);
    ConfiguredAcyclic(table);
    WalkReachesRoot(groups, start);
    forall j | 0 <= j < |path| - 1 ensures ParentNamed(table, path[j], path[j + 1]) {
      ProjectedParent(table, path[j]);
    }
    ProjectedParent(table, path[|path| - 1]);
  }

  lemma PartOfLineage(table: seq<Named>, path: seq<nat>, j: nat)
    requires Lineage(table, path) && j < |path|
    ensures ConfiguredAncestor(table, path[0], path[j])
  {
    var part := path[..j + 1];
    assert Lineage(table, part) && part[0] == path[0] && part[|part| - 1] == path[j];
  }

  lemma AncestorIsWalked(table: seq<Named>, start: nat, i: nat)
    requires DistinctNames(table) && !ConfiguredCycle(table) && start < |table| && ConfiguredAncestor(table, start, i)
    ensures i in Walk(Projected(table), Some(start), |table|)
  {
    hide Projected, Walk, ConfiguredCycle, Cyclic, ParentNamed, DistinctNames;
    var groups := Projected(table);
    var path := Walk(groups, Some(start), |groups|);
    ConfiguredAcyclic(table);
    WalkReachesRoot(groups, start);
    WalkListsAncestors(groups, start, |groups|);
    var line :| Lineage(table, line) && line[0] == start && line[|line| - 1] == i;
    LineageIsFound(table, line);
    PastTheRoot(groups, start, path, |line| - 1);
    assert path[|line| - 1] == i;
  }

  /** And it lists exactly the configured ancestors. */
  lemma WalkIsConfigured(table: seq<Named>, start: nat)
    requires DistinctNames(table) && !ConfiguredCycle(table) && start < |table|
    ensures var path := Walk(Projected(table), Some(start), |table|);
      && Lineage(table, path) && path[0] == start && NoParent(table, path[|path| - 1])
      && (forall j, k :: 0 <= j < k < |path| ==> path[j] != path[k])
      && (forall i :: i in path <==> ConfiguredAncestor(table, start, i))
  {
    hide Projected, NoParent, Walk, ConfiguredCycle, ConfiguredAncestor, ParentNamed, DistinctNames;
    var path := Walk(Projected(table), Some(start), |table|);
    WalkIsLineage(table, start);
    forall i | i in path ensures ConfiguredAncestor(table, start, i) {
      var j :| 0 <= j < |path| && path[j] == i;
      PartOfLineage(table, path, j);
    }
    forall i: nat | ConfiguredAncestor(table, start, i) ensures i in path {
      AncestorIsWalked(table, start, i);
    }
  }

  /** Past the last of a root path there are no ancestors. */
  lemma PastTheRoot(groups: seq<GroupRuntime>, start: nat, path: seq<nat>, k: nat)
    requires ParentsInRange(groups) && start < |groups| && path != []
    requires forall j :: 0 <= j < |path| ==> path[j] < |groups| && Ancestor(groups, start, j) == Some(path[j])
    requires groups[path[|path| - 1]].parent.None? && Ancestor(groups, start, k).Some?
    ensures k < |path|
  {
    assert Ancestor(groups, start, |path| - 1) == Some(path[|path| - 1]);
    assert Ancestor(groups, start, |path|) == None;
    if k >= |path| {
      AncestorsBelow(groups, start, |path|, k);
    }
  }

  /** End to end, from the configuration: where following the configured parent names never comes back, a
      request of a key in group `start` through `pool` is within every entry of its chain exactly when it
      is within every configured limit, on that pool or on all, of `start` and of every configured
      ancestor of it. */
  lemma ChainEnforcesAncestorLimits(table: seq<Named>, start: nat, keyId: string, cells: Cells, pool: string,
                                    inFlight: nat -> nat)
    requires DistinctNames(table) && !ConfiguredCycle(table) && start < |table|
    requires forall id :: cells(id).spend <= I64_MAX
    ensures var groups := Projected(table);
      var path := Walk(groups, Some(start), |groups|);
      (AllWithin([KeyBucket(keyId)] + BucketsAlong(groups, path), cells, pool) && ConcurrencyWithin(table, path, inFlight)) <==>
      forall i :: 0 <= i < |table| && ConfiguredAncestor(table, start, i) ==> GroupWithin(table, i, cells, pool, inFlight(i))
  {
    hide Projected, GroupWithin, Walk, ConfiguredAncestor, ConfiguredCycle, EntryWithin, ConcurrencyWithin;
    var groups := Projected(table);
    var path := Walk(groups, Some(start), |groups|);
    WalkIsConfigured(table, start);
    PathMeans(table, path, cells, pool, inFlight);
    AllWithinAppend([KeyBucket(keyId)], BucketsAlong(groups, path), cells, pool);
    KeyAlwaysWithin(keyId, cells, pool);
    if GroupsWithin(table, path, cells, pool, inFlight) {
      forall i | 0 <= i < |table| && ConfiguredAncestor(table, start, i) ensures GroupWithin(table, i, cells, pool, inFlight(i)) {
        assert i in path;
      }
    }
    if forall i :: 0 <= i < |table| && ConfiguredAncestor(table, start, i) ==> GroupWithin(table, i, cells, pool, inFlight(i)) {
      forall j | 0 <= j < |path| ensures GroupWithin(table, path[j], cells, pool, inFlight(path[j])) {
        assert path[j] in path;
      }
    }
  }

  lemma KeyAlwaysWithin(keyId: string, cells: Cells, pool: string)
    ensures AllWithin([KeyBucket(keyId)], cells, pool)
  {
  }
}
