/** The group tree and the enforcement chain of a key: its own attribution bucket, then the buckets of
    its group and of every ancestor. */
module CostChain {
  import opened Base
  import opened CostLimits

  datatype GroupCfg = GroupCfg(parent: Option<string>, enabled: bool, limits: seq<Limit>)
  datatype Named = Named(name: string, cfg: GroupCfg)

  datatype GroupRuntime = GroupRuntime(
    name: string, enabled: bool, concurrentCap: Option<nat>, buckets: seq<Bucket>, parent: Option<nat>)

  /** A chain entry: the key's own bucket has no group and no caps. */
  datatype ChainBucket = ChainBucket(bucketId: string, groupName: Option<string>, bucket: Option<Bucket>)

  datatype Chain = Chain(buckets: seq<ChainBucket>, groups: seq<nat>)
  datatype ChainResult = Found(chain: Chain) | MissingGroup(name: string)

  /** Whether a bucket takes part in a request dispatched through `pool`. */
  predicate AppliesToPool(b: ChainBucket, pool: string) {
    b.bucket.None? || b.bucket.value.scope.pool.None? || b.bucket.value.scope.pool.value == pool
  }

  // ---- The group table ----

  /** The position of a name in the table, which is in key order and names each group once. */
  function Find(table: seq<Named>, name: string): (r: Option<nat>)
    ensures r.Some? ==> r.value < |table| && table[r.value].name == name
    ensures r.None? ==> forall i :: 0 <= i < |table| ==> table[i].name != name
  {
    if table == [] then None
    else if table[|table| - 1].name == name then Some(|table| - 1)
    else Find(table[..|table| - 1], name)
  }

  function Runtime(table: seq<Named>, g: Named): GroupRuntime {
    GroupRuntime(g.name, g.cfg.enabled, TightestConcurrent(g.cfg.limits), Compiled(g.name, g.cfg.limits),
                 if g.cfg.parent.Some? then Find(table, g.cfg.parent.value) else None)
  }

  /** The index maps exactly the table's names to their positions. */
  ghost predicate Indexes(index: map<string, nat>, table: seq<Named>) {
    forall n :: if n in index then Find(table, n) == Some(index[n]) else Find(table, n) == None
  }

  /** Project every group; a parent that does not exist is no parent. */
  method ProjectGroups(table: seq<Named>) returns (groups: seq<GroupRuntime>, index: map<string, nat>)
    ensures groups == Projected(table) && ParentsInRange(groups)
    ensures forall i :: 0 <= i < |table| ==> ProjectedFrom(table, i, groups[i])
    ensures Indexes(index, table) && forall n :: n in index ==> index[n] < |groups|
  {
    index := IndexNames(table);
    groups := [];
    for i := 0 to |table|
      invariant |groups| == i
      invariant forall k :: 0 <= k < i ==> groups[k] == Runtime(table, table[k])
    {
      var g := table[i];
      var buckets, concurrentCap := ProjectLimits(g.name, g.cfg.limits);
      var parent := if g.cfg.parent.Some? && g.cfg.parent.value in index
                    then Some(index[g.cfg.parent.value]) else None;
      groups := groups + [GroupRuntime(g.name, g.cfg.enabled, concurrentCap, buckets, parent)];
    }
  }

  /** Group `k` is the one that group `i`'s configuration names as its parent. */
  predicate ParentNamed(table: seq<Named>, i: nat, k: nat) {
    i < |table| && k < |table| && table[i].cfg.parent == Some(table[k].name)
  }

  /** Group `i`'s configuration names no parent, or one that does not exist. */
  predicate NoParent(table: seq<Named>, i: nat)
    requires i < |table|
  {
    table[i].cfg.parent.None? || forall k :: 0 <= k < |table| ==> table[k].name != table[i].cfg.parent.value
  }

  /** The runtime form keeps the group's name, its switch and its parent. */
  predicate ProjectedFrom(table: seq<Named>, i: nat, g: GroupRuntime)
    requires i < |table|
  {
    && g.name == table[i].name && g.enabled == table[i].cfg.enabled
    && if g.parent.Some? then ParentNamed(table, i, g.parent.value) else NoParent(table, i)
  }

  method IndexNames(table: seq<Named>) returns (index: map<string, nat>)
    ensures Indexes(index, table)
  {
    index := map[];
    for i := 0 to |table|
      invariant Indexes(index, table[..i])
    {
      assert table[..i + 1][..i] == table[..i];
      index := index[table[i].name := i];
    }
    assert table[..|table|] == table;
  }

  function Projected(table: seq<Named>): (groups: seq<GroupRuntime>)
    ensures |groups| == |table| && forall i :: 0 <= i < |table| ==> groups[i] == Runtime(table, table[i])
    ensures ParentsInRange(groups)
  {
    seq(|table|, i requires 0 <= i < |table| => Runtime(table, table[i]))
  }

  predicate ParentsInRange(groups: seq<GroupRuntime>) {
    forall i :: 0 <= i < |groups| && groups[i].parent.Some? ==> groups[i].parent.value < |groups|
  }

  // ---- The walk ----

  /** At most `fuel` steps of the parent chain from `next`. */
  function Walk(groups: seq<GroupRuntime>, next: Option<nat>, fuel: nat): (w: seq<nat>)
    requires ParentsInRange(groups) && (next.Some? ==> next.value < |groups|)
    ensures forall i :: 0 <= i < |w| ==> w[i] < |groups|
    decreases fuel
  {
    if next.None? || fuel == 0 then [] else [next.value] + Walk(groups, groups[next.value].parent, fuel - 1)
  }

  function BucketsOf(g: GroupRuntime): seq<ChainBucket> {
    seq(|g.buckets|, i requires 0 <= i < |g.buckets| =>
      ChainBucket(g.buckets[i].id, Some(g.name), Some(g.buckets[i])))
  }

  function BucketsAlong(groups: seq<GroupRuntime>, path: seq<nat>): seq<ChainBucket>
    requires forall i :: 0 <= i < |path| ==> path[i] < |groups|
  {
    if path == [] then [] else BucketsAlong(groups, path[..|path| - 1]) + BucketsOf(groups[path[|path| - 1]])
  }

  function KeyBucket(keyId: string): ChainBucket {
    ChainBucket(keyId, None, None)
  }

  method ChainFor(groups: seq<GroupRuntime>, index: map<string, nat>, keyId: string, keyGroup: Option<string>)
    returns (r: ChainResult)
    requires ParentsInRange(groups) && forall n :: n in index ==> index[n] < |groups|
    ensures r.MissingGroup? <==> keyGroup.Some? && keyGroup.value !in index
    ensures r.MissingGroup? ==> r.name == keyGroup.value
    ensures r.Found? ==>
      var start := if keyGroup.Some? then Some(index[keyGroup.value]) else None;
      && r.chain.groups == Walk(groups, start, |groups|)
      && r.chain.buckets == [KeyBucket(keyId)] + BucketsAlong(groups, r.chain.groups)
      && (start.Some? && !Cyclic(groups) ==> PathToRoot(groups, start.value, r.chain.groups))
  {
    hide PathToRoot, Cyclic, Walk, BucketsAlong;
    var start: Option<nat> := None;
    if keyGroup.Some? {
      if keyGroup.value !in index {
        return MissingGroup(keyGroup.value);
      }
      start := Some(index[keyGroup.value]);
    }
    var buckets, path := WalkUp(groups, [KeyBucket(keyId)], start);
    if start.Some? && !Cyclic(groups) {
      WalkReachesRoot(groups, start.value);
    }
    r := Found(Chain(buckets, path));
  }

  /** Push the buckets of each group on the way up, for at most as many groups as there are. */
  method WalkUp(groups: seq<GroupRuntime>, head: seq<ChainBucket>, start: Option<nat>)
    returns (buckets: seq<ChainBucket>, path: seq<nat>)
    requires ParentsInRange(groups) && (start.Some? ==> start.value < |groups|)
    ensures path == Walk(groups, start, |groups|)
    ensures buckets == head + BucketsAlong(groups, path)
  {
    hide BucketsOf, BucketsAlong, Walk;
    var next: Option<nat> := start;
    buckets, path := head, [];
    StartAlong(groups, head);
    while next.Some? && |path| < |groups|
      invariant |path| <= |groups| && (next.Some? ==> next.value < |groups|)
      invariant forall i :: 0 <= i < |path| ==> path[i] < |groups|
      invariant Walk(groups, start, |groups|) == path + Walk(groups, next, |groups| - |path|)
      invariant buckets == head + BucketsAlong(groups, path)
      decreases |groups| - |path|
    {
      var g := groups[next.value];
      WalkStep(groups, next, |groups| - |path|);
      StepAlong(groups, path, next.value, head, Walk(groups, g.parent, |groups| - |path| - 1));
      buckets := PushBuckets(buckets, g);
      path := path + [next.value];
      next := g.parent;
    }
    WalkStep(groups, next, |groups| - |path|);
    assert path + [] == path;
  }

  lemma StartAlong(groups: seq<GroupRuntime>, head: seq<ChainBucket>)
    ensures head + BucketsAlong(groups, []) == head
  {
  }

  lemma WalkStep(groups: seq<GroupRuntime>, next: Option<nat>, fuel: nat)
    requires ParentsInRange(groups) && (next.Some? ==> next.value < |groups|)
    ensures Walk(groups, next, fuel) ==
      if next.None? || fuel == 0 then [] else [next.value] + Walk(groups, groups[next.value].parent, fuel - 1)
  {
  }

  lemma StepAlong(groups: seq<GroupRuntime>, path: seq<nat>, i: nat, head: seq<ChainBucket>, later: seq<nat>)
    requires i < |groups| && forall k :: 0 <= k < |path| ==> path[k] < |groups|
    ensures path + ([i] + later) == (path + [i]) + later
    ensures head + BucketsAlong(groups, path + [i]) == (head + BucketsAlong(groups, path)) + BucketsOf(groups[i])
  {
    assert (path + [i])[..|path|] == path;
  }

  method PushBuckets(buckets: seq<ChainBucket>, g: GroupRuntime) returns (r: seq<ChainBucket>)
    ensures r == buckets + BucketsOf(g)
  {
    r := buckets;
    for i := 0 to |g.buckets|
      invariant r == buckets + BucketsOf(g)[..i]
    {
      r := r + [ChainBucket(g.buckets[i].id, Some(g.name), Some(g.buckets[i]))];
    }
  }

  // ---- What the walk finds ----

  /** The `k`-th ancestor of group `i`, counting the group itself as the zeroth. */
  function Ancestor(groups: seq<GroupRuntime>, i: nat, k: nat): (r: Option<nat>)
    requires ParentsInRange(groups) && i < |groups|
    ensures r.Some? ==> r.value < |groups|
  {
    if k == 0 then Some(i)
    else
      var before := Ancestor(groups, i, k - 1);
      if before.Some? then groups[before.value].parent else None
  }

  /** Some group is its own proper ancestor. */
  ghost predicate Cyclic(groups: seq<GroupRuntime>)
    requires ParentsInRange(groups)
  {
    exists i, k :: 0 <= i < |groups| && k > 0 && Ancestor(groups, i, k) == Some(i)
  }

  /** `path` is the whole chain from `start` up to a group with no parent, each group once. */
  predicate PathToRoot(groups: seq<GroupRuntime>, start: nat, path: seq<nat>) {
    && path != [] && path[0] == start
    && (forall j :: 0 <= j < |path| ==> path[j] < |groups|)
    && (forall j :: 0 <= j < |path| - 1 ==> groups[path[j]].parent == Some(path[j + 1]))
    && groups[path[|path| - 1]].parent.None?
    && (forall j, k :: 0 <= j < k < |path| ==> path[j] != path[k])
  }

  lemma {:induction false} AncestorOfParent(groups: seq<GroupRuntime>, i: nat, k: nat)
    requires ParentsInRange(groups) && i < |groups|
    ensures Ancestor(groups, i, k + 1) ==
      if groups[i].parent.Some? then Ancestor(groups, groups[i].parent.value, k) else None
  {
    if k > 0 {
      AncestorOfParent(groups, i, k - 1);
    }
  }

  lemma {:induction false} AncestorCompose(groups: seq<GroupRuntime>, i: nat, a: nat, b: nat)
    requires ParentsInRange(groups) && i < |groups| && Ancestor(groups, i, a).Some?
    ensures Ancestor(groups, i, a + b) == Ancestor(groups, Ancestor(groups, i, a).value, b)
  {
    if b > 0 {
      AncestorCompose(groups, i, a, b - 1);
    }
  }

  /** The walk lists the ancestors in order, as many as there are within the fuel. */
  lemma {:induction false} WalkListsAncestors(groups: seq<GroupRuntime>, start: nat, fuel: nat)
    requires ParentsInRange(groups) && start < |groups|
    ensures var w := Walk(groups, Some(start), fuel);
      && |w| <= fuel
      && (forall j :: 0 <= j < |w| ==> Ancestor(groups, start, j) == Some(w[j]))
      && (|w| < fuel ==> Ancestor(groups, start, |w|) == None)
    decreases fuel
  {
    if fuel > 0 {
      var p := groups[start].parent;
      var w := Walk(groups, Some(start), fuel);
      if p.Some? {
        WalkListsAncestors(groups, p.value, fuel - 1);
      }
      forall j | 0 < j <= |w|
        ensures Ancestor(groups, start, j) == if p.Some? then Ancestor(groups, p.value, j - 1) else None
      {
        AncestorOfParent(groups, start, j - 1);
      }
    }
  }

  lemma {:induction false} DistinctBounded(s: seq<nat>, n: nat)
    requires forall i :: 0 <= i < |s| ==> s[i] < n
    requires forall i, j :: 0 <= i < j < |s| ==> s[i] != s[j]
    ensures |s| <= n
  {
    if s != [] {
      // Move the greatest value out of the way, and drop it.
      assert s[0] < n;
      var m: nat := n - 1;
      if m in s {
        var i :| 0 <= i < |s| && s[i] == m;
        DistinctBounded(s[..i] + s[i + 1..], m);
      } else {
        DistinctBounded(s, m);
      }
    }
  }

  /** Two equal ancestors make a cycle. */
  lemma RepeatIsCycle(groups: seq<GroupRuntime>, start: nat, a: nat, b: nat)
    requires ParentsInRange(groups) && start < |groups| && a < b
    requires Ancestor(groups, start, a).Some? && Ancestor(groups, start, a) == Ancestor(groups, start, b)
    ensures Cyclic(groups)
  {
    AncestorCompose(groups, start, a, b - a);
    var x := Ancestor(groups, start, a).value;
    assert Ancestor(groups, x, b - a) == Some(x);
  }

  lemma Pigeonhole(s: seq<nat>, n: nat) returns (a: nat, b: nat)
    requires |s| > n && forall i :: 0 <= i < |s| ==> s[i] < n
    ensures a < b < |s| && s[a] == s[b]
  {
    if forall i, j :: 0 <= i < j < |s| ==> s[i] != s[j] {
      DistinctBounded(s, n);
    }
    a, b :| 0 <= a < b < |s| && s[a] == s[b];
  }

  /** If there is an ancestor at the distance of the number of groups, an earlier one repeats. */
  lemma LongWalkRepeats(groups: seq<GroupRuntime>, start: nat) returns (a: nat, b: nat)
    requires ParentsInRange(groups) && start < |groups| && Ancestor(groups, start, |groups|).Some?
    ensures a < b && Ancestor(groups, start, a).Some? && Ancestor(groups, start, a) == Ancestor(groups, start, b)
  {
    var n := |groups|;
    forall j | 0 <= j <= n ensures Ancestor(groups, start, j).Some? {
      AncestorsBelow(groups, start, j, n);
    }
    var all: seq<nat> := seq(n + 1, j requires 0 <= j <= n => Ancestor(groups, start, j).value);
    a, b := Pigeonhole(all, n);
  }

  /** In a table with no cycle the walk is the whole distinct path to the root: the clamp at the number
      of groups never cuts it short. */
  lemma WalkReachesRoot(groups: seq<GroupRuntime>, start: nat)
    requires ParentsInRange(groups) && start < |groups| && !Cyclic(groups)
    ensures PathToRoot(groups, start, Walk(groups, Some(start), |groups|))
  {
    var n := |groups|;
    var w := Walk(groups, Some(start), n);
    WalkListsAncestors(groups, start, n);
    forall j, k | 0 <= j < k < |w| ensures w[j] != w[k] {
      if w[j] == w[k] {
        RepeatIsCycle(groups, start, j, k);
      }
    }
    if Ancestor(groups, start, n).Some? {
      var a, b := LongWalkRepeats(groups, start);
      RepeatIsCycle(groups, start, a, b);
    }
    assert Ancestor(groups, start, |w|) == None;
    AncestorLinks(groups, start, w);
  }

  /** Consecutive ancestors are linked by `parent`. */
  lemma AncestorLinks(groups: seq<GroupRuntime>, start: nat, w: seq<nat>)
    requires ParentsInRange(groups) && start < |groups| && w != []
    requires forall j :: 0 <= j < |w| ==> Ancestor(groups, start, j) == Some(w[j])
    ensures w[0] == start && (forall j :: 0 <= j < |w| ==> w[j] < |groups|)
    ensures forall j :: 0 <= j < |w| - 1 ==> groups[w[j]].parent == Some(w[j + 1])
    ensures groups[w[|w| - 1]].parent == Ancestor(groups, start, |w|)
  {
    assert Ancestor(groups, start, 0) == Some(w[0]);
    forall j | 0 <= j < |w| ensures w[j] < |groups| && groups[w[j]].parent == Ancestor(groups, start, j + 1) {
      assert Ancestor(groups, start, j) == Some(w[j]);
    }
  }

  /** On any table at all, the walk takes at most as many steps as there are groups, and it stops early
      only at a root. */
  lemma WalkIsBounded(groups: seq<GroupRuntime>, start: nat)
    requires ParentsInRange(groups) && start < |groups|
    ensures var w := Walk(groups, Some(start), |groups|);
      && 0 < |w| <= |groups|
      && (groups[w[|w| - 1]].parent.None? <==> exists k: nat :: Ancestor(groups, start, k).None?)
  {
    var n := |groups|;
    var w := Walk(groups, Some(start), n);
    WalkListsAncestors(groups, start, n);
    assert Ancestor(groups, start, |w|) == groups[w[|w| - 1]].parent;
    if k: nat :| Ancestor(groups, start, k).None? && groups[w[|w| - 1]].parent.Some? {
      EndlessWalkNeverEnds(groups, start, k);
    }
  }

  /** Once every one of the first `n` ancestors and one more exists, two coincide and none is the last. */
  lemma EndlessWalkNeverEnds(groups: seq<GroupRuntime>, start: nat, k: nat)
    requires ParentsInRange(groups) && start < |groups|
    requires Ancestor(groups, start, |groups|).Some?
    ensures Ancestor(groups, start, k).Some?
  {
    var a, b := LongWalkRepeats(groups, start);
    Periodic(groups, start, a, b, k);
  }

  lemma {:induction false} AncestorsBelow(groups: seq<GroupRuntime>, start: nat, j: nat, k: nat)
    requires ParentsInRange(groups) && start < |groups| && j <= k && Ancestor(groups, start, k).Some?
    ensures Ancestor(groups, start, j).Some?
    decreases k - j
  {
    if j < k {
      AncestorsBelow(groups, start, j + 1, k);
    }
  }

  lemma {:induction false} Periodic(groups: seq<GroupRuntime>, start: nat, a: nat, b: nat, k: nat)
    requires ParentsInRange(groups) && start < |groups| && a < b
    requires Ancestor(groups, start, a).Some? && Ancestor(groups, start, a) == Ancestor(groups, start, b)
    ensures Ancestor(groups, start, k).Some?
  {
    if k <= b {
      AncestorsBelow(groups, start, k, b);
    } else {
      Periodic(groups, start, a, b, k - (b - a));
      AncestorCompose(groups, start, a, k - b);
      AncestorCompose(groups, start, b, k - b);
    }
  }
}
