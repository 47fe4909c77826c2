/** The credential cache: a bounded map of short-lived verdicts, refined against the full history of
    what was ever put and flushed. The credential digest is a parameter. */
module CredentialCache {
  import opened Base

  const DEFAULT_IDENTIFY_TTL_SECS: nat := 300
  const MAX_IDENTIFY_TTL_SECS: nat := 3600
  const PASS_TTL_SECS: nat := 5
  const MAX_ENTRIES: nat := 4096

  datatype Principal = Principal(id: string, name: Option<string>, roles: seq<string>, ttlSecs: Option<nat>)
  datatype Outcome = Identify(principal: Principal) | Reject | Pass

  /** `(module name, credential digest)`. */
  type Key = (string, string)

  /** `verdict` is never `Reject`. */
  datatype Entry = Entry(expiresAt: nat, insertedSeq: nat, verdict: Outcome)
  datatype Cache = Cache(entries: map<Key, Entry>, seq_: nat)

  const EMPTY := Cache(map[], 0)

  /** How long a verdict may be served: the module's wish under the hard cap, or a short time with a
      jitter fixed by the digest. */
  function Ttl(outcome: Outcome, digest: string): (t: nat)
    ensures outcome.Identify? ==> t <= MAX_IDENTIFY_TTL_SECS
    ensures outcome.Pass? ==> PASS_TTL_SECS <= t <= PASS_TTL_SECS + 2
  {
    match outcome
    case Identify(p) =>
      var wish := if p.ttlSecs.Some? then p.ttlSecs.value else DEFAULT_IDENTIFY_TTL_SECS;
      if wish < MAX_IDENTIFY_TTL_SECS then wish else MAX_IDENTIFY_TTL_SECS
    case Pass => PASS_TTL_SECS + if digest == "" then 0 else digest[0] as int % 3
    case Reject => 0
  }

  /** A module's own lifetime is honoured up to an hour, its silence means five minutes, and a pass
      lasts five seconds and up to two more, fixed by the digest. */
  lemma TtlMeaning(p: Principal, digest: string, t: nat)
    ensures p.ttlSecs == Some(t) && t <= 3600 ==> Ttl(Identify(p), digest) == t
    ensures p.ttlSecs == Some(t) && t > 3600 ==> Ttl(Identify(p), digest) == 3600
    ensures p.ttlSecs == None ==> Ttl(Identify(p), digest) == 300
    ensures digest != "" ==> Ttl(Pass, digest) == 5 + digest[0] as int % 3
  {
  }

  function Lookup(c: Cache, k: Key, now: nat): Option<Outcome> {
    if k in c.entries && c.entries[k].expiresAt > now then Some(c.entries[k].verdict) else None
  }

  function AfterGet(c: Cache, k: Key, now: nat): Cache {
    if k in c.entries && c.entries[k].expiresAt <= now then c.(entries := c.entries - {k}) else c
  }

  function Swept(m: map<Key, Entry>, now: nat): map<Key, Entry> {
    map k | k in m && m[k].expiresAt > now :: m[k]
  }

  predicate IsOldest(m: map<Key, Entry>, k: Key) {
    k in m && forall j :: j in m ==> m[k].insertedSeq <= m[j].insertedSeq
  }

  predicate SeqsDistinct(m: map<Key, Entry>) {
    forall j, k :: j in m && k in m && m[j].insertedSeq == m[k].insertedSeq ==> j == k
  }

  lemma {:induction false} OldestExists(m: map<Key, Entry>)
    requires m != map[]
    ensures exists k :: IsOldest(m, k)
    decreases |m|
  {
    var k :| k in m;
    var rest := m - {k};
    if rest == map[] {
      assert forall j :: j in m ==> j in rest || j == k;
      assert IsOldest(m, k);
    } else {
      assert |rest.Keys| < |m.Keys| by {
        assert rest.Keys == m.Keys - {k};
      }
      OldestExists(rest);
      var o :| IsOldest(rest, o);
      assert forall j :: j in m ==> j == k || (j in rest && rest[j] == m[j]);
      assert IsOldest(m, if m[k].insertedSeq < m[o].insertedSeq then k else o);
    }
  }

  ghost function Oldest(m: map<Key, Entry>): (k: Key)
    requires m != map[]
    ensures IsOldest(m, k)
  {
    OldestExists(m);
    var k :| IsOldest(m, k);
    k
  }

  /** Make room for one entry: sweep the expired, then if need be drop the oldest-inserted. */
  ghost function Room(m: map<Key, Entry>, now: nat): map<Key, Entry> {
    if |m| < MAX_ENTRIES then m
    else
      var s := Swept(m, now);
      if |s| < MAX_ENTRIES then s else s - {Oldest(s)}
  }

  ghost function AfterPut(c: Cache, k: Key, outcome: Outcome, now: nat): Cache {
    if outcome.Reject? then c
    else
      var e := Entry(now + Ttl(outcome, k.1), c.seq_ + 1, outcome);
      Cache(Room(c.entries, now)[k := e], c.seq_ + 1)
  }

  function WithoutModule(m: map<Key, Entry>, name: string): map<Key, Entry> {
    map k | k in m && k.0 != name :: m[k]
  }

  predicate SeqsBelow(m: map<Key, Entry>, n: nat) {
    forall k :: k in m ==> m[k].insertedSeq <= n
  }

  /** Entries that only shrink keep their insert numbers distinct; a new one takes the next number. */
  lemma InsertKeepsSeqs(m: map<Key, Entry>, r: map<Key, Entry>, n: nat, k: Key, e: Entry)
    requires SeqsDistinct(m) && SeqsBelow(m, n) && e.insertedSeq == n + 1
    requires r.Keys <= m.Keys && forall j :: j in r ==> r[j] == m[j]
    ensures SeqsDistinct(r[k := e]) && SeqsBelow(r[k := e], n + 1)
  {
    var r' := r[k := e];
    forall i, j | i in r' && j in r' && r'[i].insertedSeq == r'[j].insertedSeq ensures i == j {
      if i != k && j != k {
        assert r'[i] == m[i] && r'[j] == m[j];
      }
    }
  }

  lemma AfterPutSeqs(c: Cache, k: Key, outcome: Outcome, now: nat)
    requires SeqsDistinct(c.entries) && SeqsBelow(c.entries, c.seq_) && !outcome.Reject?
    ensures var c' := AfterPut(c, k, outcome, now);
      SeqsDistinct(c'.entries) && SeqsBelow(c'.entries, c'.seq_)
  {
    InsertKeepsSeqs(c.entries, Room(c.entries, now), c.seq_, k, Entry(now + Ttl(outcome, k.1), c.seq_ + 1, outcome));
  }

  // ---- The cache object ----

  class Store {
    var entries: map<Key, Entry>
    var seq_: nat
    const digest: string -> string

    ghost function Value(): Cache
      reads this
    {
      Cache(entries, seq_)
    }

    ghost predicate Valid()
      reads this
    {
      SeqsDistinct(entries) && SeqsBelow(entries, seq_)
    }

    constructor (digest: string -> string)
      ensures Valid() && Value() == EMPTY && this.digest == digest
    {
      entries, seq_ := map[], 0;
      this.digest := digest;
    }

    method Get(name: string, credential: string, now: nat) returns (r: Option<Outcome>)
      requires Valid()
      modifies this
      ensures Valid()
      ensures r == Lookup(old(Value()), (name, digest(credential)), now)
      ensures Value() == AfterGet(old(Value()), (name, digest(credential)), now)
    {
      var key := (name, digest(credential));
      if key in entries {
        if entries[key].expiresAt > now {
          return Some(entries[key].verdict);
        }
        entries := entries - {key};
      }
      r := None;
    }

    method Put(name: string, credential: string, outcome: Outcome, now: nat)
      requires Valid()
      modifies this
      ensures Valid()
      ensures Value() == AfterPut(old(Value()), (name, digest(credential)), outcome, now)
    {
      if outcome.Reject? {
        return;
      }
      var hash := digest(credential);
      var ttl := Ttl(outcome, hash);
      ghost var after := AfterPut(Value(), (name, hash), outcome, now);
      AfterPutSeqs(Value(), (name, hash), outcome, now);
      var room := MakeRoom(entries, now);
      assert after == Cache(room[(name, hash) := Entry(now + ttl, seq_ + 1, outcome)], seq_ + 1);
      entries, seq_ := room[(name, hash) := Entry(now + ttl, seq_ + 1, outcome)], seq_ + 1;
    }

    method FlushModule(name: string) returns (dropped: int)
      requires Valid()
      modifies this
      ensures Valid()
      ensures Value() == old(Value()).(entries := WithoutModule(old(entries), name))
      ensures dropped == |old(entries)| - |entries|
    {
      var before := |entries|;
      entries := WithoutModule(entries, name);
      dropped := before - |entries|;
    }

    method FlushAll() returns (dropped: nat)
      requires Valid()
      modifies this
      ensures Valid()
      ensures Value() == old(Value()).(entries := map[])
      ensures dropped == |old(entries)|
    {
      dropped := |entries|;
      entries := map[];
    }
  }

  /** The key with the least insert number, whatever order the map is walked in. */
  method FindOldest(m: map<Key, Entry>) returns (oldest: Key)
    requires m != map[] && SeqsDistinct(m)
    ensures forall k :: IsOldest(m, k) <==> k == oldest
  {
    OldestExists(m);
    oldest :| oldest in m;
    var rest := m.Keys;
    while rest != {}
      invariant rest <= m.Keys && oldest in m
      invariant forall j :: j in m && j !in rest ==> m[oldest].insertedSeq <= m[j].insertedSeq
      decreases |rest|
    {
      var k :| k in rest;
      if m[k].insertedSeq < m[oldest].insertedSeq {
        oldest := k;
      }
      rest := rest - {k};
    }
    assert IsOldest(m, oldest);
  }

  method MakeRoom(m: map<Key, Entry>, now: nat) returns (r: map<Key, Entry>)
    requires SeqsDistinct(m)
    ensures r == Room(m, now)
  {
    r := m;
    if |r| >= MAX_ENTRIES {
      r := Swept(r, now);
      if |r| >= MAX_ENTRIES {
        var k := FindOldest(r);
        assert IsOldest(r, Oldest(r));
        r := r - {k};
      }
    }
  }

  // ---- Histories ----

  datatype Op =
    | OpGet(key: Key, now: nat)
    | OpPut(key: Key, outcome: Outcome, now: nat)
    | OpFlushModule(name: string)
    | OpFlushAll

  ghost function AfterOp(c: Cache, op: Op): Cache {
    match op
    case OpGet(k, now) => AfterGet(c, k, now)
    case OpPut(k, outcome, now) => AfterPut(c, k, outcome, now)
    case OpFlushModule(name) => c.(entries := WithoutModule(c.entries, name))
    case OpFlushAll => c.(entries := map[])
  }

  ghost function After(ops: seq<Op>): Cache {
    if ops == [] then EMPTY else AfterOp(After(ops[..|ops| - 1]), ops[|ops| - 1])
  }

  predicate Caches(op: Op) {
    op.OpPut? && !op.outcome.Reject?
  }

  /** A flush of everything, or of the module of `k`. */
  predicate Covers(op: Op, k: Key) {
    op.OpFlushAll? || (op.OpFlushModule? && op.name == k.0)
  }

  /** The latest cacheable put for `k` that no later flush covers, in an unbounded memory of the run. */
  function LatestPut(ops: seq<Op>, k: Key): Option<Op> {
    if ops == [] then None
    else
      var op := ops[|ops| - 1];
      if Caches(op) && op.key == k then Some(op)
      else if Covers(op, k) then None
      else LatestPut(ops[..|ops| - 1], k)
  }

  ghost predicate Refines(c: Cache, ops: seq<Op>) {
    && |c.entries| <= MAX_ENTRIES
    && SeqsDistinct(c.entries) && SeqsBelow(c.entries, c.seq_)
    && forall k :: k in c.entries ==> EntryOk(c, ops, k)
  }

  /** A cached entry is what the history remembers of its key. */
  ghost predicate EntryOk(c: Cache, ops: seq<Op>, k: Key)
    requires k in c.entries
  {
    var e, p := c.entries[k], LatestPut(ops, k);
    && p.Some? && p.value.OpPut? && !p.value.outcome.Reject?
    && e.verdict == p.value.outcome
    && e.expiresAt == p.value.now + Ttl(p.value.outcome, k.1)
  }

  lemma RoomFits(m: map<Key, Entry>, now: nat)
    requires |m| <= MAX_ENTRIES
    ensures var r := Room(m, now);
      r.Keys <= m.Keys && (forall k :: k in r ==> r[k] == m[k]) && |r| < MAX_ENTRIES
  {
    if |m| == MAX_ENTRIES {
      var s := Swept(m, now);
      assert s.Keys <= m.Keys;
      SubsetSize(s.Keys, m.Keys);
      if |s| >= MAX_ENTRIES {
        var o := Oldest(s);
        assert (s - {o}).Keys == s.Keys - {o};
        assert o in s.Keys;
      }
    }
  }

  lemma {:induction false} SubsetSize<T>(a: set<T>, b: set<T>)
    requires a <= b
    ensures |a| <= |b|
  {
    if a != {} {
      var x :| x in a;
      SubsetSize(a - {x}, b - {x});
    }
  }

  /** An operation that caches nothing only drops entries, and drops all that a flush covers. */
  lemma DroppingOp(c: Cache, op: Op, k: Key)
    requires !Caches(op) && k in AfterOp(c, op).entries
    ensures k in c.entries && AfterOp(c, op).entries[k] == c.entries[k]
    ensures !op.OpFlushAll? && !(op.OpFlushModule? && op.name == k.0)
  {
  }

  lemma DroppingRefines(c: Cache, before: seq<Op>, op: Op)
    requires Refines(c, before) && !Caches(op)
    ensures Refines(AfterOp(c, op), before + [op])
  {
    var c', ops := AfterOp(c, op), before + [op];
    assert ops[..|before|] == before;
    forall k | k in c'.entries
      ensures k in c.entries && c'.entries[k] == c.entries[k] && EntryOk(c', ops, k)
    {
      DroppingOp(c, op, k);
      assert EntryOk(c, before, k);
    }
    assert c'.entries.Keys <= c.entries.Keys;
    SubsetSize(c'.entries.Keys, c.entries.Keys);
  }

  lemma PuttingRefines(c: Cache, before: seq<Op>, op: Op)
    requires Refines(c, before) && op.OpPut? && !op.outcome.Reject?
    ensures Refines(AfterPut(c, op.key, op.outcome, op.now), before + [op])
  {
    var ops, c' := before + [op], AfterPut(c, op.key, op.outcome, op.now);
    AfterPutSeqs(c, op.key, op.outcome, op.now);
    RoomFits(c.entries, op.now);
    assert c'.entries.Keys == Room(c.entries, op.now).Keys + {op.key};
    forall k | k in c'.entries ensures EntryOk(c', ops, k) {
      PutEntryOk(c, before, op, k);
    }
  }

  lemma PutEntryOk(c: Cache, before: seq<Op>, op: Op, k: Key)
    requires Refines(c, before) && op.OpPut? && !op.outcome.Reject?
    requires k in AfterPut(c, op.key, op.outcome, op.now).entries
    ensures EntryOk(AfterPut(c, op.key, op.outcome, op.now), before + [op], k)
  {
    assert (before + [op])[..|before|] == before;
    if k != op.key {
      RoomFits(c.entries, op.now);
      assert EntryOk(c, before, k);
    }
  }

  lemma {:induction false} RunRefines(ops: seq<Op>)
    ensures Refines(After(ops), ops)
  {
    if ops != [] {
      var before, op := ops[..|ops| - 1], ops[|ops| - 1];
      RunRefines(before);
      assert ops == before + [op];
      if Caches(op) {
        PuttingRefines(After(before), before, op);
      } else {
        DroppingRefines(After(before), before, op);
      }
    }
  }

  /** Over every run: the cache is bounded, insert numbers stay distinct, and a hit is the verdict of
      the latest cacheable put since the last covering flush, strictly within its clamped lifetime. */
  lemma HitsAreFresh(ops: seq<Op>, k: Key, now: nat)
    ensures |After(ops).entries| <= MAX_ENTRIES && SeqsDistinct(After(ops).entries)
    ensures var hit := Lookup(After(ops), k, now);
      hit.Some? ==>
        var p := LatestPut(ops, k);
        && p.Some? && p.value.OpPut? && hit.value == p.value.outcome && !hit.value.Reject?
        && now < p.value.now + Ttl(hit.value, k.1)
        && now < p.value.now + if hit.value.Identify? then MAX_IDENTIFY_TTL_SECS else PASS_TTL_SECS + 2
  {
    RunRefines(ops);
    if k in After(ops).entries {
      assert EntryOk(After(ops), ops, k);
    }
  }

  /** A put never loses a live entry while an expired one or a free place remains; in a cache full of
      live entries it loses exactly the oldest-inserted one. */
  lemma PutLosesOnlyTheOldest(ops: seq<Op>, k: Key, outcome: Outcome, now: nat, j: Key)
    requires !outcome.Reject?
    requires j in After(ops).entries && After(ops).entries[j].expiresAt > now
    requires j !in AfterPut(After(ops), k, outcome, now).entries
    ensures var m := After(ops).entries;
      && |m| == MAX_ENTRIES
      && forall i :: i in m ==> m[i].expiresAt > now && m[j].insertedSeq <= m[i].insertedSeq
  {
    RunRefines(ops);
    var m := After(ops).entries;
    var s := Swept(m, now);
    assert s.Keys <= m.Keys;
    SubsetSize(s.Keys, m.Keys);
    assert |s| == |m|;
    SameSizeSubset(s.Keys, m.Keys);
    assert IsOldest(s, Oldest(s));
  }

  lemma SameSizeSubset<T>(a: set<T>, b: set<T>)
    requires a <= b && |a| == |b|
    ensures a == b
  {
    if x :| x in b && x !in a {
      SubsetSize(a, b - {x});
    }
  }

  // ---- How long a put is served ----

  /** How many of the operations cache something. */
  function Puts(ops: seq<Op>): nat {
    if ops == [] then 0 else Puts(ops[..|ops| - 1]) + if Caches(ops[|ops| - 1]) then 1 else 0
  }

  /** The operation neither replaces nor flushes `k`, and comes before its time is up. */
  predicate LeavesAlone(op: Op, k: Key, expiry: nat) {
    && !Covers(op, k)
    && !(Caches(op) && op.key == k)
    && (op.OpGet? || op.OpPut? ==> op.now < expiry)
  }

  /** Entries with distinct insert numbers in `lo < q <= hi` are at most `hi - lo` many. */
  lemma {:induction false} FewBetween(m: map<Key, Entry>, keys: set<Key>, lo: nat, hi: nat)
    requires keys <= m.Keys && SeqsDistinct(m) && lo <= hi
    requires forall k :: k in keys ==> lo < m[k].insertedSeq <= hi
    ensures |keys| <= hi - lo
    decreases hi
  {
    if keys != {} {
      var some :| some in keys;
      if k :| k in keys && m[k].insertedSeq == hi {
        FewBetween(m, keys - {k}, lo, hi - 1);
      } else {
        FewBetween(m, keys, lo, hi - 1);
      }
    }
  }

  /** Making room spares a live entry that fewer than `MAX_ENTRIES - 1` puts have followed. */
  lemma RoomSpares(m: map<Key, Entry>, now: nat, k: Key, n: nat)
    requires |m| <= MAX_ENTRIES && SeqsDistinct(m) && SeqsBelow(m, n)
    requires k in m && m[k].expiresAt > now && n < m[k].insertedSeq + MAX_ENTRIES - 1
    ensures k in Room(m, now) && Room(m, now)[k] == m[k]
  {
    var s := Swept(m, now);
    if |m| >= MAX_ENTRIES && |s| >= MAX_ENTRIES && IsOldest(s, k) {
      var others := s.Keys - {k};
      forall j | j in others ensures m[k].insertedSeq < s[j].insertedSeq <= n {
        assert s[k].insertedSeq <= s[j].insertedSeq && s[j] == m[j];
      }
      FewBetween(s, others, m[k].insertedSeq, n);
    }
  }

  lemma PutSparesOther(c: Cache, op: Op, k: Key)
    requires Caches(op) && op.key != k && |c.entries| <= MAX_ENTRIES
    requires SeqsDistinct(c.entries) && SeqsBelow(c.entries, c.seq_)
    requires k in c.entries && c.entries[k].expiresAt > op.now && c.seq_ < c.entries[k].insertedSeq + MAX_ENTRIES - 1
    ensures var c' := AfterOp(c, op); k in c'.entries && c'.entries[k] == c.entries[k] && c'.seq_ == c.seq_ + 1
  {
    RoomSpares(c.entries, op.now, k, c.seq_);
  }

  lemma OtherOpSpares(c: Cache, op: Op, k: Key)
    requires !Caches(op) && k in c.entries && LeavesAlone(op, k, c.entries[k].expiresAt)
    ensures var c' := AfterOp(c, op); k in c'.entries && c'.entries[k] == c.entries[k] && c'.seq_ == c.seq_
  {
  }

  /** The entry of a put is still there, untouched, after any operations that leave it alone and cache
      fewer than `MAX_ENTRIES` other verdicts. */
  lemma {:induction false} PutStays(before: seq<Op>, put: Op, later: seq<Op>)
    requires Caches(put) && Puts(later) < MAX_ENTRIES
    requires forall i :: 0 <= i < |later| ==> LeavesAlone(later[i], put.key, put.now + Ttl(put.outcome, put.key.1))
    ensures var c, first := After(before + [put] + later), After(before).seq_ + 1;
      && put.key in c.entries
      && c.entries[put.key] == Entry(put.now + Ttl(put.outcome, put.key.1), first, put.outcome)
      && c.seq_ == first + Puts(later)
  {
    var ops := before + [put] + later;
    if later == [] {
      assert ops == before + [put] && ops[..|before|] == before;
    } else {
      var init, op := later[..|later| - 1], later[|later| - 1];
      assert ops[..|ops| - 1] == before + [put] + init && ops[|ops| - 1] == op;
      PutStays(before, put, init);
      var c := After(before + [put] + init);
      RunRefines(before + [put] + init);
      if Caches(op) {
        PutSparesOther(c, op, put.key);
      } else {
        OtherOpSpares(c, op, put.key);
      }
    }
  }

  /** A put verdict is served until it expires, through every later run that neither replaces nor
      flushes it, as long as fewer than `MAX_ENTRIES` other verdicts are cached meanwhile. */
  lemma PutIsServed(before: seq<Op>, put: Op, later: seq<Op>, now: nat)
    requires Caches(put) && Puts(later) < MAX_ENTRIES && now < put.now + Ttl(put.outcome, put.key.1)
    requires forall i :: 0 <= i < |later| ==> LeavesAlone(later[i], put.key, put.now + Ttl(put.outcome, put.key.1))
    ensures Lookup(After(before + [put] + later), put.key, now) == Some(put.outcome)
  {
    PutStays(before, put, later);
  }

  function Expiry(put: Op): nat
    requires Caches(put)
  {
    put.now + Ttl(put.outcome, put.key.1)
  }

  /** Puts of different keys, each made while the earlier ones are still live. */
  predicate DistinctLivePuts(ops: seq<Op>) {
    && (forall i :: 0 <= i < |ops| ==> Caches(ops[i]))
    && (forall i, j :: 0 <= i < j < |ops| ==> ops[i].key != ops[j].key && ops[j].now < Expiry(ops[i]))
  }

  lemma {:induction false} AllPuts(ops: seq<Op>)
    requires forall i :: 0 <= i < |ops| ==> Caches(ops[i])
    ensures Puts(ops) == |ops|
  {
    if ops != [] {
      AllPuts(ops[..|ops| - 1]);
    }
  }

  function KeysOf(ops: seq<Op>): set<Key>
    requires forall i :: 0 <= i < |ops| ==> Caches(ops[i])
  {
    if ops == [] then {}
    else
      var last := ops[|ops| - 1];
      assert Caches(last);
      KeysOf(ops[..|ops| - 1]) + {last.key}
  }

  lemma {:induction false} KeysMeaning(ops: seq<Op>, k: Key)
    requires forall i :: 0 <= i < |ops| ==> Caches(ops[i])
    ensures k in KeysOf(ops) <==> exists i :: 0 <= i < |ops| && ops[i].key == k
  {
    if ops != [] {
      var n := |ops| - 1;
      KeysMeaning(ops[..n], k);
      assert forall i :: 0 <= i < n ==> ops[..n][i] == ops[i];
    }
  }

  lemma {:induction false} KeysCount(ops: seq<Op>)
    requires DistinctLivePuts(ops)
    ensures |KeysOf(ops)| == |ops|
  {
    if ops != [] {
      KeysCount(ops[..|ops| - 1]);
      KeysMeaning(ops[..|ops| - 1], ops[|ops| - 1].key);
    }
  }

  /** Of `MAX_ENTRIES + 1` live puts in a row, all but the first are in the cache. */
  lemma LaterPutStays(before: seq<Op>, puts: seq<Op>, i: nat)
    requires DistinctLivePuts(puts) && |puts| == MAX_ENTRIES + 1 && 0 < i < |puts|
    ensures puts[i].key in After(before + puts).entries
  {
    var rest := puts[i + 1..];
    AllPuts(rest);
    assert before + puts == (before + puts[..i]) + [puts[i]] + rest;
    assert forall j :: 0 <= j < |rest| ==> rest[j] == puts[i + 1 + j];
    PutStays(before + puts[..i], puts[i], rest);
  }

  /** The bound is exact: once `MAX_ENTRIES` other live verdicts have been cached, a put is gone. */
  lemma PutIsEvicted(before: seq<Op>, puts: seq<Op>)
    requires DistinctLivePuts(puts) && |puts| == MAX_ENTRIES + 1
    ensures puts[0].key !in After(before + puts).entries
  {
    hide After;
    assert Caches(puts[0]);
    var keys := After(before + puts).entries.Keys;
    assert |keys| <= MAX_ENTRIES by {
      RunRefines(before + puts);
    }
    KeysCount(puts);
    if puts[0].key in keys {
      forall k | k in KeysOf(puts) ensures k in keys {
        KeysMeaning(puts, k);
        var i :| 0 <= i < |puts| && puts[i].key == k;
        if i > 0 {
          LaterPutStays(before, puts, i);
        }
      }
      SubsetSize(KeysOf(puts), keys);
    }
  }

  /** A get that finds an entry expired takes it out and leaves every other entry alone. */
  lemma GetRemovesExpired(c: Cache, k: Key, now: nat)
    ensures k in c.entries && c.entries[k].expiresAt <= now ==> k !in AfterGet(c, k, now).entries
    ensures forall j :: j in c.entries && (j != k || c.entries[j].expiresAt > now) ==>
      j in AfterGet(c, k, now).entries && AfterGet(c, k, now).entries[j] == c.entries[j]
  {
  }

  /** After a flush nothing of the flushed module is served. */
  lemma FlushRevokes(ops: seq<Op>, name: string, k: Key, now: nat)
    ensures k.0 == name ==> Lookup(After(ops + [OpFlushModule(name)]), k, now) == None
    ensures Lookup(After(ops + [OpFlushAll]), k, now) == None
  {
    HitsAreFresh(ops + [OpFlushModule(name)], k, now);
    HitsAreFresh(ops + [OpFlushAll], k, now);
  }
}
