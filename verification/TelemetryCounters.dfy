/** The counter half of the telemetry bank: per-thread cells that only their owner writes, and one
    aggregator that reads them one at a time while the owners keep running.

    Each action below is one atomic access (a cell load, a cell store, a recorder increment, a
    lock-protected list operation); a run is any sequence of enabled actions, so every interleaving
    is a run. `emitted` and `base` are history: they record what a run has done and no action
    branches on them. */
module TelemetryCounters {
  import opened Base

  const COUNTER_CHUNK: nat := 1024
  const COUNTER_CHUNKS: nat := 64

  /** The owner's position inside `add`: between the cell load and the cell store, or not adding. */
  datatype Adding = NotAdding | Loaded(slot: nat, amount: nat, value: nat)

  /** One thread's bank: lazily materialised chunks of cells. */
  datatype Bank = Bank(chunks: map<nat, seq<nat>>, adding: Adding)

  /** The aggregator's position inside the flush, which a lock makes single-threaded. */
  datatype Flush =
    | Idle
    | Listed(banks: nat, base: seq<nat>)
    | Scanning(banks: nat, base: seq<nat>, slot: nat, next: nat, sum: nat)
    | Incremented(banks: nat, base: seq<nat>, slot: nat, sum: nat)

  datatype State = State(
    banks: seq<Bank>,
    flushed: seq<nat>,
    recorder: seq<nat>,
    flush: Flush,
    emitted: seq<nat>)

  datatype Action =
    | Register
    | Intern
    | Load(thread: nat, slot: nat, amount: nat)
    | Store(thread: nat)
    | FlushList
    | FlushOpen
    | FlushRead
    | FlushPush
    | FlushStore
    | FlushClose

  const INIT := State([], [], [], Idle, [])

  /** The value the aggregator adds for this slot: an unmaterialised chunk contributes nothing. */
  function Cell(b: Bank, slot: nat): nat {
    var c := slot / COUNTER_CHUNK;
    if c in b.chunks && slot % COUNTER_CHUNK < |b.chunks[c]|
    then b.chunks[c][slot % COUNTER_CHUNK]
    else 0
  }

  /** The bank once the chunk that holds `slot` has been materialised with zeroed cells. */
  function Materialized(b: Bank, slot: nat): Bank {
    var c := slot / COUNTER_CHUNK;
    if c in b.chunks then b else b.(chunks := b.chunks[c := seq(COUNTER_CHUNK, _ => 0)])
  }

  predicate Enabled(s: State, a: Action) {
    match a
    case Register => true
    // The flush holds the descriptor table's read lock while it scans.
    case Intern => (s.flush.Idle? || s.flush.Listed?) && |s.flushed| < COUNTER_CHUNK * COUNTER_CHUNKS
    case Load(t, slot, amount) =>
      t < |s.banks| && s.banks[t].adding.NotAdding? && slot < |s.flushed| && amount < U64_MOD
    case Store(t) =>
      && t < |s.banks| && s.banks[t].adding.Loaded?
      && var b := s.banks[t];
         var slot := b.adding.slot;
         && slot < |s.emitted|
         && slot / COUNTER_CHUNK in b.chunks
         && |b.chunks[slot / COUNTER_CHUNK]| == COUNTER_CHUNK
    case FlushList => s.flush.Idle?
    case FlushOpen => s.flush.Listed?
    case FlushRead =>
      s.flush.Scanning? && s.flush.slot < |s.flushed| && s.flush.next < s.flush.banks <= |s.banks|
    case FlushPush =>
      && s.flush.Scanning? && s.flush.slot < |s.flushed| == |s.recorder|
      && s.flush.next == s.flush.banks
    case FlushStore => s.flush.Incremented? && s.flush.slot < |s.flushed|
    case FlushClose => s.flush.Scanning? && s.flush.slot >= |s.flushed|
  }

  function Apply(s: State, a: Action): State
    requires Enabled(s, a)
  {
    match a
    case Register => s.(banks := s.banks + [Bank(map[], NotAdding)])
    case Intern => s.(flushed := s.flushed + [0], recorder := s.recorder + [0], emitted := s.emitted + [0])
    case Load(t, slot, amount) =>
      var b := Materialized(s.banks[t], slot);
      s.(banks := s.banks[t := b.(adding := Loaded(slot, amount, Cell(b, slot)))])
    case Store(t) =>
      var b := s.banks[t];
      var Loaded(slot, amount, value) := b.adding;
      var c := slot / COUNTER_CHUNK;
      var cells: seq<nat> := b.chunks[c][slot % COUNTER_CHUNK := (value + amount) % U64_MOD];
      s.(banks := s.banks[t := Bank(b.chunks[c := cells], NotAdding)],
         emitted := s.emitted[slot := s.emitted[slot] + amount])
    case FlushList => s.(flush := Listed(|s.banks|, s.emitted))
    case FlushOpen => s.(flush := Scanning(s.flush.banks, s.flush.base, 0, 0, 0))
    case FlushRead =>
      var f := s.flush;
      s.(flush := f.(next := f.next + 1, sum := (f.sum + Cell(s.banks[f.next], f.slot)) % U64_MOD))
    case FlushPush =>
      var f := s.flush;
      var prev := s.flushed[f.slot];
      if f.sum > prev then
        s.(recorder := s.recorder[f.slot := s.recorder[f.slot] + (f.sum - prev)],
           flush := Incremented(f.banks, f.base, f.slot, f.sum))
      else
        s.(flush := Scanning(f.banks, f.base, f.slot + 1, 0, 0))
    case FlushStore =>
      var f := s.flush;
      s.(flushed := s.flushed[f.slot := f.sum], flush := Scanning(f.banks, f.base, f.slot + 1, 0, 0))
    case FlushClose => s.(flush := Idle)
  }

  /** The state after running `acts` from `s`, if every action was enabled in turn. */
  function Run(s: State, acts: seq<Action>): Option<State> {
    if acts == [] then Some(s)
    else
      var before := Run(s, acts[..|acts| - 1]);
      if before.Some? && Enabled(before.value, acts[|acts| - 1])
      then Some(Apply(before.value, acts[|acts| - 1]))
      else None
  }

  /** The sum of one slot's cells over the banks `lo..hi`. */
  function Sum(banks: seq<Bank>, slot: nat, lo: nat, hi: nat): nat
    requires lo <= hi <= |banks|
    decreases hi - lo
  {
    if lo == hi then 0 else Cell(banks[lo], slot) + Sum(banks, slot, lo + 1, hi)
  }

  /** Growing one cell by `n` grows every sum that covers it by `n`, and no other sum changes. */
  lemma {:induction false} SumGrows(b: seq<Bank>, b': seq<Bank>, slot: nat, t: nat, n: nat, lo: nat, hi: nat)
    requires lo <= hi <= |b| <= |b'|
    requires forall k :: 0 <= k < |b| ==> Cell(b'[k], slot) == Cell(b[k], slot) + if k == t then n else 0
    ensures Sum(b', slot, lo, hi) == Sum(b, slot, lo, hi) + if lo <= t < hi then n else 0
    decreases hi - lo
  {
    if lo < hi {
      SumGrows(b, b', slot, t, n, lo + 1, hi);
    }
  }

  lemma {:induction false} SumSplit(b: seq<Bank>, slot: nat, lo: nat, mid: nat, hi: nat)
    requires lo <= mid <= hi <= |b|
    ensures Sum(b, slot, lo, hi) == Sum(b, slot, lo, mid) + Sum(b, slot, mid, hi)
    decreases mid - lo
  {
    if lo < mid {
      SumSplit(b, slot, lo + 1, mid, hi);
    }
  }

  /** No slot's lifetime total has reached 2^64. */
  predicate Fits(s: State) {
    forall i :: 0 <= i < |s.emitted| ==> s.emitted[i] < U64_MOD
  }

  ghost predicate BankOk(b: Bank, slots: nat) {
    && (forall c :: c in b.chunks ==> |b.chunks[c]| == COUNTER_CHUNK)
    && (forall i: nat :: slots <= i ==> Cell(b, i) == 0)
    && (b.adding.Loaded? ==>
          && b.adding.slot < slots
          && b.adding.amount < U64_MOD
          && b.adding.slot / COUNTER_CHUNK in b.chunks
          && b.adding.value == Cell(b, b.adding.slot))
  }

  /** What holds at every point: the cells account exactly for what was emitted, and the flush owes
      no slot anything it has already pushed. */
  ghost predicate Inv(s: State) {
    && |s.flushed| == |s.recorder| == |s.emitted| <= COUNTER_CHUNK * COUNTER_CHUNKS
    && (forall t :: 0 <= t < |s.banks| ==> BankOk(s.banks[t], |s.flushed|))
    && (forall i :: 0 <= i < |s.emitted| ==> SlotOk(s, i))
    && (s.flush.Listed? || s.flush.Scanning? || s.flush.Incremented? ==>
          && s.flush.banks <= |s.banks|
          && |s.flush.base| <= |s.emitted|)
    && (s.flush.Scanning? ==> s.flush.next <= s.flush.banks && s.flush.slot <= |s.flushed|)
    && (s.flush.Scanning? && s.flush.slot == |s.flushed| ==> s.flush.next == 0)
    && (s.flush.Incremented? ==> s.flush.slot < |s.flushed|)
  }

  ghost predicate SlotOk(s: State, i: nat)
    requires i < |s.emitted| == |s.flushed| == |s.recorder|
  {
    && s.emitted[i] == Sum(s.banks, i, 0, |s.banks|)
    && s.flushed[i] <= s.emitted[i]
    && s.recorder[i] == (if s.flush.Incremented? && s.flush.slot == i then s.flush.sum else s.flushed[i])
    && (!s.flush.Idle? && s.flush.banks <= |s.banks| ==> FlushOk(s, i))
  }

  /** What the running flush knows about slot `i`. */
  ghost predicate FlushOk(s: State, i: nat)
    requires i < |s.emitted| == |s.flushed| == |s.recorder|
    requires !s.flush.Idle? && s.flush.banks <= |s.banks|
  {
    var f := s.flush;
    var owed := if i < |f.base| then f.base[i] else 0;
    && (f.Listed? || (f.Scanning? && (f.slot < i)) || (f.Incremented? && f.slot < i) ==>
          s.flushed[i] <= Sum(s.banks, i, 0, f.banks) && owed <= Sum(s.banks, i, 0, f.banks))
    && (f.Scanning? && f.slot == i && f.next <= f.banks ==>
          && f.sum <= Sum(s.banks, i, 0, f.next)
          && s.flushed[i] <= f.sum + Sum(s.banks, i, f.next, f.banks)
          && owed <= f.sum + Sum(s.banks, i, f.next, f.banks))
    && (f.Incremented? && f.slot == i ==>
          s.flushed[i] < f.sum <= Sum(s.banks, i, 0, f.banks) && owed <= f.sum)
    && ((f.Scanning? || f.Incremented?) && i < f.slot ==> owed <= s.flushed[i])
  }

  /** Materialising a chunk changes no cell's value. */
  lemma MaterializedCells(b: Bank, slot: nat, i: nat)
    ensures Cell(Materialized(b, slot), i) == Cell(b, i)
  {
  }

  /** Every slot has a (chunk, offset) cell of its own, and below the cap the chunk exists. */
  lemma SlotsHaveOwnCells(i: nat, j: nat)
    ensures (i / COUNTER_CHUNK, i % COUNTER_CHUNK) == (j / COUNTER_CHUNK, j % COUNTER_CHUNK) <==> i == j
    ensures i < COUNTER_CHUNK * COUNTER_CHUNKS ==> i / COUNTER_CHUNK < COUNTER_CHUNKS
  {
  }

  /** Only slot `slot` of thread `t` changes in a store, and it grows by exactly the amount added. */
  lemma StoreEffect(s: State, t: nat, i: nat)
    requires Enabled(s, Store(t)) && Inv(s) && Fits(Apply(s, Store(t)))
    ensures forall k :: 0 <= k < |s.banks| ==>
      Cell(Apply(s, Store(t)).banks[k], i) ==
      Cell(s.banks[k], i) + if k == t && i == s.banks[t].adding.slot then s.banks[t].adding.amount else 0
  {
    var slot := s.banks[t].adding.slot;
    assert SlotOk(s, slot);
    CellAtMostSum(s.banks, slot, t, 0);
    assert Apply(s, Store(t)).emitted[slot] == s.emitted[slot] + s.banks[t].adding.amount;
    SlotsHaveOwnCells(i, slot);
  }

  lemma {:induction false} CellAtMostSum(b: seq<Bank>, slot: nat, t: nat, lo: nat)
    requires lo <= t < |b|
    ensures Cell(b[t], slot) <= Sum(b, slot, lo, |b|)
    decreases t - lo
  {
    if lo < t {
      CellAtMostSum(b, slot, t, lo + 1);
    }
  }

  /** A step of some owner: banks may appear, and at most one cell grows, by what was emitted. */
  ghost predicate OwnerStep(s: State, s': State, t: nat, slot: nat, n: nat) {
    && s'.flushed == s.flushed && s'.recorder == s.recorder && s'.flush == s.flush
    && |s.banks| <= |s'.banks| <= |s.banks| + 1
    && t < |s'.banks| && slot < |s.emitted| == |s'.emitted|
    && (forall k, i: nat :: 0 <= k < |s.banks| ==>
          Cell(s'.banks[k], i) == Cell(s.banks[k], i) + if k == t && i == slot then n else 0)
    && (|s.banks| < |s'.banks| ==> n == 0 && forall i: nat :: Cell(s'.banks[|s.banks|], i) == 0)
    && (forall i :: 0 <= i < |s.emitted| ==> s'.emitted[i] == s.emitted[i] + if i == slot then n else 0)
  }

  lemma OwnerStepKeepsSlot(s: State, s': State, t: nat, slot: nat, n: nat, i: nat)
    requires Inv(s) && OwnerStep(s, s', t, slot, n) && i < |s.emitted|
    ensures SlotOk(s', i)
  {
    assert SlotOk(s, i);
    var m := if i == slot then n else 0;
    var old_, new_ := s.banks, s'.banks;
    SumGrows(old_, new_, i, t, m, 0, |old_|);
    SumSplit(new_, i, 0, |old_|, |new_|);
    if !s.flush.Idle? {
      var f := s.flush;
      SumGrows(old_, new_, i, t, m, 0, f.banks);
      if f.Scanning? {
        SumGrows(old_, new_, i, t, m, 0, f.next);
        SumGrows(old_, new_, i, t, m, f.next, f.banks);
      }
    }
  }

  lemma OwnerActionKeepsInv(s: State, a: Action)
    requires Enabled(s, a) && Inv(s) && Fits(Apply(s, a))
    requires a.Register? || a.Load? || a.Store?
    ensures Inv(Apply(s, a))
  {
    var s' := Apply(s, a);
    if |s.emitted| > 0 {
      var t, slot, n := 0, 0, 0;
      match a {
        case Register =>
        case Load(t0, slot0, _) =>
          t, slot := t0, slot0;
          forall i: nat ensures Cell(s'.banks[t], i) == Cell(s.banks[t], i) {
            MaterializedCells(s.banks[t], slot, i);
          }
        case Store(t0) =>
          t, slot, n := t0, s.banks[t0].adding.slot, s.banks[t0].adding.amount;
          forall k, i: nat | 0 <= k < |s.banks|
            ensures Cell(s'.banks[k], i) == Cell(s.banks[k], i) + if k == t && i == slot then n else 0
          {
            StoreEffect(s, t, i);
          }
      }
      forall i | 0 <= i < |s.emitted| ensures SlotOk(s', i) {
        OwnerStepKeepsSlot(s, s', t, slot, n, i);
      }
    }
  }

  /** Starting a flush: it owes each slot what the cells already hold. */
  lemma FlushStartKeepsInv(s: State, a: Action)
    requires Enabled(s, a) && Inv(s)
    requires a.Intern? || a.FlushList? || a.FlushOpen? || a.FlushClose?
    ensures Inv(Apply(s, a))
  {
    var s' := Apply(s, a);
    forall i | 0 <= i < |s'.emitted| ensures SlotOk(s', i) {
      if i < |s.emitted| {
        assert SlotOk(s, i);
      } else {
        ZeroSum(s.banks, i, 0, |s.banks|);
        if s.flush.Listed? {
          ZeroSum(s.banks, i, 0, s.flush.banks);
        }
      }
    }
  }

  lemma {:induction false} ZeroSum(b: seq<Bank>, slot: nat, lo: nat, hi: nat)
    requires lo <= hi <= |b| && forall k :: 0 <= k < |b| ==> Cell(b[k], slot) == 0
    ensures Sum(b, slot, lo, hi) == 0
    decreases hi - lo
  {
    if lo < hi {
      ZeroSum(b, slot, lo + 1, hi);
    }
  }

  /** One read moves a cell from the part still owed to the part already summed. */
  lemma FlushReadKeepsInv(s: State)
    requires Enabled(s, FlushRead) && Inv(s) && Fits(s)
    ensures Inv(Apply(s, FlushRead))
  {
    var s', f := Apply(s, FlushRead), s.flush;
    var cell := Cell(s.banks[f.next], f.slot);
    assert SlotOk(s, f.slot);
    SumSplit(s.banks, f.slot, 0, f.next, f.next + 1);
    SumSplit(s.banks, f.slot, 0, f.next + 1, |s.banks|);
    assert f.sum + cell <= s.emitted[f.slot] < U64_MOD;
    forall i | 0 <= i < |s'.emitted| ensures SlotOk(s', i) {
      assert SlotOk(s, i);
    }
  }

  /** The heart of the protocol: a torn sum is never below what was already pushed, and never above
      what was emitted, so the pushed delta is exact. */
  lemma FlushPushKeepsInv(s: State, a: Action)
    requires Enabled(s, a) && Inv(s)
    requires a.FlushPush? || a.FlushStore?
    ensures Inv(Apply(s, a))
  {
    var s', f := Apply(s, a), s.flush;
    forall i | 0 <= i < |s'.emitted| ensures SlotOk(s', i) {
      assert SlotOk(s, i);
      SumSplit(s.banks, i, 0, f.banks, |s.banks|);
    }
  }

  lemma StepKeepsInv(s: State, a: Action)
    requires Enabled(s, a) && Inv(s) && Fits(Apply(s, a))
    ensures Inv(Apply(s, a))
  {
    match a {
      case Register => OwnerActionKeepsInv(s, a);
      case Load(_, _, _) => OwnerActionKeepsInv(s, a);
      case Store(_) => OwnerActionKeepsInv(s, a);
      case FlushRead => FlushReadKeepsInv(s);
      case FlushPush => FlushPushKeepsInv(s, a);
      case FlushStore => FlushPushKeepsInv(s, a);
      case _ => FlushStartKeepsInv(s, a);
    }
  }

  /** Totals only grow, so a run whose end fits has fitted throughout. */
  lemma {:induction false} RunKeepsInv(acts: seq<Action>)
    requires Run(INIT, acts).Some? && Fits(Run(INIT, acts).value)
    ensures Inv(Run(INIT, acts).value)
  {
    if acts != [] {
      var before, a := Run(INIT, acts[..|acts| - 1]).value, acts[|acts| - 1];
      forall i | 0 <= i < |before.emitted| ensures before.emitted[i] < U64_MOD {
        assert before.emitted[i] <= Run(INIT, acts).value.emitted[i];
      }
      RunKeepsInv(acts[..|acts| - 1]);
      StepKeepsInv(before, a);
    }
  }

  // ---- What was added, read off the actions alone ----

  /** An add that has loaded its cell and not yet stored it. */
  datatype Pending = NoAdd | Add(slot: nat, amount: nat)

  /** The add that thread `t` is in the middle of after these actions. */
  function PendingAdd(acts: seq<Action>, t: nat): Pending {
    if acts == [] then NoAdd
    else
      match acts[|acts| - 1]
      case Load(t', slot, amount) => if t' == t then Add(slot, amount) else PendingAdd(acts[..|acts| - 1], t)
      case Store(t') => if t' == t then NoAdd else PendingAdd(acts[..|acts| - 1], t)
      case _ => PendingAdd(acts[..|acts| - 1], t)
  }

  /** The total of the amounts of the adds to slot `i` that have finished. */
  function Added(acts: seq<Action>, i: nat): nat {
    if acts == [] then 0
    else
      var init, a := acts[..|acts| - 1], acts[|acts| - 1];
      var add := if a.Store? then PendingAdd(init, a.thread) else NoAdd;
      Added(init, i) + if add.Add? && add.slot == i then add.amount else 0
  }

  /** The state's own record of an add in progress. */
  function PendingIn(s: State, t: nat): Pending {
    if t < |s.banks| && s.banks[t].adding.Loaded? then Add(s.banks[t].adding.slot, s.banks[t].adding.amount) else NoAdd
  }

  /** State and action list agree on every finished and every pending add. */
  ghost predicate Accounts(s: State, acts: seq<Action>) {
    && |s.flushed| == |s.emitted|
    && (forall t: nat :: PendingIn(s, t) == PendingAdd(acts, t))
    && (forall t: nat :: PendingIn(s, t).Add? ==> PendingIn(s, t).slot < |s.emitted|)
    && (forall i: nat :: Added(acts, i) == if i < |s.emitted| then s.emitted[i] else 0)
  }

  lemma StepAccounts(s: State, init: seq<Action>, a: Action)
    requires Enabled(s, a) && Accounts(s, init)
    ensures Accounts(Apply(s, a), init + [a])
  {
    var s', acts := Apply(s, a), init + [a];
    assert acts[..|acts| - 1] == init && acts[|acts| - 1] == a;
    forall t: nat ensures PendingIn(s', t) == PendingAdd(acts, t) {
      assert PendingIn(s, t) == PendingAdd(init, t);
    }
    if a.Store? {
      assert PendingIn(s, a.thread) == PendingAdd(init, a.thread);
    }
    forall i: nat ensures Added(acts, i) == if i < |s'.emitted| then s'.emitted[i] else 0 {
      assert Added(init, i) == if i < |s.emitted| then s.emitted[i] else 0;
    }
  }

  lemma {:induction false} RunAccounts(acts: seq<Action>)
    requires Run(INIT, acts).Some?
    ensures Accounts(Run(INIT, acts).value, acts)
  {
    if acts != [] {
      var init, a := acts[..|acts| - 1], acts[|acts| - 1];
      RunAccounts(init);
      StepAccounts(Run(INIT, init).value, init, a);
      assert acts == init + [a];
    }
  }

  /** No slot's finished adds have reached 2^64. */
  ghost predicate AddsFit(acts: seq<Action>) {
    forall i: nat :: Added(acts, i) < U64_MOD
  }

  lemma AddsFitMeansFits(acts: seq<Action>)
    requires Run(INIT, acts).Some?
    ensures AddsFit(acts) ==> Fits(Run(INIT, acts).value)
  {
    RunAccounts(acts);
    var s := Run(INIT, acts).value;
    if AddsFit(acts) {
      forall i | 0 <= i < |s.emitted| ensures s.emitted[i] < U64_MOD {
        assert Added(acts, i) == s.emitted[i];
      }
    }
  }

  /** An add stores what it was called with: the store that ends it grows the cell of its slot in its own
      thread by the amount of its load, and changes no other cell of any thread. */
  lemma AddGrowsItsCell(acts: seq<Action>, t: nat, i: nat)
    requires Run(INIT, acts + [Store(t)]).Some? && AddsFit(acts + [Store(t)])
    ensures Run(INIT, acts).Some?
    ensures var b, b' := Run(INIT, acts).value.banks, Run(INIT, acts + [Store(t)]).value.banks;
      && PendingAdd(acts, t).Add? && |b| == |b'|
      && var Add(slot, amount) := PendingAdd(acts, t);
         forall k :: 0 <= k < |b| ==> Cell(b'[k], i) == Cell(b[k], i) + if k == t && i == slot then amount else 0
  {
    RunLast(INIT, acts, Store(t));
    var s := Run(INIT, acts).value;
    AddsFitMeansFits(acts + [Store(t)]);
    assert (acts + [Store(t)])[..|acts|] == acts;
    forall j: nat ensures Added(acts, j) < U64_MOD {
      assert Added(acts + [Store(t)], j) >= Added(acts, j);
    }
    AddsFitMeansFits(acts);
    RunKeepsInv(acts);
    RunAccounts(acts);
    assert PendingIn(s, t) == PendingAdd(acts, t);
    StoreEffect(s, t, i);
  }

  /** Safety over every run: between pushes the recorder holds exactly `flushed`, it never exceeds the
      finished adds, the cells hold exactly those, and the sum a flush is about to push is at least what
      it pushed before. */
  lemma NothingCountedTwice(acts: seq<Action>, i: nat)
    requires Run(INIT, acts).Some? && AddsFit(acts)
    requires i < |Run(INIT, acts).value.flushed|
    ensures var s := Run(INIT, acts).value;
      && |s.recorder| == |s.flushed|
      && s.flushed[i] <= s.recorder[i] <= Added(acts, i) == Sum(s.banks, i, 0, |s.banks|)
      && (!s.flush.Incremented? ==> s.recorder[i] == s.flushed[i])
      && (Enabled(s, FlushPush) && s.flush.slot == i ==> s.flushed[i] <= s.flush.sum <= Added(acts, i))
  {
    AddsFitMeansFits(acts);
    RunKeepsInv(acts);
    RunAccounts(acts);
    var s := Run(INIT, acts).value;
    assert Added(acts, i) == s.emitted[i];
    assert SlotOk(s, i);
    if !s.flush.Idle? {
      SumSplit(s.banks, i, 0, s.flush.banks, |s.banks|);
    }
  }

  lemma StepKeepsBase(s: State, a: Action)
    requires Enabled(s, a) && !s.flush.Idle? && a != FlushClose
    ensures var f := Apply(s, a).flush; !f.Idle? && f.base == s.flush.base
  {
  }

  /** The guards hide no run: an owner between load and store can always store, and an aggregator in
      the middle of a flush can always take its next step. */
  lemma NeverStuck(acts: seq<Action>)
    requires Run(INIT, acts).Some? && AddsFit(acts)
    ensures var s := Run(INIT, acts).value;
      && Enabled(s, Register)
      && (!s.flush.Scanning? && !s.flush.Incremented? && |s.flushed| < 65_536 ==> Enabled(s, Intern))
      && (forall t: nat, slot: nat, n: nat :: t < |s.banks| && slot < |s.flushed| && n < U64_MOD && PendingAdd(acts, t).NoAdd? ==>
            Enabled(s, Load(t, slot, n)))
      && (forall t :: 0 <= t < |s.banks| && s.banks[t].adding.Loaded? ==> Enabled(s, Store(t)))
      && (s.flush.Idle? || Enabled(s, NextFlushAction(s)))
  {
    AddsFitMeansFits(acts);
    RunKeepsInv(acts);
    RunAccounts(acts);
    var s := Run(INIT, acts).value;
    forall t: nat | t < |s.banks| && PendingAdd(acts, t).NoAdd? ensures s.banks[t].adding.NotAdding? {
      assert PendingIn(s, t) == PendingAdd(acts, t);
    }
    forall t | 0 <= t < |s.banks| && s.banks[t].adding.Loaded? ensures Enabled(s, Store(t)) {
      assert BankOk(s.banks[t], |s.flushed|);
    }
  }

  /** What the aggregator does next. */
  function NextFlushAction(s: State): Action {
    match s.flush
    case Idle => FlushList
    case Listed(_, _) => FlushOpen
    case Incremented(_, _, _, _) => FlushStore
    case Scanning(banks, _, slot, next, _) =>
      if slot >= |s.flushed| then FlushClose else if next < banks then FlushRead else FlushPush
  }

  /** The scrape as written, with no owner running beside it: slot by slot, thread by thread. It ends,
      and leaves the recorder holding exactly what was emitted. */
  method FlushToRecorder(s: State) returns (r: State)
    requires Inv(s) && Fits(s) && s.flush.Idle?
    ensures Inv(r) && r.flush.Idle?
    ensures r.recorder == r.flushed == r.emitted == s.emitted && r.banks == s.banks
  {
    hide Inv, Fits;
    r := Performed(s, FlushList);
    r := Performed(r, FlushOpen);
    while r.flush.slot < |r.flushed|
      invariant Inv(r) && Fits(r) && r.emitted == s.emitted && r.banks == s.banks
      invariant |r.flushed| == |s.emitted|
      invariant r.flush.Scanning? && r.flush.next == 0 && r.flush.slot <= |r.flushed|
      invariant r.flush.banks == |s.banks| && r.flush.base == s.emitted
      decreases |s.emitted| - r.flush.slot
    {
      var slot := r.flush.slot;
      while r.flush.next < r.flush.banks
        invariant Inv(r) && Fits(r) && r.emitted == s.emitted && r.banks == s.banks
        invariant |r.flushed| == |s.emitted|
        invariant r.flush.Scanning? && r.flush.slot == slot && r.flush.next <= r.flush.banks
        invariant r.flush.banks == |s.banks| && r.flush.base == s.emitted
        decreases r.flush.banks - r.flush.next
      {
        r := Performed(r, FlushRead);
      }
      assert r.flush.next == r.flush.banks;
      r := Performed(r, FlushPush);
      if r.flush.Incremented? {
        r := Performed(r, FlushStore);
      }
    }
    AllSlotsPushed(r);
    r := Performed(r, FlushClose);
  }

  /** One step of the aggregator. */
  method Performed(s: State, a: Action) returns (r: State)
    requires Inv(s) && Fits(s) && a == NextFlushAction(s)
    ensures Enabled(s, a) && r == Apply(s, a) && Inv(r) && Fits(r)
    ensures r.emitted == s.emitted && r.banks == s.banks && |r.flushed| == |s.flushed| == |s.emitted|
  {
    r := Apply(s, a);
    StepKeepsInv(s, a);
  }

  lemma AllSlotsPushed(s: State)
    requires Inv(s) && s.flush.Scanning? && s.flush.slot == |s.flushed| && s.flush.base == s.emitted
    ensures s.recorder == s.flushed == s.emitted
  {
    forall i | 0 <= i < |s.emitted| ensures s.recorder[i] == s.flushed[i] == s.emitted[i] {
      assert SlotOk(s, i);
    }
  }

  /** Within one flush the aggregator keeps the snapshot it took when it listed the threads. */
  lemma {:induction false} FlushKeepsBase(s: State, acts: seq<Action>)
    requires s.flush.Listed? && Run(s, acts).Some? && FlushClose !in acts
    ensures var f := Run(s, acts).value.flush; !f.Idle? && f.base == s.flush.base
  {
    hide Apply, Enabled;
    if acts != [] {
      var init := acts[..|acts| - 1];
      assert FlushClose !in init;
      FlushKeepsBase(s, init);
      assert acts[|acts| - 1] in acts;
      StepKeepsBase(Run(s, init).value, acts[|acts| - 1]);
    }
  }

  lemma {:induction false} RunSplit(s: State, a: seq<Action>, b: seq<Action>)
    requires Run(s, a + b).Some?
    ensures Run(s, a).Some? && Run(s, a + b) == Run(Run(s, a).value, b)
  {
    if b == [] {
      assert a + b == a;
    } else {
      assert (a + b)[..|a + b| - 1] == a + b[..|b| - 1];
      RunSplit(s, a, b[..|b| - 1]);
    }
  }

  lemma RunLast(s: State, acts: seq<Action>, a: Action)
    requires Run(s, acts + [a]).Some?
    ensures Run(s, acts).Some? && Enabled(Run(s, acts).value, a)
    ensures Run(s, acts + [a]) == Some(Apply(Run(s, acts).value, a))
  {
    assert (acts + [a])[..|acts|] == acts;
  }

  lemma ListTakesSnapshot(s: State)
    requires Enabled(s, FlushList)
    ensures Apply(s, FlushList).flush == Listed(|s.banks|, s.emitted)
  {
  }

  /** Once every slot has been scanned, the recorder holds at least the snapshot. */
  lemma CloseCovers(s: State)
    requires Enabled(s, FlushClose)
    ensures Apply(s, FlushClose).emitted == s.emitted && Apply(s, FlushClose).flush.Idle?
    ensures Inv(s) ==> |s.recorder| == |s.emitted|
    ensures Inv(s) ==> |s.flush.base| <= |s.recorder| && Apply(s, FlushClose).recorder == s.recorder
    ensures Inv(s) ==> forall i :: 0 <= i < |s.flush.base| ==> s.flush.base[i] <= s.recorder[i]
  {
    if Inv(s) {
      forall i | 0 <= i < |s.flush.base| ensures s.flush.base[i] <= s.recorder[i] {
        assert SlotOk(s, i);
      }
    }
  }

  /** A flush whose scan has closed: `before` it began, `during` it, and the whole run. */
  function FlushRun(before: seq<Action>, during: seq<Action>): seq<Action> {
    before + [FlushList] + during + [FlushClose]
  }

  /** Coverage: when a flush completes, every add that had finished before it began is in the
      recorder, whatever was interleaved with it, and nothing that was not added is. */
  lemma FlushCoversFinishedAdds(before: seq<Action>, during: seq<Action>, i: nat)
    requires FlushClose !in during
    requires Run(INIT, FlushRun(before, during)).Some? && AddsFit(FlushRun(before, during))
    ensures var s' := Run(INIT, FlushRun(before, during)).value;
      i < |s'.recorder| ==> Added(before, i) <= s'.recorder[i] <= Added(FlushRun(before, during), i)
    ensures i >= |Run(INIT, FlushRun(before, during)).value.recorder| ==> Added(before, i) == 0
  {
    hide Run, Inv, Apply, Enabled, Accounts, Added, AddsFit;
    var listed := before + [FlushList];
    var scanned := listed + during;
    RunLast(INIT, scanned, FlushClose);
    RunSplit(INIT, listed, during);
    RunLast(INIT, before, FlushList);
    var s0, s1, s2 := Run(INIT, before).value, Run(INIT, listed).value, Run(INIT, scanned).value;
    assert s1.flush == Listed(|s0.banks|, s0.emitted) by {
      ListTakesSnapshot(s0);
    }
    FlushKeepsBase(s1, during);
    CloseCovers(s2);
    AddsFitMeansFits(FlushRun(before, during));
    RunKeepsInv(scanned);
    AddedIs(before, i);
    RunKeepsInv(FlushRun(before, during));
    AddedIs(FlushRun(before, during), i);
    CloseCovers(s2);
  }

  lemma AddedIs(acts: seq<Action>, i: nat)
    requires Run(INIT, acts).Some?
    ensures var s := Run(INIT, acts).value;
      && Added(acts, i) == (if i < |s.emitted| then s.emitted[i] else 0)
      && (Inv(s) && i < |s.emitted| && !s.flush.Incremented? ==> i < |s.recorder| == |s.emitted| && s.recorder[i] <= s.emitted[i])
  {
    RunAccounts(acts);
    var s := Run(INIT, acts).value;
    if Inv(s) && i < |s.emitted| {
      assert SlotOk(s, i);
    }
  }
}
