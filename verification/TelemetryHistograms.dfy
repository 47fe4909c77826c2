/** The histogram half of the telemetry bank: per-thread sample buffers, drained by the scrape and,
    when a buffer outgrows the threshold, by its own thread.

    A buffer operation happens under that buffer's lock and is one action; handing one sample to the
    recorder is one action. `recorded` is history. */
module TelemetryHistograms {
  import opened Base

  const HIST_CHUNK: nat := 256
  const HIST_CHUNKS: nat := 32
  const HIST_DRAIN_THRESHOLD: nat := 65_536

  /** A sample is carried as its bit pattern; no action looks inside it. */
  type Sample = nat

  /** Samples taken out of a buffer and not yet handed to the recorder handle of `slot`. */
  datatype Taken = Taken(slot: nat, samples: seq<Sample>)

  /** One thread's buffers, and the overflow batch it is handing over, if any. */
  datatype Bank = Bank(buffers: map<nat, seq<Sample>>, overflow: Taken)

  /** The aggregator's position: the thread list is taken first, then the counters are flushed, and only
      then does the drain take the descriptor lock. */
  datatype Flush = Idle | Listed(banks: nat) | Draining(banks: nat, slot: nat, next: nat, taken: Taken)

  datatype State = State(
    banks: seq<Bank>,
    slots: nat,
    flush: Flush,
    delivered: map<nat, seq<Sample>>,
    recorded: map<nat, seq<Sample>>)

  datatype Action =
    | Register
    | Intern
    | Record(thread: nat, slot: nat, sample: Sample)
    | OverflowDeliver(thread: nat)
    | FlushList
    | FlushOpen
    | FlushTake
    | FlushDeliver
    | FlushClose

  const NOTHING := Taken(0, [])
  const INIT := State([], 0, Idle, map[], map[])

  function Get(m: map<nat, seq<Sample>>, slot: nat): seq<Sample> {
    if slot in m then m[slot] else []
  }

  function Buffer(b: Bank, slot: nat): seq<Sample> {
    if slot in b.buffers then b.buffers[slot] else []
  }

  predicate Enabled(s: State, a: Action) {
    match a
    case Register => true
    case Intern => (s.flush.Idle? || s.flush.Listed?) && s.slots < HIST_CHUNK * HIST_CHUNKS
    // A thread records again only once it has handed over its overflow batch.
    case Record(t, slot, _) => t < |s.banks| && slot < s.slots && s.banks[t].overflow.samples == []
    case OverflowDeliver(t) => t < |s.banks| && s.banks[t].overflow.samples != []
    case FlushList => s.flush.Idle?
    case FlushOpen => s.flush.Listed?
    case FlushTake =>
      && s.flush.Draining? && s.flush.taken.samples == []
      && s.flush.slot < s.slots && s.flush.banks <= |s.banks|
    case FlushDeliver => s.flush.Draining? && s.flush.taken.samples != []
    case FlushClose => s.flush.Draining? && s.flush.taken.samples == [] && s.slots <= s.flush.slot
  }

  /** Push one sample; at the threshold, take the whole buffer for the thread to hand over itself. */
  function Recorded(b: Bank, slot: nat, sample: Sample): Bank {
    var buf := Buffer(b, slot) + [sample];
    if |buf| >= HIST_DRAIN_THRESHOLD
    then Bank(b.buffers[slot := []], Taken(slot, buf))
    else b.(buffers := b.buffers[slot := buf])
  }

  /** Hand over the first sample of the overflow batch. */
  function HandedOver(b: Bank): Bank
    requires b.overflow.samples != []
  {
    b.(overflow := b.overflow.(samples := b.overflow.samples[1..]))
  }

  /** Take one buffer, leaving it empty; an empty buffer is left alone. */
  function Emptied(b: Bank, slot: nat): Bank {
    if Buffer(b, slot) == [] then b else b.(buffers := b.buffers[slot := []])
  }

  function Deliver(s: State, slot: nat, sample: Sample): State {
    s.(delivered := s.delivered[slot := Get(s.delivered, slot) + [sample]])
  }

  function Apply(s: State, a: Action): State
    requires Enabled(s, a)
  {
    match a
    case Register => s.(banks := s.banks + [Bank(map[], NOTHING)])
    case Intern => s.(slots := s.slots + 1)
    case Record(t, slot, sample) =>
      s.(banks := s.banks[t := Recorded(s.banks[t], slot, sample)],
         recorded := s.recorded[slot := Get(s.recorded, slot) + [sample]])
    case OverflowDeliver(t) =>
      var o := s.banks[t].overflow;
      var rest := s.(banks := s.banks[t := HandedOver(s.banks[t])]);
      // A slot with no descriptor would have its samples dropped.
      if o.slot < s.slots then Deliver(rest, o.slot, o.samples[0]) else rest
    case FlushList => s.(flush := Listed(|s.banks|))
    case FlushOpen => s.(flush := Draining(s.flush.banks, 0, 0, NOTHING))
    case FlushTake =>
      var f := s.flush;
      if f.next < f.banks then
        var b := s.banks[f.next];
        s.(banks := s.banks[f.next := Emptied(b, f.slot)],
           flush := f.(next := f.next + 1, taken := Taken(f.slot, Buffer(b, f.slot))))
      else
        s.(flush := f.(slot := f.slot + 1, next := 0))
    case FlushDeliver =>
      var f := s.flush;
      Deliver(s.(flush := f.(taken := Taken(f.taken.slot, f.taken.samples[1..]))),
              f.taken.slot, f.taken.samples[0])
    case FlushClose => s.(flush := Idle)
  }

  function Run(s: State, acts: seq<Action>): Option<State> {
    if acts == [] then Some(s)
    else
      var before := Run(s, acts[..|acts| - 1]);
      if before.Some? && Enabled(before.value, acts[|acts| - 1])
      then Some(Apply(before.value, acts[|acts| - 1]))
      else None
  }

  /** The number of copies of `x` in `q`. */
  function Count(q: seq<Sample>, x: Sample): nat {
    if q == [] then 0 else Count(q[..|q| - 1], x) + if q[|q| - 1] == x then 1 else 0
  }

  /** How many copies of `x` a taken batch is carrying to `slot`. */
  function InFlight(t: Taken, slot: nat, x: Sample): nat {
    if t.slot == slot then Count(t.samples, x) else 0
  }

  /** Copies of `x` one thread still holds for `slot`, buffered or taken by its own overflow drain. */
  function Held(b: Bank, slot: nat, x: Sample): nat {
    Count(Buffer(b, slot), x) + InFlight(b.overflow, slot, x)
  }

  function AllHeld(banks: seq<Bank>, slot: nat, x: Sample): nat {
    if banks == [] then 0
    else AllHeld(banks[..|banks| - 1], slot, x) + Held(banks[|banks| - 1], slot, x)
  }

  function Scraped(f: Flush, slot: nat, x: Sample): nat {
    if f.Draining? then InFlight(f.taken, slot, x) else 0
  }

  /** Replacing one bank trades what it held before for what it holds now. */
  lemma {:induction false} HeldUpdate(banks: seq<Bank>, t: nat, b: Bank, slot: nat, x: Sample)
    requires t < |banks|
    ensures AllHeld(banks[t := b], slot, x) + Held(banks[t], slot, x) == AllHeld(banks, slot, x) + Held(b, slot, x)
  {
    var n := |banks| - 1;
    if t < n {
      assert banks[t := b][..n] == banks[..n][t := b];
      HeldUpdate(banks[..n], t, b, slot, x);
    } else {
      assert banks[t := b][..n] == banks[..n];
    }
  }

  ghost predicate Conserved(s: State, slot: nat, x: Sample) {
    Count(Get(s.recorded, slot), x) ==
    Count(Get(s.delivered, slot), x) + AllHeld(s.banks, slot, x) + Scraped(s.flush, slot, x)
  }

  /** Every buffer is below the threshold, and an overflow batch belongs to an interned slot. */
  ghost predicate BankOk(b: Bank, slots: nat) {
    && (forall slot :: slot in b.buffers ==> |b.buffers[slot]| < HIST_DRAIN_THRESHOLD)
    && (b.overflow.samples != [] ==> b.overflow.slot < slots)
  }

  ghost predicate Inv(s: State) {
    && (forall slot: nat, x: Sample :: Conserved(s, slot, x))
    && (forall t :: 0 <= t < |s.banks| ==> BankOk(s.banks[t], s.slots))
    && (!s.flush.Idle? ==> s.flush.banks <= |s.banks|)
    && (s.flush.Draining? ==> s.flush.next <= s.flush.banks)
  }

  lemma {:induction false} TailCount(q: seq<Sample>, x: Sample)
    requires q != []
    ensures Count(q, x) == Count(q[1..], x) + if q[0] == x then 1 else 0
  {
    var n := |q| - 1;
    if n > 0 {
      assert q[..n][1..] == q[1..][..n - 1];
      TailCount(q[..n], x);
    }
  }

  lemma PushCount(q: seq<Sample>, y: Sample, x: Sample)
    ensures Count(q + [y], x) == Count(q, x) + if y == x then 1 else 0
  {
    assert (q + [y])[..|q|] == q;
  }

  lemma RecordedHeld(b: Bank, r: nat, y: Sample, slot: nat, x: Sample)
    requires b.overflow.samples == []
    ensures Held(Recorded(b, r, y), slot, x) == Held(b, slot, x) + if r == slot && y == x then 1 else 0
  {
    PushCount(Buffer(b, r), y, x);
  }

  lemma HandedOverHeld(b: Bank, slot: nat, x: Sample)
    requires b.overflow.samples != []
    ensures Held(b, slot, x) ==
      Held(HandedOver(b), slot, x) + if b.overflow.slot == slot && b.overflow.samples[0] == x then 1 else 0
  {
    TailCount(b.overflow.samples, x);
  }

  lemma DeliverCount(s: State, r: nat, y: Sample, slot: nat, x: Sample)
    ensures Count(Get(Deliver(s, r, y).delivered, slot), x) ==
      Count(Get(s.delivered, slot), x) + if r == slot && y == x then 1 else 0
  {
    PushCount(Get(s.delivered, r), y, x);
  }

  lemma RecordConserves(s: State, a: Action, slot: nat, x: Sample)
    requires a.Record? && Enabled(s, a) && Conserved(s, slot, x)
    ensures Conserved(Apply(s, a), slot, x)
  {
    var b := s.banks[a.thread];
    RecordedHeld(b, a.slot, a.sample, slot, x);
    HeldUpdate(s.banks, a.thread, Recorded(b, a.slot, a.sample), slot, x);
    PushCount(Get(s.recorded, a.slot), a.sample, x);
  }

  lemma OverflowConserves(s: State, a: Action, slot: nat, x: Sample)
    requires a.OverflowDeliver? && Enabled(s, a) && Conserved(s, slot, x)
    requires s.banks[a.thread].overflow.slot < s.slots
    ensures Conserved(Apply(s, a), slot, x)
  {
    var b := s.banks[a.thread];
    HandedOverHeld(b, slot, x);
    HeldUpdate(s.banks, a.thread, HandedOver(b), slot, x);
    DeliverCount(s, b.overflow.slot, b.overflow.samples[0], slot, x);
  }

  lemma TakeConserves(s: State, slot: nat, x: Sample)
    requires Enabled(s, FlushTake) && Conserved(s, slot, x)
    ensures Conserved(Apply(s, FlushTake), slot, x)
  {
    var f := s.flush;
    if f.next < f.banks {
      var b := s.banks[f.next];
      HeldUpdate(s.banks, f.next, Emptied(b, f.slot), slot, x);
      assert Held(b, slot, x) ==
        Held(Emptied(b, f.slot), slot, x) + if f.slot == slot then Count(Buffer(b, slot), x) else 0;
    }
  }

  lemma FlushStepConserves(s: State, a: Action, slot: nat, x: Sample)
    requires Enabled(s, a) && Conserved(s, slot, x)
    requires a.Register? || a.Intern? || a.FlushList? || a.FlushOpen? || a.FlushDeliver? || a.FlushClose?
    ensures Conserved(Apply(s, a), slot, x)
  {
    if a.Register? {
      assert (s.banks + [Bank(map[], NOTHING)])[..|s.banks|] == s.banks;
      assert Held(Bank(map[], NOTHING), slot, x) == 0;
    } else if a.FlushDeliver? {
      var taken := s.flush.taken;
      TailCount(taken.samples, x);
      DeliverCount(s, taken.slot, taken.samples[0], slot, x);
    }
  }

  lemma StepConserves(s: State, a: Action, slot: nat, x: Sample)
    requires Enabled(s, a) && Inv(s)
    ensures Conserved(Apply(s, a), slot, x)
  {
    assert Conserved(s, slot, x);
    match a {
      case Record(_, _, _) => RecordConserves(s, a, slot, x);
      case OverflowDeliver(t) =>
        assert BankOk(s.banks[t], s.slots);
        OverflowConserves(s, a, slot, x);
      case FlushTake => TakeConserves(s, slot, x);
      case _ => FlushStepConserves(s, a, slot, x);
    }
  }

  lemma StepKeepsBanks(s: State, a: Action, t: nat)
    requires Enabled(s, a) && Inv(s) && t < |Apply(s, a).banks|
    ensures BankOk(Apply(s, a).banks[t], Apply(s, a).slots)
  {
    if t < |s.banks| {
      assert BankOk(s.banks[t], s.slots);
    }
  }

  lemma StepKeepsInv(s: State, a: Action)
    requires Enabled(s, a) && Inv(s)
    ensures Inv(Apply(s, a))
  {
    forall slot: nat, x: Sample ensures Conserved(Apply(s, a), slot, x) {
      StepConserves(s, a, slot, x);
    }
    forall t | 0 <= t < |Apply(s, a).banks| ensures BankOk(Apply(s, a).banks[t], Apply(s, a).slots) {
      StepKeepsBanks(s, a, t);
    }
  }

  lemma {:induction false} RunKeepsInv(acts: seq<Action>)
    requires Run(INIT, acts).Some?
    ensures Inv(Run(INIT, acts).value)
  {
    if acts != [] {
      RunKeepsInv(acts[..|acts| - 1]);
      StepKeepsInv(Run(INIT, acts[..|acts| - 1]).value, acts[|acts| - 1]);
    }
  }

  /** The samples recorded for `slot`, read off the actions alone. */
  function AllRecorded(acts: seq<Action>, slot: nat): seq<Sample> {
    if acts == [] then []
    else
      var before, a := AllRecorded(acts[..|acts| - 1], slot), acts[|acts| - 1];
      if a.Record? && a.slot == slot then before + [a.sample] else before
  }

  lemma {:induction false} RecordedIs(acts: seq<Action>, slot: nat)
    requires Run(INIT, acts).Some?
    ensures Get(Run(INIT, acts).value.recorded, slot) == AllRecorded(acts, slot)
  {
    if acts != [] {
      RecordedIs(acts[..|acts| - 1], slot);
    }
  }

  /** Exactly-once delivery over every run: each copy of a recorded sample is delivered to its own
      slot, still held by its thread, or in the scrape's batch, and no buffer reaches the threshold. */
  lemma DeliveredExactlyOnce(acts: seq<Action>, slot: nat, x: Sample)
    requires Run(INIT, acts).Some?
    ensures var s := Run(INIT, acts).value;
      && Count(AllRecorded(acts, slot), x) ==
         Count(Get(s.delivered, slot), x) + AllHeld(s.banks, slot, x) + Scraped(s.flush, slot, x)
      && forall t :: 0 <= t < |s.banks| ==> |Buffer(s.banks[t], slot)| < HIST_DRAIN_THRESHOLD
  {
    RunKeepsInv(acts);
    RecordedIs(acts, slot);
    var s := Run(INIT, acts).value;
    assert Conserved(s, slot, x);
    forall t | 0 <= t < |s.banks| ensures |Buffer(s.banks[t], slot)| < HIST_DRAIN_THRESHOLD {
      assert BankOk(s.banks[t], s.slots);
    }
  }

  /** Once nothing is buffered or in flight, the recorder has been given exactly what was recorded. */
  lemma QuiescentMeansAllDelivered(acts: seq<Action>, slot: nat)
    requires Run(INIT, acts).Some?
    requires var s := Run(INIT, acts).value;
      s.flush.Idle? && forall t :: 0 <= t < |s.banks| ==>
        Buffer(s.banks[t], slot) == [] && s.banks[t].overflow.samples == []
    ensures multiset(Get(Run(INIT, acts).value.delivered, slot)) == multiset(AllRecorded(acts, slot))
  {
    var s := Run(INIT, acts).value;
    forall x: Sample ensures multiset(Get(s.delivered, slot))[x] == multiset(AllRecorded(acts, slot))[x] {
      DeliveredExactlyOnce(acts, slot, x);
      NothingHeld(s.banks, slot, x);
      CountIsMultiplicity(Get(s.delivered, slot), x);
      CountIsMultiplicity(AllRecorded(acts, slot), x);
    }
  }

  lemma {:induction false} CountIsMultiplicity(q: seq<Sample>, x: Sample)
    ensures Count(q, x) == multiset(q)[x]
  {
    if q != [] {
      assert q == q[..|q| - 1] + [q[|q| - 1]];
      CountIsMultiplicity(q[..|q| - 1], x);
    }
  }

  lemma {:induction false} NothingHeld(banks: seq<Bank>, slot: nat, x: Sample)
    requires forall t :: 0 <= t < |banks| ==> Buffer(banks[t], slot) == [] && banks[t].overflow.samples == []
    ensures AllHeld(banks, slot, x) == 0
  {
    if banks != [] {
      NothingHeld(banks[..|banks| - 1], slot, x);
    }
  }

  // ---- A drain covers what was recorded before it ----

  /** What a thread has recorded for a slot, one action later. */
  function Grown(q: seq<Sample>, a: Action, t: nat, slot: nat): seq<Sample> {
    if a.Record? && a.thread == t && a.slot == slot then q + [a.sample] else q
  }

  /** The samples that thread `t` recorded for `slot` in a stretch of a run, in order. */
  function RecordedBy(acts: seq<Action>, t: nat, slot: nat): seq<Sample> {
    if acts == [] then [] else Grown(RecordedBy(acts[..|acts| - 1], t, slot), acts[|acts| - 1], t, slot)
  }

  /** `q` is the last part of `r`. */
  predicate EndOf(q: seq<Sample>, r: seq<Sample>) {
    |q| <= |r| && r[|r| - |q|..] == q
  }

  /** The running scrape will not visit this buffer again: it has been taken, or its thread came after
      the list. */
  predicate Passed(f: Flush, t: nat, slot: nat) {
    || (!f.Idle? && f.banks <= t)
    || (f.Draining? && (slot < f.slot || (slot == f.slot && t < f.next)))
  }

  predicate FreshIfPassed(s: State, t: nat, slot: nat, newer: seq<Sample>)
    requires t < |s.banks|
  {
    Passed(s.flush, t, slot) ==> EndOf(Buffer(s.banks[t], slot), newer)
  }

  lemma EndGrows(q: seq<Sample>, r: seq<Sample>, x: Sample)
    requires EndOf(q, r)
    ensures EndOf(q + [x], r + [x]) && EndOf([], r + [x])
  {
    assert (r + [x])[|r| - |q|..] == r[|r| - |q|..] + [x];
  }

  /** One step: a buffer the scrape has passed holds only what was recorded since the list. */
  lemma StepKeepsFresh(s: State, a: Action, newer: seq<Sample>, t: nat, slot: nat)
    requires Enabled(s, a) && Inv(s) && !s.flush.Idle? && a != FlushClose && t < |s.banks|
    requires FreshIfPassed(s, t, slot, newer)
    ensures t < |Apply(s, a).banks| && FreshIfPassed(Apply(s, a), t, slot, Grown(newer, a, t, slot))
  {
    if a.Record? && Passed(s.flush, t, slot) {
      EndGrows(Buffer(s.banks[t], slot), newer, a.sample);
    }
  }

  /** Until it closes, a flush keeps its thread list. */
  lemma {:induction false} DuringFlush(s: State, acts: seq<Action>)
    requires Inv(s) && !s.flush.Idle? && Run(s, acts).Some? && FlushClose !in acts
    ensures var s' := Run(s, acts).value; Inv(s') && !s'.flush.Idle? && s'.flush.banks == s.flush.banks
  {
    if acts != [] {
      var init, a := acts[..|acts| - 1], acts[|acts| - 1];
      assert a in acts && FlushClose !in init;
      DuringFlush(s, init);
      StepKeepsInv(Run(s, init).value, a);
    }
  }

  lemma NewBank(s: State, a: Action, t: nat)
    requires Enabled(s, a) && |s.banks| <= t < |Apply(s, a).banks|
    ensures forall slot :: Buffer(Apply(s, a).banks[t], slot) == []
  {
  }

  lemma {:induction false} PassedIsFresh(s: State, acts: seq<Action>, t: nat, slot: nat)
    requires Inv(s) && s.flush == Listed(|s.banks|) && Run(s, acts).Some? && FlushClose !in acts
    requires t < |Run(s, acts).value.banks|
    ensures FreshIfPassed(Run(s, acts).value, t, slot, RecordedBy(acts, t, slot))
  {
    if acts != [] {
      hide Enabled, Apply, Inv;
      var init, a := acts[..|acts| - 1], acts[|acts| - 1];
      var before := Run(s, init).value;
      assert a in acts && FlushClose !in init;
      DuringFlush(s, init);
      if t < |before.banks| {
        PassedIsFresh(s, init, t, slot);
        StepKeepsFresh(before, a, RecordedBy(init, t, slot), t, slot);
      } else {
        NewBank(before, a, t);
      }
    }
  }

  lemma RunLast(s: State, acts: seq<Action>, a: Action)
    requires Run(s, acts + [a]).Some?
    ensures Run(s, acts).Some? && Enabled(Run(s, acts).value, a)
    ensures Run(s, acts + [a]) == Some(Apply(Run(s, acts).value, a))
  {
    assert (acts + [a])[..|acts|] == acts;
  }

  lemma {:induction false} RunSplit(s: State, a: seq<Action>, b: seq<Action>)
    requires Run(s, a + b).Some?
    ensures Run(s, a).Some? && Run(s, a + b) == Run(Run(s, a).value, b)
  {
    if b == [] {
      assert a + b == a;
    } else {
      assert (a + b)[..|a + b| - 1] == a + b[..|b| - 1];
      RunSplit(s, a, b[..|b| - 1]);
    }
  }

  /** One flush, whole: from the state where it lists the threads to the one where it closes. */
  ghost predicate WholeFlush(before: seq<Action>, during: seq<Action>) {
    FlushClose !in during && Run(INIT, before + [FlushList] + during + [FlushClose]).Some?
  }

  /** The states at the two ends of a flush, and the last one before it closes. */
  lemma FlushStates(before: seq<Action>, during: seq<Action>) returns (s0: State, s1: State, s2: State)
    requires WholeFlush(before, during)
    ensures Run(INIT, before) == Some(s0) && s1 == s0.(flush := Listed(|s0.banks|)) && Run(s1, during) == Some(s2)
    ensures Run(INIT, before + [FlushList] + during + [FlushClose]) == Some(s2.(flush := Idle))
    ensures Inv(s1) && Inv(s2) && Inv(s2.(flush := Idle)) && Enabled(s2, FlushClose)
  {
    var listed := before + [FlushList];
    var scanned := listed + during;
    RunLast(INIT, scanned, FlushClose);
    RunSplit(INIT, listed, during);
    RunLast(INIT, before, FlushList);
    s0, s1, s2 := Run(INIT, before).value, Run(INIT, listed).value, Run(INIT, scanned).value;
    RunKeepsInv(listed);
    RunKeepsInv(scanned);
    RunKeepsInv(scanned + [FlushClose]);
  }

  /** When a flush closes, no thread's buffer holds anything it recorded before the flush listed the
      threads: what is buffered is the last part of what that thread recorded since. */
  lemma DrainLeavesOnlyNewer(before: seq<Action>, during: seq<Action>, t: nat, slot: nat)
    requires WholeFlush(before, during)
    ensures var s' := Run(INIT, before + [FlushList] + during + [FlushClose]).value;
      t < |s'.banks| && slot < s'.slots ==> EndOf(Buffer(s'.banks[t], slot), RecordedBy(during, t, slot))
  {
    var s0, s1, s2 := FlushStates(before, during);
    if t < |s2.banks| && slot < s2.slots {
      PassedIsFresh(s1, during, t, slot);
    }
  }

  /** Copies of `x` that threads are handing over to `slot` from their own overflow drains. */
  function AllOverflow(banks: seq<Bank>, slot: nat, x: Sample): nat {
    if banks == [] then 0
    else AllOverflow(banks[..|banks| - 1], slot, x) + InFlight(banks[|banks| - 1].overflow, slot, x)
  }

  /** Copies of `x` that the first `n` threads recorded for `slot` in a stretch of a run. */
  function CountBy(acts: seq<Action>, n: nat, slot: nat, x: Sample): nat {
    if n == 0 then 0 else CountBy(acts, n - 1, slot, x) + Count(RecordedBy(acts, n - 1, slot), x)
  }

  lemma {:induction false} CountByNone(n: nat, slot: nat, x: Sample)
    ensures CountBy([], n, slot, x) == 0
  {
    if n > 0 {
      CountByNone(n - 1, slot, x);
    }
  }

  lemma {:induction false} CountByStep(acts: seq<Action>, n: nat, slot: nat, x: Sample)
    requires acts != []
    ensures var a := acts[|acts| - 1];
      CountBy(acts, n, slot, x) == CountBy(acts[..|acts| - 1], n, slot, x) +
        if a.Record? && a.thread < n && a.slot == slot && a.sample == x then 1 else 0
  {
    if n > 0 {
      var a := acts[|acts| - 1];
      CountByStep(acts, n - 1, slot, x);
      PushCount(RecordedBy(acts[..|acts| - 1], n - 1, slot), if a.Record? then a.sample else x, x);
    }
  }

  /** The history of a slot grows by at least what any of its threads record. */
  lemma {:induction false} RecordedGrows(s: State, acts: seq<Action>, n: nat, slot: nat, x: Sample)
    requires Run(s, acts).Some?
    ensures Count(Get(Run(s, acts).value.recorded, slot), x) >= Count(Get(s.recorded, slot), x) + CountBy(acts, n, slot, x)
  {
    hide Apply, Enabled, Count, CountBy, Get;
    if acts == [] {
      CountByNone(n, slot, x);
    } else {
      var init, a := acts[..|acts| - 1], acts[|acts| - 1];
      RecordedGrows(s, init, n, slot, x);
      CountByStep(acts, n, slot, x);
      StepRecords(Run(s, init).value, a, slot, x);
    }
  }

  lemma StepRecords(s: State, a: Action, slot: nat, x: Sample)
    requires Enabled(s, a)
    ensures Count(Get(Apply(s, a).recorded, slot), x) ==
      Count(Get(s.recorded, slot), x) + if a.Record? && a.slot == slot && a.sample == x then 1 else 0
  {
    if a.Record? {
      PushCount(Get(s.recorded, a.slot), a.sample, x);
    }
  }

  lemma {:induction false} EndCount(q: seq<Sample>, r: seq<Sample>, x: Sample)
    requires EndOf(q, r)
    ensures Count(q, x) <= Count(r, x)
  {
    if q != [] {
      var m, n := |q| - 1, |r| - 1;
      assert r[|r| - |q|..][m] == r[n];
      assert r[..n][n - m..] == r[|r| - |q|..][..m];
      EndCount(q[..m], r[..n], x);
    }
  }

  lemma {:induction false} HeldAtMost(banks: seq<Bank>, acts: seq<Action>, slot: nat, x: Sample)
    requires forall t :: 0 <= t < |banks| ==> EndOf(Buffer(banks[t], slot), RecordedBy(acts, t, slot))
    ensures AllHeld(banks, slot, x) <= CountBy(acts, |banks|, slot, x) + AllOverflow(banks, slot, x)
  {
    if banks != [] {
      var n := |banks| - 1;
      HeldAtMost(banks[..n], acts, slot, x);
      EndCount(Buffer(banks[n], slot), RecordedBy(acts, n, slot), x);
    }
  }

  /** Coverage: when a flush closes, every sample recorded before it listed the threads has been
      delivered, or is being handed over by the thread that overflowed with it. */
  lemma DrainCoversFinishedRecords(before: seq<Action>, during: seq<Action>, slot: nat, x: Sample)
    requires WholeFlush(before, during)
    ensures var s' := Run(INIT, before + [FlushList] + during + [FlushClose]).value;
      slot < s'.slots ==>
        Count(AllRecorded(before, slot), x) <= Count(Get(s'.delivered, slot), x) + AllOverflow(s'.banks, slot, x)
  {
    var s0, s1, s2 := FlushStates(before, during);
    if slot < s2.slots {
      forall t | 0 <= t < |s2.banks| ensures EndOf(Buffer(s2.banks[t], slot), RecordedBy(during, t, slot)) {
        DrainLeavesOnlyNewer(before, during, t, slot);
      }
      RecordedIs(before, slot);
      HeldAtMost(s2.banks, during, slot, x);
      RecordedGrows(s1, during, |s2.banks|, slot, x);
      assert Conserved(s2.(flush := Idle), slot, x);
    }
  }

  lemma {:induction false} NothingRecorded(acts: seq<Action>, t: nat, slot: nat)
    requires forall a :: a in acts ==> !a.Record?
    ensures RecordedBy(acts, t, slot) == []
  {
    if acts != [] {
      assert acts[|acts| - 1] in acts;
      NothingRecorded(acts[..|acts| - 1], t, slot);
    }
  }

  /** A flush during which nothing is recorded leaves the quiet state behind it, once no overflow batch
      is left: the recorder then holds exactly the samples that were recorded. */
  lemma QuietFlushDeliversAll(before: seq<Action>, during: seq<Action>, slot: nat)
    requires WholeFlush(before, during) && forall a :: a in during ==> !a.Record?
    requires var s' := Run(INIT, before + [FlushList] + during + [FlushClose]).value;
      slot < s'.slots && forall t :: 0 <= t < |s'.banks| ==> s'.banks[t].overflow.samples == []
    ensures var s' := Run(INIT, before + [FlushList] + during + [FlushClose]).value;
      multiset(Get(s'.delivered, slot)) == multiset(AllRecorded(before + [FlushList] + during + [FlushClose], slot))
  {
    var acts := before + [FlushList] + during + [FlushClose];
    var s' := Run(INIT, acts).value;
    var s0, s1, s2 := FlushStates(before, during);
    forall t | 0 <= t < |s'.banks| ensures Buffer(s'.banks[t], slot) == [] {
      DrainLeavesOnlyNewer(before, during, t, slot);
      NothingRecorded(during, t, slot);
    }
    QuiescentMeansAllDelivered(acts, slot);
  }

  /** The guards hide no run: a thread with no overflow batch in hand can record any sample for any slot,
      one with a batch can hand over its next sample, and a scrape can always take its next step. */
  lemma NeverStuck(acts: seq<Action>)
    requires Run(INIT, acts).Some?
    ensures var s := Run(INIT, acts).value;
      && Enabled(s, Register)
      && (!s.flush.Draining? && s.slots < 8_192 ==> Enabled(s, Intern))
      && (forall t: nat, slot: nat, x: Sample :: t < |s.banks| && slot < s.slots ==>
            Enabled(s, Record(t, slot, x)) || Enabled(s, OverflowDeliver(t)))
      && (s.flush.Idle? || Enabled(s, FlushOpen) || Enabled(s, FlushTake) || Enabled(s, FlushDeliver) || Enabled(s, FlushClose))
  {
    RunKeepsInv(acts);
  }

  /** Recording buffers the sample and hands nothing over, until the buffer is one short of the threshold:
      then the whole of it is taken, in order, and the buffer is empty. */
  lemma RecordBuffersUntilFull(s: State, t: nat, slot: nat, x: Sample)
    requires Enabled(s, Record(t, slot, x))
    ensures var b, b' := s.banks[t], Apply(s, Record(t, slot, x)).banks[t];
      if |Buffer(b, slot)| + 1 < 65_536 then Buffer(b', slot) == Buffer(b, slot) + [x] && b'.overflow == b.overflow
      else Buffer(b', slot) == [] && b'.overflow == Taken(slot, Buffer(b, slot) + [x])
  {
  }
}
