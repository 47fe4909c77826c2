/** The telemetry intern table: an append-only descriptor vector and the index that finds a label
    set's slot again. */
module SlotTable {
  import opened Base
  import opened Text

  const KEY_SEP: char := '\U{1f}'

  datatype Label = Label(key: string, value: string)
  datatype Desc = Desc(name: string, labels: seq<Label>)
  datatype Table = Table(index: map<string, nat>, descs: seq<Desc>)

  const EMPTY := Table(map[], [])

  function LabelFields(labels: seq<Label>): seq<string> {
    if labels == [] then [] else [labels[0].key, labels[0].value] + LabelFields(labels[1..])
  }

  function Fields(d: Desc): seq<string> {
    [d.name] + LabelFields(d.labels)
  }

  /** The intern key of a label set. */
  function Key(d: Desc): string {
    Join(Fields(d), KEY_SEP)
  }

  /** A label set none of whose texts contains the separator. */
  predicate Plain(d: Desc) {
    Free(Fields(d), KEY_SEP)
  }

  function Interned(t: Table, d: Desc, max: nat): (Table, Option<nat>) {
    if Key(d) in t.index then (t, Some(t.index[Key(d)]))
    else if |t.descs| >= max then (t, None)
    else (Table(t.index[Key(d) := |t.descs|], t.descs + [d]), Some(|t.descs|))
  }

  /** Index and descriptors are two views of one bijection between keys and dense ids. */
  ghost predicate Consistent(t: Table) {
    && (forall id :: 0 <= id < |t.descs| ==> Key(t.descs[id]) in t.index && t.index[Key(t.descs[id])] == id)
    && (forall k :: k in t.index ==> t.index[k] < |t.descs| && Key(t.descs[t.index[k]]) == k)
  }

  /** The registry's table object. */
  class SlotRegistry {
    var index: map<string, nat>
    var descs: seq<Desc>

    ghost function Value(): Table
      reads this
    {
      Table(index, descs)
    }

    ghost predicate Valid()
      reads this
    {
      Consistent(Value())
    }

    constructor ()
      ensures Valid() && Value() == EMPTY
    {
      index := map[];
      descs := [];
    }

    /** Resolve a label set to its slot, registering it on first sight unless the table is full. */
    method Intern(name: string, labels: seq<Label>, max: nat) returns (slot: Option<nat>)
      requires Valid()
      modifies this
      ensures Valid()
      ensures (Value(), slot) == Interned(old(Value()), Desc(name, labels), max)
      ensures old(descs) <= descs
      ensures slot.Some? ==> slot.value < |descs| && Key(descs[slot.value]) == Key(Desc(name, labels))
    {
      var key := BuildKey(name, labels);
      if key in index {
        slot := Some(index[key]);
      } else if |descs| >= max {
        slot := None;
      } else {
        var id := |descs|;
        descs := descs + [Desc(name, labels)];
        index := index[key := id];
        slot := Some(id);
      }
    }
  }

  lemma {:induction false} LabelFieldsSnoc(labels: seq<Label>, l: Label)
    ensures LabelFields(labels + [l]) == LabelFields(labels) + [l.key, l.value]
  {
    if labels != [] {
      assert (labels + [l])[1..] == labels[1..] + [l];
      LabelFieldsSnoc(labels[1..], l);
    }
  }

  method BuildKey(name: string, labels: seq<Label>) returns (key: string)
    ensures key == Key(Desc(name, labels))
  {
    key := name;
    for i := 0 to |labels|
      invariant key == Key(Desc(name, labels[..i]))
    {
      var l := labels[i];
      assert labels[..i + 1] == labels[..i] + [l];
      LabelFieldsSnoc(labels[..i], l);
      var fields := Fields(Desc(name, labels[..i]));
      assert Fields(Desc(name, labels[..i + 1])) == fields + [l.key] + [l.value];
      JoinSnoc(fields, l.key, KEY_SEP);
      JoinSnoc(fields + [l.key], l.value, KEY_SEP);
      key := key + [KEY_SEP] + l.key + [KEY_SEP] + l.value;
    }
    assert labels[..|labels|] == labels;
  }

  lemma {:induction false} LabelFieldsInjective(a: seq<Label>, b: seq<Label>)
    requires LabelFields(a) == LabelFields(b)
    ensures a == b
  {
    if a != [] && b != [] {
      var fa, fb := LabelFields(a), LabelFields(b);
      assert fa[0] == a[0].key && fa[1] == a[0].value && fb[0] == b[0].key && fb[1] == b[0].value;
      assert fa[2..] == LabelFields(a[1..]) && fb[2..] == LabelFields(b[1..]);
      LabelFieldsInjective(a[1..], b[1..]);
      assert a == [a[0]] + a[1..] && b == [b[0]] + b[1..];
    }
  }

  /** Over separator-free label sets the intern key identifies the label set. */
  lemma KeyIdentifiesLabelSet(a: Desc, b: Desc)
    requires Plain(a) && Plain(b)
    ensures Key(a) == Key(b) <==> a == b
  {
    if Key(a) == Key(b) {
      JoinInjective(Fields(a), Fields(b), KEY_SEP);
      assert LabelFields(a.labels) == Fields(a)[1..] && LabelFields(b.labels) == Fields(b)[1..];
      LabelFieldsInjective(a.labels, b.labels);
    }
  }

  /** What an intern key says: the separator-free parts of name, label keys and label values. */
  function Atoms(d: Desc): seq<string> {
    SplitAll(Fields(d), KEY_SEP)
  }

  /** Two label sets take one key exactly when their parts agree. */
  lemma KeysAgreeIffAtomsAgree(a: Desc, b: Desc)
    ensures Key(a) == Key(b) <==> Atoms(a) == Atoms(b)
  {
    JoinAgreesIff(Fields(a), Fields(b), KEY_SEP);
  }

  ghost predicate Twin(d: Desc, e: Desc) {
    e != d && Key(e) == Key(d)
  }

  lemma {:induction false} LabelFieldsCount(labels: seq<Label>)
    ensures |LabelFields(labels)| == 2 * |labels|
  {
    if labels != [] {
      LabelFieldsCount(labels[1..]);
    }
  }

  lemma BareKey(name: string)
    ensures Key(Desc(name, [])) == name && Fields(Desc(name, [])) == [name]
  {
    assert Fields(Desc(name, [])) == [name];
  }

  lemma OneLabelKey(name: string, key: string, value: string)
    ensures Key(Desc(name, [Label(key, value)])) == name + [KEY_SEP] + (key + [KEY_SEP] + value)
  {
    var d := Desc(name, [Label(key, value)]);
    assert LabelFields(d.labels) == [key, value] + LabelFields([]);
    var f := [name, key, value];
    assert Fields(d) == f && f[1..] == [key, value] && f[1..][1..] == [value];
    assert Join(f[1..], KEY_SEP) == key + [KEY_SEP] + value;
  }

  /** Some other label set takes this one's key exactly when it has three parts or more: that is, when
      it has a label, or its bare name holds two separators. */
  lemma HasTwinExactlyWhen(d: Desc)
    ensures (exists e :: Twin(d, e)) <==> |Atoms(d)| >= 3
    ensures d.labels != [] ==> |Atoms(d)| >= 3
  {
    LabelledHasThree(d);
    if d.labels != [] {
      BareKey(Key(d));
      assert Twin(d, Desc(Key(d), []));
    } else if |Atoms(d)| >= 3 {
      var atoms := Atoms(d);
      SplitOfJoin(Fields(d), KEY_SEP);
      JoinSplit(Key(d), KEY_SEP);
      OneLabelKey(atoms[0], atoms[1], Join(atoms[2..], KEY_SEP));
      assert atoms[1..][1..] == atoms[2..];
      assert Twin(d, Desc(atoms[0], [Label(atoms[1], Join(atoms[2..], KEY_SEP))]));
    } else {
      forall e ensures !Twin(d, e) {
        KeysAgreeIffAtomsAgree(d, e);
        LabelledHasThree(e);
        BareKey(d.name);
        BareKey(e.name);
      }
    }
  }

  lemma LabelledHasThree(d: Desc)
    ensures d.labels != [] ==> |Atoms(d)| >= 3
  {
    LabelFieldsCount(d.labels);
    SplitAllCount(Fields(d), KEY_SEP);
  }

  /** The labels that spell out an even number of parts, two by two. */
  function Paired(parts: seq<string>): seq<Label>
    requires |parts| % 2 == 0
  {
    if parts == [] then [] else [Label(parts[0], parts[1])] + Paired(parts[2..])
  }

  lemma {:induction false} PairedFields(parts: seq<string>)
    requires |parts| % 2 == 0
    ensures LabelFields(Paired(parts)) == parts
  {
    if parts != [] {
      PairedFields(parts[2..]);
      assert parts == [parts[0], parts[1]] + parts[2..];
    }
  }

  /** A label set that holds a separator takes the key of a separator-free one exactly when its parts
      are odd in number, so that they spell a name and whole labels. */
  lemma TakesPlainKeyExactlyWhen(d: Desc)
    requires !Plain(d)
    ensures (exists e :: Plain(e) && Twin(d, e)) <==> |Atoms(d)| % 2 == 1
  {
    hide Atoms, Plain, Key;
    if |Atoms(d)| % 2 == 1 {
      var e := PlainSpelling(d);
      assert Plain(e) && Twin(d, e);
    }
    forall e | Plain(e) && Twin(d, e) ensures |Atoms(d)| % 2 == 1 {
      KeysAgreeIffAtomsAgree(d, e);
      PlainAtoms(e);
    }
  }

  lemma PlainAtoms(e: Desc)
    requires Plain(e)
    ensures Atoms(e) == Fields(e) && |Atoms(e)| % 2 == 1
  {
    SplitAllFree(Fields(e), KEY_SEP);
    LabelFieldsCount(e.labels);
  }

  /** The separator-free label set that an odd number of parts spells. */
  lemma PlainSpelling(d: Desc) returns (e: Desc)
    requires |Atoms(d)| % 2 == 1
    ensures Plain(e) && Key(e) == Key(d)
  {
    var atoms := Atoms(d);
    SplitOfJoin(Fields(d), KEY_SEP);
    JoinSplit(Key(d), KEY_SEP);
    e := Desc(atoms[0], Paired(atoms[1..]));
    PairedFields(atoms[1..]);
    assert Fields(e) == atoms;
  }

  /** The collision is real: one label whose value spells a second label. */
  lemma SeparatorInValueCollides()
    ensures var d := Desc("m", [Label("k", "v" + [KEY_SEP] + "k2" + [KEY_SEP] + "v2")]);
      var e := Desc("m", [Label("k", "v"), Label("k2", "v2")]);
      !Plain(d) && Plain(e) && Twin(d, e)
  {
    var value := "v" + [KEY_SEP] + "k2" + [KEY_SEP] + "v2";
    var d, e := Desc("m", [Label("k", value)]), Desc("m", [Label("k", "v"), Label("k2", "v2")]);
    var f := ["m", "k", "v", "k2", "v2"];
    assert e.labels[1..] == [Label("k2", "v2")] && e.labels[1..][1..] == [];
    assert LabelFields(e.labels[1..]) == ["k2", "v2"] + LabelFields([]);
    assert Fields(e) == f;
    assert f[1..] == ["k", "v", "k2", "v2"] && f[1..][1..] == ["v", "k2", "v2"];
    assert f[1..][1..][1..] == ["k2", "v2"] && ["k2", "v2"][1..] == ["v2"];
    assert Join(f[1..][1..], KEY_SEP) == "v" + [KEY_SEP] + ("k2" + [KEY_SEP] + "v2") == value;
    OneLabelKey("m", "k", value);
    assert LabelFields(d.labels) == ["k", value] + LabelFields([]);
    assert Fields(d)[2] == value && value[1] == KEY_SEP;
  }

  /** The table after a registration history, and what each registration was given. */
  function After(reqs: seq<Desc>, max: nat): Table {
    if reqs == [] then EMPTY
    else Interned(After(reqs[..|reqs| - 1], max), reqs[|reqs| - 1], max).0
  }

  function Given(reqs: seq<Desc>, max: nat, i: nat): Option<nat>
    requires i < |reqs|
  {
    Interned(After(reqs[..i], max), reqs[i], max).1
  }

  lemma {:induction false} HistoryConsistent(reqs: seq<Desc>, max: nat)
    ensures Consistent(After(reqs, max)) && |After(reqs, max).descs| <= max
  {
    if reqs != [] {
      HistoryConsistent(reqs[..|reqs| - 1], max);
    }
  }

  /** Slots are never reassigned: what registration `i` was given still names the same key later, and
      a registration that was refused left its key unregistered and the table full for good. */
  lemma {:induction false} GivenSticks(reqs: seq<Desc>, max: nat, i: nat)
    requires i < |reqs|
    ensures var t, g := After(reqs, max), Given(reqs, max, i);
      && (g.Some? ==> g.value < |t.descs| && Key(t.descs[g.value]) == Key(reqs[i]))
      && (g.None? ==> |t.descs| == max && Key(reqs[i]) !in t.index)
  {
    var n := |reqs| - 1;
    HistoryConsistent(reqs[..n], max);
    if i < n {
      assert reqs[..n][..i] == reqs[..i];
      GivenSticks(reqs[..n], max, i);
    }
  }

  /** Over every registration history: two registrations that got slots got the same one exactly when
      their separator-free parts agree (for separator-free sets: when they are equal), ids are dense and below the cap, and a known set resolves even at the cap. */
  lemma SameSlotIffSameAtoms(reqs: seq<Desc>, max: nat, i: nat, j: nat)
    requires i < |reqs| && j < |reqs|
    requires Given(reqs, max, i).Some? && Given(reqs, max, j).Some?
    ensures Given(reqs, max, i) == Given(reqs, max, j) <==> Atoms(reqs[i]) == Atoms(reqs[j])
    ensures Plain(reqs[i]) && Plain(reqs[j]) ==>
      (Given(reqs, max, i) == Given(reqs, max, j) <==> reqs[i] == reqs[j])
    ensures Given(reqs, max, i).value < max
    ensures Interned(After(reqs, max), reqs[i], max) == (After(reqs, max), Given(reqs, max, i))
  {
    HistoryConsistent(reqs, max);
    GivenSticks(reqs, max, i);
    GivenSticks(reqs, max, j);
    KeysAgreeIffAtomsAgree(reqs[i], reqs[j]);
    if Plain(reqs[i]) && Plain(reqs[j]) {
      KeyIdentifiesLabelSet(reqs[i], reqs[j]);
    }
  }
}
