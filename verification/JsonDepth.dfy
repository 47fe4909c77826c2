/** The nesting-depth scan that guards every JSON parse, against the depth of the value itself. */
module JsonDepth {
  import opened Base

  const QUOTE: Byte := '"' as int
  const BACKSLASH: Byte := '\\' as int
  const COMMA: Byte := ',' as int
  const COLON: Byte := ':' as int

  predicate Opening(b: Byte) {
    b == '{' as int || b == '[' as int
  }

  predicate Closing(b: Byte) {
    b == '}' as int || b == ']' as int
  }

  // ---- The scan ----

  datatype Scan = Exceeded | At(depth: nat, inString: bool, escaped: bool)

  function Step(st: Scan, b: Byte, max: nat): Scan {
    if st.Exceeded? then st
    else if st.inString then
      if st.escaped then st.(escaped := false)
      else if b == BACKSLASH then st.(escaped := true)
      else if b == QUOTE then st.(inString := false)
      else st
    else if b == QUOTE then st.(inString := true)
    else if Opening(b) then
      if st.depth + 1 > max then Exceeded else st.(depth := st.depth + 1)
    else if Closing(b) then st.(depth := if st.depth == 0 then 0 else st.depth - 1)
    else st
  }

  function ScanAll(st: Scan, s: seq<Byte>, max: nat): Scan
    decreases |s|
  {
    if s == [] then st else ScanAll(Step(st, s[0], max), s[1..], max)
  }

  method ExceedsMaxDepth(bytes: seq<Byte>, max: nat) returns (r: bool)
    ensures r <==> ScanAll(At(0, false, false), bytes, max).Exceeded?
  {
    var depth: nat, inString, escaped := 0, false, false;
    for i := 0 to |bytes|
      invariant ScanAll(At(0, false, false), bytes, max) == ScanAll(At(depth, inString, escaped), bytes[i..], max)
    {
      var b := bytes[i];
      assert bytes[i..][1..] == bytes[i + 1..];
      if inString {
        if escaped {
          escaped := false;
        } else if b == BACKSLASH {
          escaped := true;
        } else if b == QUOTE {
          inString := false;
        }
      } else if b == QUOTE {
        inString := true;
      } else if Opening(b) {
        depth := depth + 1;
        if depth > max {
          ExceededStays(bytes[i + 1..], max);
          return true;
        }
      } else if Closing(b) {
        depth := if depth == 0 then 0 else depth - 1;
      }
    }
    r := false;
  }

  lemma {:induction false} ExceededStays(s: seq<Byte>, max: nat)
    ensures ScanAll(Exceeded, s, max) == Exceeded
    decreases |s|
  {
    if s != [] {
      ExceededStays(s[1..], max);
    }
  }

  // ---- JSON text, as a value and every choice its writer had ----

  /** One character of a string body: itself, or a backslash and the byte it escapes. The digits of a
      `\u` escape are plain characters after it. */
  datatype Piece = Plain(b: Byte) | Escaped(b: Byte)

  datatype Json =
    | Scalar(text: seq<Byte>)
    | Str(body: seq<Piece>)
    | Arr(gap: seq<Byte>, items: seq<Item>)
    | Obj(gap: seq<Byte>, members: seq<Member>)

  /** A value and the whitespace around it. */
  datatype Item = Item(before: seq<Byte>, value: Json, after: seq<Byte>)
  datatype Member = Member(before: seq<Byte>, name: seq<Piece>, after: seq<Byte>, item: Item)

  predicate Blank(s: seq<Byte>) {
    forall i :: 0 <= i < |s| ==> s[i] == 9 || s[i] == 10 || s[i] == 13 || s[i] == 32
  }

  /** A number or literal: no quote and no bracket. */
  predicate Flat(s: seq<Byte>) {
    forall i :: 0 <= i < |s| ==> s[i] != QUOTE && !Opening(s[i]) && !Closing(s[i])
  }

  predicate BodyOk(body: seq<Piece>) {
    forall i :: 0 <= i < |body| && body[i].Plain? ==> body[i].b != QUOTE && body[i].b != BACKSLASH
  }

  predicate WellFormed(j: Json) {
    match j
    case Scalar(text) => Flat(text)
    case Str(body) => BodyOk(body)
    case Arr(gap, items) => Blank(gap) && forall i :: 0 <= i < |items| ==> ItemOk(items[i])
    case Obj(gap, members) => Blank(gap) && forall i :: 0 <= i < |members| ==> MemberOk(members[i])
  }

  predicate ItemOk(i: Item) {
    Blank(i.before) && WellFormed(i.value) && Blank(i.after)
  }

  predicate MemberOk(m: Member) {
    Blank(m.before) && BodyOk(m.name) && Blank(m.after) && ItemOk(m.item)
  }

  function PrintBody(body: seq<Piece>): seq<Byte> {
    if body == [] then []
    else (if body[0].Plain? then [body[0].b] else [BACKSLASH, body[0].b]) + PrintBody(body[1..])
  }

  function PrintString(body: seq<Piece>): seq<Byte> {
    [QUOTE] + PrintBody(body) + [QUOTE]
  }

  function Print(j: Json): seq<Byte> {
    match j
    case Scalar(text) => text
    case Str(body) => PrintString(body)
    case Arr(gap, items) => ['[' as int] + gap + PrintItems(items) + [']' as int]
    case Obj(gap, members) => ['{' as int] + gap + PrintMembers(members) + ['}' as int]
  }

  function PrintItem(i: Item): seq<Byte> {
    i.before + Print(i.value) + i.after
  }

  function PrintItems(items: seq<Item>): seq<Byte> {
    if items == [] then []
    else PrintItem(items[0]) + (if |items| > 1 then [COMMA] else []) + PrintItems(items[1..])
  }

  function PrintMember(m: Member): seq<Byte> {
    m.before + PrintString(m.name) + m.after + [COLON] + PrintItem(m.item)
  }

  function PrintMembers(members: seq<Member>): seq<Byte> {
    if members == [] then []
    else PrintMember(members[0]) + (if |members| > 1 then [COMMA] else []) + PrintMembers(members[1..])
  }

  function Max(a: nat, b: nat): nat {
    if a < b then b else a
  }

  /** How deeply arrays and objects nest in the value; what strings contain does not count. */
  function Depth(j: Json): nat {
    match j
    case Scalar(_) => 0
    case Str(_) => 0
    case Arr(_, items) => 1 + ItemsDepth(items)
    case Obj(_, members) => 1 + MembersDepth(members)
  }

  function ItemsDepth(items: seq<Item>): nat {
    if items == [] then 0 else Max(Depth(items[0].value), ItemsDepth(items[1..]))
  }

  function MembersDepth(members: seq<Member>): nat {
    if members == [] then 0 else Max(Depth(members[0].item.value), MembersDepth(members[1..]))
  }

  // ---- The scan computes it ----

  lemma {:induction false} ScanAppend(st: Scan, a: seq<Byte>, b: seq<Byte>, max: nat)
    ensures ScanAll(st, a + b, max) == ScanAll(ScanAll(st, a, max), b, max)
    decreases |a|
  {
    if a == [] {
      assert a + b == b;
    } else {
      assert (a + b)[1..] == a[1..] + b;
      ScanAppend(Step(st, a[0], max), a[1..], b, max);
    }
  }

  lemma {:induction false} ScanFlat(d: nat, s: seq<Byte>, max: nat)
    requires Flat(s)
    ensures ScanAll(At(d, false, false), s, max) == At(d, false, false)
    decreases |s|
  {
    if s != [] {
      ScanFlat(d, s[1..], max);
    }
  }

  lemma {:induction false} ScanBody(d: nat, body: seq<Piece>, max: nat)
    requires BodyOk(body)
    ensures ScanAll(At(d, true, false), PrintBody(body), max) == At(d, true, false)
    decreases |body|
  {
    if body != [] {
      var first, rest := if body[0].Plain? then [body[0].b] else [BACKSLASH, body[0].b], PrintBody(body[1..]);
      ScanAppend(At(d, true, false), first, rest, max);
      assert first[1..] == if body[0].Plain? then [] else [body[0].b];
      assert body[0].Escaped? ==> first[1..][1..] == [];
      ScanBody(d, body[1..], max);
    }
  }

  lemma ScanOne(st: Scan, b: Byte, max: nat)
    ensures ScanAll(st, [b], max) == Step(st, b, max)
  {
    assert [b][1..] == [];
  }

  /** A string leaves the scan where it was, whatever brackets and quotes it escapes. */
  lemma ScanString(d: nat, body: seq<Piece>, max: nat)
    requires BodyOk(body)
    ensures ScanAll(At(d, false, false), PrintString(body), max) == At(d, false, false)
  {
    var st := At(d, false, false);
    ScanOne(st, QUOTE, max);
    ScanAppend(st, [QUOTE], PrintBody(body), max);
    ScanBody(d, body, max);
    ScanAppend(st, [QUOTE] + PrintBody(body), [QUOTE], max);
    ScanOne(At(d, true, false), QUOTE, max);
  }

  /** Where the scan stands after text that opens and closes `deep` levels from level `d`. */
  function Passed(d: nat, deep: nat, max: nat): Scan {
    if d + deep > max then Exceeded else At(d, false, false)
  }

  /** Two such texts in a row. */
  lemma ScanBoth(d: nat, a: seq<Byte>, deepA: nat, b: seq<Byte>, deepB: nat, max: nat)
    requires ScanAll(At(d, false, false), a, max) == Passed(d, deepA, max)
    requires ScanAll(At(d, false, false), b, max) == Passed(d, deepB, max)
    ensures ScanAll(At(d, false, false), a + b, max) == Passed(d, Max(deepA, deepB), max)
  {
    ScanAppend(At(d, false, false), a, b, max);
    ExceededStays(b, max);
  }

  lemma ScanEmpty(d: nat, s: seq<Byte>, max: nat)
    requires d <= max && (Blank(s) || s == [COMMA] || s == [COLON])
    ensures ScanAll(At(d, false, false), s, max) == Passed(d, 0, max)
  {
    ScanFlat(d, s, max);
  }

  lemma ScanBracketed(d: nat, open: Byte, gap: seq<Byte>, inner: seq<Byte>, deep: nat, close: Byte, max: nat)
    requires d <= max && Opening(open) && Closing(close) && Blank(gap)
    requires d < max ==> ScanAll(At(d + 1, false, false), inner, max) == Passed(d + 1, deep, max)
    ensures ScanAll(At(d, false, false), [open] + gap + inner + [close], max) == Passed(d, 1 + deep, max)
  {
    var st := At(d, false, false);
    ScanOne(st, open, max);
    ScanAppend(st, [open], gap, max);
    ScanAppend(st, [open] + gap, inner, max);
    ScanAppend(st, [open] + gap + inner, [close], max);
    if d + 1 > max {
      ExceededStays(gap, max);
      ExceededStays(inner, max);
      ExceededStays([close], max);
    } else {
      ScanFlat(d + 1, gap, max);
      ScanOne(At(d + 1, false, false), close, max);
      ExceededStays([close], max);
    }
  }

  lemma {:induction false} ScanValue(d: nat, j: Json, max: nat)
    requires d <= max && WellFormed(j)
    ensures ScanAll(At(d, false, false), Print(j), max) == Passed(d, Depth(j), max)
    decreases j, 1
  {
    match j {
      case Scalar(text) => ScanFlat(d, text, max);
      case Str(body) => ScanString(d, body, max);
      case Arr(gap, items) =>
        if d < max {
          ScanItems(d + 1, items, max);
        }
        ScanBracketed(d, '[' as int, gap, PrintItems(items), ItemsDepth(items), ']' as int, max);
      case Obj(gap, members) =>
        if d < max {
          ScanMembers(d + 1, members, max);
        }
        ScanBracketed(d, '{' as int, gap, PrintMembers(members), MembersDepth(members), '}' as int, max);
    }
  }

  lemma {:induction false} ScanItem(d: nat, i: Item, max: nat)
    requires d <= max && ItemOk(i)
    ensures ScanAll(At(d, false, false), PrintItem(i), max) == Passed(d, Depth(i.value), max)
    decreases i, 2
  {
    ScanEmpty(d, i.before, max);
    ScanValue(d, i.value, max);
    ScanEmpty(d, i.after, max);
    ScanBoth(d, i.before, 0, Print(i.value), Depth(i.value), max);
    ScanBoth(d, i.before + Print(i.value), Depth(i.value), i.after, 0, max);
  }

  lemma {:induction false} ScanItems(d: nat, items: seq<Item>, max: nat)
    requires d <= max && forall i :: 0 <= i < |items| ==> ItemOk(items[i])
    ensures ScanAll(At(d, false, false), PrintItems(items), max) == Passed(d, ItemsDepth(items), max)
    decreases items, 3
  {
    if items != [] {
      var sep := if |items| > 1 then [COMMA] else [];
      ScanItem(d, items[0], max);
      ScanEmpty(d, sep, max);
      ScanItems(d, items[1..], max);
      var deep := Depth(items[0].value);
      ScanBoth(d, PrintItem(items[0]), deep, sep, 0, max);
      ScanBoth(d, PrintItem(items[0]) + sep, deep, PrintItems(items[1..]), ItemsDepth(items[1..]), max);
    }
  }

  lemma {:induction false} ScanMember(d: nat, m: Member, max: nat)
    requires d <= max && MemberOk(m)
    ensures ScanAll(At(d, false, false), PrintMember(m), max) == Passed(d, Depth(m.item.value), max)
    decreases m, 3
  {
    ScanEmpty(d, m.before, max);
    ScanString(d, m.name, max);
    ScanEmpty(d, m.after, max);
    ScanEmpty(d, [COLON], max);
    ScanItem(d, m.item, max);
    ScanBoth(d, m.before, 0, PrintString(m.name), 0, max);
    ScanBoth(d, m.before + PrintString(m.name), 0, m.after, 0, max);
    ScanBoth(d, m.before + PrintString(m.name) + m.after, 0, [COLON], 0, max);
    ScanBoth(d, m.before + PrintString(m.name) + m.after + [COLON], 0, PrintItem(m.item), Depth(m.item.value), max);
  }

  lemma {:induction false} ScanMembers(d: nat, members: seq<Member>, max: nat)
    requires d <= max && forall i :: 0 <= i < |members| ==> MemberOk(members[i])
    ensures ScanAll(At(d, false, false), PrintMembers(members), max) == Passed(d, MembersDepth(members), max)
    decreases members, 4
  {
    if members != [] {
      var sep := if |members| > 1 then [COMMA] else [];
      ScanMember(d, members[0], max);
      ScanEmpty(d, sep, max);
      ScanMembers(d, members[1..], max);
      var deep := Depth(members[0].item.value);
      ScanBoth(d, PrintMember(members[0]), deep, sep, 0, max);
      ScanBoth(d, PrintMember(members[0]) + sep, deep, PrintMembers(members[1..]), MembersDepth(members[1..]), max);
    }
  }

  /** For every JSON text, the scan reports exceeded exactly when the value nests deeper than `max`. */
  lemma ScanMeasuresDepth(document: Item, max: nat)
    requires ItemOk(document)
    ensures ScanAll(At(0, false, false), PrintItem(document), max).Exceeded? <==> Depth(document.value) > max
  {
    ScanItem(0, document, max);
  }

  // ---- Text that is not JSON ----

  /** Closing brackets with nothing open are ignored: they buy no extra depth. */
  lemma {:induction false} StrayClosers(closers: seq<Byte>, s: seq<Byte>, max: nat)
    requires forall i :: 0 <= i < |closers| ==> Closing(closers[i])
    ensures ScanAll(At(0, false, false), closers + s, max) == ScanAll(At(0, false, false), s, max)
    decreases |closers|
  {
    if closers == [] {
      assert closers + s == s;
    } else {
      assert (closers + s)[1..] == closers[1..] + s;
      StrayClosers(closers[1..], s, max);
    }
  }

  /** Opening brackets alone exceed the limit exactly when there are more of them than it allows, whatever
      follows. */
  lemma {:induction false} ManyOpeners(openers: seq<Byte>, d: nat, s: seq<Byte>, max: nat)
    requires d <= max && forall i :: 0 <= i < |openers| ==> Opening(openers[i])
    ensures d + |openers| > max ==> ScanAll(At(d, false, false), openers + s, max).Exceeded?
    ensures d + |openers| <= max ==>
      ScanAll(At(d, false, false), openers + s, max) == ScanAll(At(d + |openers|, false, false), s, max)
    decreases |openers|
  {
    if openers == [] {
      assert openers + s == s;
    } else {
      assert (openers + s)[1..] == openers[1..] + s;
      if d == max {
        ExceededStays(openers[1..] + s, max);
      } else {
        ManyOpeners(openers[1..], d + 1, s, max);
      }
    }
  }
}
