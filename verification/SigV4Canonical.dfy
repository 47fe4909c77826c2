/** What SigV4 signs of a header list: lower-cased names, space-normalized values, sorted by name. */
module SigV4Canonical {
  import opened Text

  datatype Header = Header(name: string, value: string)

  // ---- Names ----

  function LowerChar(c: char): char {
    if 'A' <= c <= 'Z' then (c as int + 32) as char else c
  }

  function Lower(s: string): (r: string)
    ensures |r| == |s|
  {
    seq(|s|, i requires 0 <= i < |s| => LowerChar(s[i]))
  }

  lemma LowerFacts(s: string)
    ensures Lower(Lower(s)) == Lower(s)
    ensures ';' in Lower(s) <==> ';' in s
  {
    assert forall i :: 0 <= i < |s| ==> (Lower(s)[i] == ';' <==> s[i] == ';');
    if ';' in s {
      var i :| 0 <= i < |s| && s[i] == ';';
      assert Lower(s)[i] == ';';
    }
  }

  predicate Ascii(s: string) {
    forall i :: 0 <= i < |s| ==> s[i] as int < 128
  }

  /** What is relied on of the signer's Unicode lower-casing: on ASCII text it is `Lower`, its results
      stay as they are under both, and it neither adds nor removes a `;`. */
  ghost predicate Lowercasing(fold: string -> string) {
    forall s ::
      && (Ascii(s) ==> fold(s) == Lower(s))
      && fold(fold(s)) == fold(s) && Lower(fold(s)) == fold(s)
      && (';' in fold(s) <==> ';' in s)
  }

  lemma FoldFacts(fold: string -> string, s: string)
    requires Lowercasing(fold)
    ensures Ascii(s) ==> fold(s) == Lower(s)
    ensures fold(fold(s)) == fold(s) == Lower(fold(s)) && (';' in fold(s) <==> ';' in s)
  {
  }

  lemma LowerIsLowercasing()
    ensures Lowercasing(Lower)
  {
    forall s ensures Lower(Lower(s)) == Lower(s) && (';' in Lower(s) <==> ';' in s) {
      LowerFacts(s);
    }
  }

  /** Dictionary order, character by character. */
  predicate Leq(a: string, b: string) {
    a == [] || (b != [] && (a[0] < b[0] || (a[0] == b[0] && Leq(a[1..], b[1..]))))
  }

  lemma {:induction false} LeqTotal(a: string, b: string)
    ensures Leq(a, b) || Leq(b, a)
  {
    if a != [] && b != [] && a[0] == b[0] {
      LeqTotal(a[1..], b[1..]);
    }
  }

  lemma {:induction false} LeqTransitive(a: string, b: string, c: string)
    requires Leq(a, b) && Leq(b, c)
    ensures Leq(a, c)
  {
    if a != [] && a[0] == b[0] && b[0] == c[0] {
      LeqTransitive(a[1..], b[1..], c[1..]);
    }
  }

  /** The order is that of the first character that differs, a proper prefix coming first. */
  lemma {:induction false} LeqMeaning(a: string, b: string)
    ensures Leq(a, b) <==>
      || a <= b
      || exists i :: 0 <= i < |a| && i < |b| && a[..i] == b[..i] && a[i] < b[i]
  {
    if a != [] && b != [] && a[0] == b[0] {
      var x, y := a[1..], b[1..];
      LeqMeaning(x, y);
      assert a <= b <==> x <= y;
      forall i | 0 <= i < |x| && i < |y| && x[..i] == y[..i] && x[i] < y[i]
        ensures 0 <= i + 1 < |a| && i + 1 < |b| && a[..i + 1] == b[..i + 1] && a[i + 1] < b[i + 1]
      {
        assert a[..i + 1] == [a[0]] + x[..i] && b[..i + 1] == [b[0]] + y[..i];
      }
      forall i | 0 < i < |a| && i < |b| && a[..i] == b[..i] && a[i] < b[i]
        ensures 0 <= i - 1 < |x| && i - 1 < |y| && x[..i - 1] == y[..i - 1] && x[i - 1] < y[i - 1]
      {
        assert x[..i - 1] == a[..i][1..] && y[..i - 1] == b[..i][1..];
      }
    } else if a != [] && b != [] {
      if a[0] < b[0] {
        assert a[..0] == b[..0];
      }
      forall i | 0 < i < |a| && i < |b| ensures a[..i] != b[..i] {
        assert a[..i][0] == a[0] && b[..i][0] == b[0];
      }
    }
  }

  /** Lower-casing moves the 26 ASCII capitals and nothing else. */
  lemma LowerMeaning(s: string, i: nat)
    requires i < |s|
    ensures Lower(s)[i] as int == s[i] as int + if 0x41 <= s[i] as int <= 0x5A then 0x20 else 0
  {
  }

  // ---- Values ----

  /** The maximal runs of non-space characters; only the ASCII space separates. */
  function Words(v: string): (w: seq<string>)
    ensures forall i :: 0 <= i < |w| ==> w[i] != "" && ' ' !in w[i]
    ensures v != "" && v[|v| - 1] != ' ' ==> w != []
  {
    if v == "" then []
    else
      var init, c := v[..|v| - 1], v[|v| - 1];
      var before := Words(init);
      if c == ' ' then before
      else if init == "" || init[|init| - 1] == ' ' then before + [[c]]
      else before[..|before| - 1] + [before[|before| - 1] + [c]]
  }

  /** The canonical value: the words, one space apart. */
  function Canonical(v: string): string {
    Join(Words(v), ' ')
  }

  lemma CanonicalSnoc(v: string, c: char)
    ensures c == ' ' ==> Canonical(v + [c]) == Canonical(v)
    ensures c != ' ' && (v == "" || v[|v| - 1] == ' ') ==>
      Canonical(v + [c]) == Canonical(v) + (if Canonical(v) == "" then "" else " ") + [c]
    ensures c != ' ' && v != "" && v[|v| - 1] != ' ' ==> Canonical(v + [c]) == Canonical(v) + [c]
  {
    assert (v + [c])[..|v|] == v;
    var w := Words(v);
    if c != ' ' && (v == "" || v[|v| - 1] == ' ') {
      if w != [] {
        JoinSnoc(w, [c], ' ');
        JoinNonEmpty(w);
      }
    } else if c != ' ' {
      var init, last := w[..|w| - 1], w[|w| - 1];
      assert w == init + [last];
      if init != [] {
        JoinSnoc(init, last, ' ');
        JoinSnoc(init, last + [c], ' ');
      }
    }
  }

  lemma JoinNonEmpty(w: seq<string>)
    requires w != [] && w[0] != ""
    ensures Join(w, ' ') != ""
  {
  }

  method CanonicalizeHeaderValue(v: string) returns (out: string)
    ensures out == Canonical(v)
  {
    out := "";
    var prevSpace := false;
    for i := 0 to |v|
      invariant out == Canonical(v[..i])
      invariant prevSpace <==> i > 0 && v[i - 1] == ' '
      invariant i == 0 ==> out == ""
    {
      var ch := v[i];
      assert v[..i + 1] == v[..i] + [ch];
      CanonicalSnoc(v[..i], ch);
      if ch == ' ' {
        prevSpace := true;
      } else {
        if prevSpace && out != "" {
          out := out + " ";
        }
        prevSpace := false;
        out := out + [ch];
      }
    }
    assert v[..|v|] == v;
  }

  function Spaces(n: nat): string {
    seq(n, _ => ' ')
  }

  lemma {:induction false} TrailingSpaces(v: string, n: nat)
    ensures Words(v + Spaces(n)) == Words(v)
  {
    if n == 0 {
      assert v + Spaces(0) == v;
    } else {
      assert (v + Spaces(n))[..|v| + n - 1] == v + Spaces(n - 1);
      TrailingSpaces(v, n - 1);
    }
  }

  lemma {:induction false} LeadingSpaces(n: nat, v: string)
    ensures Words(Spaces(n) + v) == Words(v)
  {
    var s := Spaces(n) + v;
    if v == "" {
      assert s == "" + Spaces(n);
      TrailingSpaces("", n);
    } else {
      assert s[..|s| - 1] == Spaces(n) + v[..|v| - 1];
      LeadingSpaces(n, v[..|v| - 1]);
    }
  }

  /** Space padding on either side of a value is not signed. */
  lemma PaddingIsIgnored(a: nat, v: string, b: nat)
    ensures Canonical(Spaces(a) + v + Spaces(b)) == Canonical(v)
  {
    TrailingSpaces(Spaces(a) + v, b);
    LeadingSpaces(a, v);
  }

  /** Words with the given number of spaces before each. */
  function SpacedText(words: seq<string>, gaps: seq<nat>): string
    requires |gaps| == |words|
  {
    if words == [] then ""
    else
      var n := |words| - 1;
      SpacedText(words[..n], gaps[..n]) + Spaces(gaps[n]) + words[n]
  }

  predicate Word(w: string) {
    w != "" && ' ' !in w
  }

  lemma {:induction false} WordsAddWord(v: string, w: string)
    requires Word(w) && (v == "" || v[|v| - 1] == ' ')
    ensures Words(v + w) == Words(v) + [w]
  {
    hide Words;
    var n := |w| - 1;
    assert v + w == (v + w[..n]) + [w[n]];
    WordsSnoc(v + w[..n], w[n]);
    if n > 0 {
      WordsAddWord(v, w[..n]);
      assert w == w[..n] + [w[n]];
    } else {
      assert v + w[..n] == v && w == [w[0]];
    }
  }

  lemma WordsSnoc(v: string, c: char)
    ensures Words(v + [c]) ==
      var before := Words(v);
      if c == ' ' then before
      else if v == "" || v[|v| - 1] == ' ' then before + [[c]]
      else before[..|before| - 1] + [before[|before| - 1] + [c]]
  {
    assert (v + [c])[..|v|] == v;
  }

  lemma {:induction false} WordsOfSpaced(words: seq<string>, gaps: seq<nat>)
    requires |gaps| == |words| && forall i :: 0 <= i < |words| ==> Word(words[i]) && (i > 0 ==> gaps[i] > 0)
    ensures Words(SpacedText(words, gaps)) == words
  {
    hide Words, Spaces;
    if words == [] {
      NoWords();
    } else {
      var n := |words| - 1;
      var before := SpacedText(words[..n], gaps[..n]);
      WordsOfSpaced(words[..n], gaps[..n]);
      TrailingSpaces(before, gaps[n]);
      EndsInSpace(before, gaps[n]);
      WordsAddWord(before + Spaces(gaps[n]), words[n]);
      assert words == words[..n] + [words[n]];
    }
  }

  lemma NoWords()
    ensures Words("") == []
  {
  }

  lemma EndsInSpace(v: string, n: nat)
    requires n == 0 ==> v == ""
    ensures var s := v + Spaces(n); s == "" || s[|s| - 1] == ' '
  {
  }

  /** Whatever the runs of spaces between, before and after them, the words of a value are signed one
      space apart; only the ASCII space separates them. */
  lemma SpacingIsCollapsed(words: seq<string>, gaps: seq<nat>, trail: nat)
    requires |gaps| == |words| && forall i :: 0 <= i < |words| ==> Word(words[i]) && (i > 0 ==> gaps[i] > 0)
    ensures Canonical(SpacedText(words, gaps) + Spaces(trail)) == Join(words, ' ')
  {
    TrailingSpaces(SpacedText(words, gaps), trail);
    WordsOfSpaced(words, gaps);
  }

  // ---- Order ----

  predicate SortedByName(h: seq<Header>) {
    forall i, j :: 0 <= i < j < |h| ==> Leq(h[i].name, h[j].name)
  }

  /** Put a header after every header whose name is not greater. */
  function Insert(h: seq<Header>, x: Header): seq<Header> {
    if h == [] || Leq(h[|h| - 1].name, x.name) then h + [x]
    else Insert(h[..|h| - 1], x) + [h[|h| - 1]]
  }

  /** The stable sort of a header list by name. */
  function Sorted(h: seq<Header>): seq<Header> {
    if h == [] then [] else Insert(Sorted(h[..|h| - 1]), h[|h| - 1])
  }

  lemma {:induction false} InsertSorts(h: seq<Header>, x: Header)
    requires SortedByName(h)
    ensures SortedByName(Insert(h, x)) && multiset(Insert(h, x)) == multiset(h) + multiset{x}
  {
    if h == [] {
      assert h + [x] == [x];
    } else {
      var n := |h| - 1;
      var last := h[n];
      assert h == h[..n] + [last];
      if Leq(last.name, x.name) {
        forall i | 0 <= i < |h| ensures Leq(h[i].name, x.name) {
          if i < n {
            LeqTransitive(h[i].name, last.name, x.name);
          }
        }
      } else {
        LeqTotal(last.name, x.name);
        InsertSorts(h[..n], x);
        var r := Insert(h[..n], x);
        forall i | 0 <= i < |r| ensures Leq(r[i].name, last.name) {
          assert r[i] in multiset(r);
          assert r[i] in multiset(h[..n]) || r[i] == x;
        }
      }
    }
  }

  lemma EmptySorted()
    ensures SortedByName([])
  {
  }

  /** Sorting sorts, and loses or invents nothing. */
  lemma {:induction false} SortSorts(h: seq<Header>)
    ensures SortedByName(Sorted(h)) && multiset(Sorted(h)) == multiset(h)
  {
    hide SortedByName, Insert, Leq;
    if h != [] {
      var init, last := h[..|h| - 1], h[|h| - 1];
      SortSorts(init);
      InsertSorts(Sorted(init), last);
      assert h == init + [last];
    } else {
      EmptySorted();
    }
  }

  /** The headers of one name, in order. */
  function OfName(h: seq<Header>, name: string): seq<Header> {
    if h == [] then []
    else
      var before, last := OfName(h[..|h| - 1], name), h[|h| - 1];
      if last.name == name then before + [last] else before
  }

  lemma OfNameSnoc(h: seq<Header>, x: Header, name: string)
    ensures OfName(h + [x], name) == if x.name == name then OfName(h, name) + [x] else OfName(h, name)
  {
    assert (h + [x])[..|h|] == h;
  }

  lemma {:induction false} LeqReflexive(a: string)
    ensures Leq(a, a)
  {
    if a != [] {
      LeqReflexive(a[1..]);
    }
  }

  lemma {:induction false} InsertStable(h: seq<Header>, x: Header, name: string)
    ensures OfName(Insert(h, x), name) == OfName(h + [x], name)
  {
    hide Leq;
    OfNameSnoc(h, x, name);
    if h != [] && !Leq(h[|h| - 1].name, x.name) {
      var init, last := h[..|h| - 1], h[|h| - 1];
      InsertStable(init, x, name);
      OfNameSnoc(init, x, name);
      OfNameSnoc(Insert(init, x), last, name);
      LeqReflexive(x.name);
    }
  }

  /** Headers of one name keep their order: the sort is stable. */
  lemma {:induction false} SortIsStable(h: seq<Header>, name: string)
    ensures OfName(Sorted(h), name) == OfName(h, name)
  {
    hide Insert;
    if h != [] {
      var init, last := h[..|h| - 1], h[|h| - 1];
      SortIsStable(init, name);
      InsertStable(Sorted(init), last, name);
      OfNameSnoc(Sorted(init), last, name);
    }
  }

  /** A sorted list is left as it is. */
  lemma {:induction false} SortIdempotent(h: seq<Header>)
    requires SortedByName(h)
    ensures Sorted(h) == h
  {
    if h != [] {
      var n := |h| - 1;
      SortIdempotent(h[..n]);
      assert h == h[..n] + [h[n]];
    }
  }

  /** A header as it is signed; `fold` is the signer's lower-casing. */
  function Folded(h: Header, fold: string -> string): Header {
    Header(fold(h.name), Canonical(h.value))
  }

  function FoldedAll(hs: seq<Header>, fold: string -> string): (r: seq<Header>)
    ensures |r| == |hs| && forall i :: 0 <= i < |hs| ==> r[i] == Folded(hs[i], fold)
  {
    seq(|hs|, i requires 0 <= i < |hs| => Folded(hs[i], fold))
  }

  /** The header list as it is signed. */
  function Signed(hs: seq<Header>, fold: string -> string): seq<Header> {
    Sorted(FoldedAll(hs, fold))
  }

  function Names(hs: seq<Header>): (r: seq<string>)
    ensures |r| == |hs| && forall i :: 0 <= i < |hs| ==> r[i] == hs[i].name
  {
    seq(|hs|, i requires 0 <= i < |hs| => hs[i].name)
  }

  /** Each signed header is some given header, folded; and the list is as long, and sorted. */
  lemma SignedFrom(hs: seq<Header>, fold: string -> string)
    ensures |Signed(hs, fold)| == |hs| && SortedByName(Signed(hs, fold))
    ensures forall i :: 0 <= i < |hs| ==> exists j :: 0 <= j < |hs| && Signed(hs, fold)[i] == Folded(hs[j], fold)
    ensures forall j :: 0 <= j < |hs| ==> Folded(hs[j], fold) in Signed(hs, fold)
  {
    var f, s := FoldedAll(hs, fold), Signed(hs, fold);
    SortSorts(f);
    assert |multiset(s)| == |multiset(f)|;
    forall i | 0 <= i < |s| ensures exists j :: 0 <= j < |hs| && s[i] == Folded(hs[j], fold) {
      assert s[i] in multiset(s);
      assert s[i] in f;
      var j :| 0 <= j < |f| && f[j] == s[i];
    }
    forall j | 0 <= j < |hs| ensures Folded(hs[j], fold) in s {
      assert f[j] in multiset(f);
    }
  }
}
