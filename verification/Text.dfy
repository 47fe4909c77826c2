/** Joining and splitting text on one separator character, as the gateway does for intern keys,
    signed-header lists, credentials and bucket ids. */
module Text {
  function IndexOf(s: string, c: char): (i: nat)
    ensures i <= |s| && c !in s[..i]
    ensures i < |s| ==> s[i] == c
  {
    if s == [] || s[0] == c then 0
    else
      var i := 1 + IndexOf(s[1..], c);
      assert s[..i] == [s[0]] + s[1..][..i - 1];
      i
  }

  function Split(s: string, c: char): (parts: seq<string>)
    ensures parts != []
    decreases |s|
  {
    var i := IndexOf(s, c);
    if i == |s| then [s] else [s[..i]] + Split(s[i + 1..], c)
  }

  function Join(parts: seq<string>, c: char): string {
    if parts == [] then ""
    else if |parts| == 1 then parts[0]
    else parts[0] + [c] + Join(parts[1..], c)
  }

  lemma {:induction false} JoinSnoc(parts: seq<string>, p: string, c: char)
    requires parts != []
    ensures Join(parts + [p], c) == Join(parts, c) + [c] + p
  {
    if |parts| > 1 {
      assert (parts + [p])[1..] == parts[1..] + [p];
      JoinSnoc(parts[1..], p, c);
    } else {
      assert (parts + [p])[1..] == [p];
    }
  }

  predicate Free(parts: seq<string>, c: char) {
    forall i :: 0 <= i < |parts| ==> c !in parts[i]
  }

  /** The first separator of `a + [c] + b` is the one after `a`, when `a` has none. */
  lemma FirstSeparator(a: string, c: char, b: string)
    requires c !in a
    ensures IndexOf(a + [c] + b, c) == |a|
  {
    var s := a + [c] + b;
    assert s[|a|] == c;
    assert forall k :: 0 <= k < |a| ==> s[k] == a[k];
    assert s[..|a|] == a;
  }

  lemma {:induction false} SplitJoin(parts: seq<string>, c: char)
    requires parts != [] && Free(parts, c)
    ensures Split(Join(parts, c), c) == parts
  {
    if |parts| > 1 {
      var rest := Join(parts[1..], c);
      FirstSeparator(parts[0], c, rest);
      var s := parts[0] + [c] + rest;
      assert s[..|parts[0]|] == parts[0] && s[|parts[0]| + 1..] == rest;
      SplitJoin(parts[1..], c);
    } else {
      assert parts[0][..] == parts[0];
    }
  }

  lemma SplitAt(head: string, c: char, tail: string)
    requires c !in head
    ensures Split(head + [c] + tail, c) == [head] + Split(tail, c)
  {
    var s := head + [c] + tail;
    FirstSeparator(head, c, tail);
    assert s[..|head|] == head && s[|head| + 1..] == tail;
  }

  /** Splitting a joined pair splits both sides, whatever separators they hold themselves. */
  lemma {:induction false} SplitBoth(a: string, c: char, b: string)
    ensures Split(a + [c] + b, c) == Split(a, c) + Split(b, c)
    decreases |a|
  {
    var i := IndexOf(a, c);
    var head := a[..i];
    if i == |a| {
      assert head == a;
      SplitAt(a, c, b);
    } else {
      var tail := a[i + 1..];
      assert a + [c] + b == head + [c] + (tail + [c] + b);
      SplitAt(head, c, tail + [c] + b);
      SplitBoth(tail, c, b);
    }
  }

  /** The separator-free parts of all fields, in order. */
  function SplitAll(parts: seq<string>, c: char): seq<string> {
    if parts == [] then [] else Split(parts[0], c) + SplitAll(parts[1..], c)
  }

  lemma {:induction false} SplitOfJoin(parts: seq<string>, c: char)
    requires parts != []
    ensures Split(Join(parts, c), c) == SplitAll(parts, c)
  {
    if |parts| > 1 {
      SplitOfJoin(parts[1..], c);
      SplitBoth(parts[0], c, Join(parts[1..], c));
    } else {
      assert SplitAll(parts[1..], c) == [];
    }
  }

  lemma {:induction false} SplitAllFree(parts: seq<string>, c: char)
    requires Free(parts, c)
    ensures SplitAll(parts, c) == parts
  {
    if parts != [] {
      SplitJoin(parts[..1], c);
      SplitAllFree(parts[1..], c);
    }
  }

  lemma {:induction false} SplitAllCount(parts: seq<string>, c: char)
    ensures |SplitAll(parts, c)| >= |parts|
  {
    if parts != [] {
      SplitAllCount(parts[1..], c);
    }
  }

  /** What joined text says is exactly its separator-free parts: two lists of fields join to the same
      text if and only if they have the same parts. */
  lemma JoinAgreesIff(a: seq<string>, b: seq<string>, c: char)
    requires a != [] && b != []
    ensures Join(a, c) == Join(b, c) <==> SplitAll(a, c) == SplitAll(b, c)
  {
    SplitOfJoin(a, c);
    SplitOfJoin(b, c);
    JoinSplit(Join(a, c), c);
    JoinSplit(Join(b, c), c);
  }

  lemma {:induction false} JoinSplit(s: string, c: char)
    ensures Join(Split(s, c), c) == s && Free(Split(s, c), c)
    decreases |s|
  {
    var i := IndexOf(s, c);
    if i < |s| {
      JoinSplit(s[i + 1..], c);
      var rest := Split(s[i + 1..], c);
      assert Split(s, c)[1..] == rest;
      assert s == s[..i] + [c] + s[i + 1..];
    } else {
      assert s[..i] == s;
    }
  }

  /** Separator-free fields can be read back from the joined text, so joining is injective. */
  lemma JoinInjective(a: seq<string>, b: seq<string>, c: char)
    requires a != [] && b != [] && Free(a, c) && Free(b, c) && Join(a, c) == Join(b, c)
    ensures a == b
  {
    SplitJoin(a, c);
    SplitJoin(b, c);
  }
}
