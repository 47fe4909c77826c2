/** When two groups' bucket ids can collide: the id is plain concatenation, and nothing forbids `@` in
    a group name or `#` in a pool name. */
module BucketIds {
  import opened Base
  import opened CostLimits
  import opened Text

  /** `long` spells out `short` followed by a window and a pool separator. */
  predicate Spells(long: string, short: string, w: Window, x: string) {
    long == short + "@" + Word(w) + "#" + x
  }

  ghost predicate Shadows(long: string, short: string) {
    exists w, x :: Spells(long, short, w, x)
  }

  ghost predicate CanCollide(a: string, b: string) {
    exists s, t :: BucketId(a, s) == BucketId(b, t)
  }

  lemma WordsPlain(w: Window)
    ensures '@' !in Word(w) && '#' !in Word(w)
  {
  }

  lemma WordsDiffer(v: Window, w: Window)
    requires Word(v) == Word(w)
    ensures v == w
  {
    assert Word(v)[0] == Word(w)[0] && Word(v)[1] == Word(w)[1];
  }

  /** The window word ends at the first `#`, or at the end. */
  lemma WordEnds(s: Scope)
    ensures IndexOf(ScopeText(s), '#') == |Word(s.window)|
  {
    WordsPlain(s.window);
    if s.pool.Some? {
      FirstSeparator(Word(s.window), '#', s.pool.value);
      assert ScopeText(s) == Word(s.window) + ['#'] + s.pool.value;
    } else {
      assert forall k :: 0 <= k < |ScopeText(s)| ==> ScopeText(s)[k] in Word(s.window);
    }
  }

  /** Within a group the scope can be read back from the id. */
  lemma ScopeTextInjective(s: Scope, t: Scope)
    requires ScopeText(s) == ScopeText(t)
    ensures s == t
  {
    WordEnds(s);
    WordEnds(t);
    var n := |Word(s.window)|;
    assert ScopeText(s)[..n] == Word(s.window) && ScopeText(t)[..n] == Word(t.window);
    WordsDiffer(s.window, t.window);
    if s.pool.Some? {
      assert ScopeText(s)[n + 1..] == s.pool.value && ScopeText(t)[n + 1..] == t.pool.value;
    }
  }

  lemma SameGroupIds(name: string, s: Scope, t: Scope)
    ensures BucketId(name, s) == BucketId(name, t) <==> s == t
  {
    if BucketId(name, s) == BucketId(name, t) {
      var n := |GROUP_BUCKET_PREFIX + name + "@"|;
      assert BucketId(name, s)[n..] == ScopeText(s) && BucketId(name, t)[n..] == ScopeText(t);
      ScopeTextInjective(s, t);
    }
  }

  /** An id that belongs to two groups splits the longer name at the shorter one's window. */
  lemma CollisionShadows(long: string, s: Scope, short: string, t: Scope)
    requires BucketId(long, s) == BucketId(short, t) && |long| > |short|
    ensures Shadows(long, short)
  {
    hide ScopeText, Word;
    IdTail(long, s);
    IdTail(short, t);
    TailSplits(long, ScopeText(s), short, t);
  }

  lemma IdTail(name: string, s: Scope)
    ensures BucketId(name, s)[|GROUP_BUCKET_PREFIX|..] == name + "@" + ScopeText(s)
  {
    hide ScopeText;
  }

  lemma TailSplits(long: string, text: string, short: string, t: Scope)
    requires long + "@" + text == short + "@" + ScopeText(t) && |long| > |short|
    ensures Shadows(long, short)
  {
    hide Word;
    var a, b := long + "@" + text, short + "@" + ScopeText(t);
    var w := Word(t.window);
    WordsPlain(t.window);
    var m := |short| + 1 + |w|;
    assert long == a[..|long|] == b[..|long|] && a[|long|] == '@';
    assert forall k :: |short| < k < m ==> b[k] == w[k - |short| - 1];
    assert |long| >= m;
    assert m < |b| ==> b[m] == '#';
    assert Spells(long, short, t.window, long[m + 1..]);
  }

  lemma Collision(a: string, s: Scope, b: string, t: Scope)
    requires BucketId(a, s) == BucketId(b, t)
    ensures a == b || Shadows(a, b) || Shadows(b, a)
  {
    if |a| > |b| {
      CollisionShadows(a, s, b, t);
    } else if |b| > |a| {
      CollisionShadows(b, t, a, s);
    } else {
      var g := |GROUP_BUCKET_PREFIX|;
      assert BucketId(a, s)[g..g + |a|] == a && BucketId(b, t)[g..g + |b|] == b;
    }
  }

  /** Two groups can collide exactly when one's name spells out the other's with a window and `#`. */
  lemma CollideExactlyWhenShadowed(a: string, b: string)
    requires a != b
    ensures CanCollide(a, b) <==> Shadows(a, b) || Shadows(b, a)
  {
    if CanCollide(a, b) {
      var s, t :| BucketId(a, s) == BucketId(b, t);
      Collision(a, s, b, t);
    }
    if Shadows(a, b) {
      ShadowCollides(a, b);
    }
    if Shadows(b, a) {
      ShadowCollides(b, a);
      var s, t :| BucketId(b, s) == BucketId(a, t);
      assert BucketId(a, t) == BucketId(b, s);
    }
  }

  lemma ShadowCollides(long: string, short: string)
    requires Shadows(long, short)
    ensures CanCollide(long, short)
  {
    hide Word;
    var w, x :| Spells(long, short, w, x);
    var s, t := Scope(Total, None), Scope(w, Some(x + "@" + Word(Total)));
    assert BucketId(long, s) == BucketId(short, t);
  }

  lemma NoAtNoShadow(long: string, short: string)
    requires '@' !in long
    ensures !Shadows(long, short)
  {
    forall w, x ensures !Spells(long, short, w, x) {
      assert (short + "@" + Word(w) + "#" + x)[|short|] == '@';
    }
  }

  /** With no `@` in any group name, every bucket in the tree has an id of its own. */
  lemma IdsDistinctWithoutAt(a: string, s: Scope, b: string, t: Scope)
    requires '@' !in a && '@' !in b
    ensures BucketId(a, s) == BucketId(b, t) <==> a == b && s == t
  {
    NoAtNoShadow(a, b);
    NoAtNoShadow(b, a);
    if BucketId(a, s) == BucketId(b, t) {
      Collision(a, s, b, t);
      SameGroupIds(a, s, t);
    }
  }

  /** The text of an id, with and without a pool. */
  lemma IdText()
    ensures BucketId("team", Scope(Month, Some("frontier"))) == "group:team@month#frontier"
    ensures BucketId("team", Scope(Minute, None)) == "group:team@minute"
    ensures Word(Hour) == "hour" && Word(Day) == "day" && Word(Total) == "total"
  {
  }

  /** The collision is real: these two groups would share one ledger row. */
  lemma CollisionExample()
    ensures BucketId("team", Scope(Month, Some("frontier@total"))) ==
            BucketId("team@month#frontier", Scope(Total, None))
  {
  }
}
