/** Merging string maps key by key, as the controllers do with labels and annotations. */
module GoMaps {
  import opened Common

  type Strs = map<string, string>

  ghost predicate Agrees(have: Strs, want: Strs) {
    forall k :: k in want ==> Lookup(have, k) == want[k]
  }

  /** `want` written over `have`, except where Go reads the same value already: a wanted "" is not
      written to a missing key. */
  ghost function Overlay(have: Strs, want: Strs): Strs {
    have + map k | k in want && Lookup(have, k) != want[k] :: want[k]
  }

  /** What is not wanted is as it was. */
  ghost predicate KeepsRest(have: Strs, want: Strs, now: Strs) {
    forall k :: k !in want ==> Find(now, k) == Find(have, k)
  }

  lemma OverlayAgrees(have: Strs, want: Strs)
    ensures Agrees(Overlay(have, want), want)
    ensures KeepsRest(have, want, Overlay(have, want))
    ensures Agrees(have, want) <==> Overlay(have, want) == have
    ensures Overlay(Overlay(have, want), want) == Overlay(have, want)
  {
    var o := Overlay(have, want);
    if Agrees(have, want) {
      assert o == have;
    } else {
      var k :| k in want && Lookup(have, k) != want[k];
      assert Lookup(o, k) != Lookup(have, k);
    }
    assert Overlay(o, want) == o;
  }

  ghost function Merged(have: Strs, want: Strs, todo: set<string>, k: string): Option<string> {
    if k in want && k !in todo && Lookup(have, k) != want[k] then Some(want[k]) else Find(have, k)
  }

  /** The merge loop, for any iteration order of `want`. */
  method MergeInto(have: Strs, want: Strs) returns (merged: Strs, updated: bool)
    ensures merged == Overlay(have, want)
    ensures updated <==> !Agrees(have, want)
    ensures forall k :: k in want ==> Lookup(merged, k) == want[k]
    ensures forall k :: k !in want || Lookup(have, k) == want[k] ==> Find(merged, k) == Find(have, k)
    ensures updated <==> merged != have
  {
    merged, updated := have, false;
    var todo := want.Keys;
    while todo != {}
      invariant todo <= want.Keys
      invariant forall j :: Find(merged, j) == Merged(have, want, todo, j)
      invariant updated <==> exists j :: j in want && j !in todo && Lookup(have, j) != want[j]
      decreases todo
    {
      var k :| k in todo;
      ghost var before, todo0 := merged, todo;
      assert Find(before, k) == Merged(have, want, todo0, k);
      todo := todo - {k};
      if Lookup(merged, k) != want[k] {
        merged := merged[k := want[k]];
        updated := true;
      }
      forall j ensures Find(merged, j) == Merged(have, want, todo, j) {
        assert Find(before, j) == Merged(have, want, todo0, j);
      }
    }
    forall j ensures Find(merged, j) == Find(Overlay(have, want), j) {
      assert Find(merged, j) == Merged(have, want, todo, j);
    }
    SameMap(merged, Overlay(have, want));
    OverlayAgrees(have, want);
  }
}
