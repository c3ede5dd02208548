/**
 * The favourites list and its one update, `toggleFavorite`: an id already in
 * the list is removed (every copy of it), any other id is appended.
 */
module Favorites {

  /** No id occurs twice. */
  predicate Distinct(favs: seq<int>)
  {
    forall i, j :: 0 <= i < j < |favs| ==> favs[i] != favs[j]
  }

  /** `favs.filter(f => f !== id)`. */
  function Without(favs: seq<int>, id: int): (r: seq<int>)
    ensures forall x :: multiset(r)[x] == if x == id then 0 else multiset(favs)[x]
    ensures forall x :: x in r <==> x in favs && x != id
    ensures id !in favs ==> r == favs
    ensures Distinct(favs) ==> Distinct(r)
    decreases |favs|
  {
    if favs == [] then []
    else
      var rest := Without(favs[1..], id);
      var r := if favs[0] == id then rest else [favs[0]] + rest;
      WithoutStep(favs, id, rest, r);
      r
  }

  /** One step of the filter: the head is dropped when it is `id` and kept otherwise. */
  lemma WithoutStep(favs: seq<int>, id: int, rest: seq<int>, r: seq<int>)
    requires favs != []
    requires forall x :: multiset(rest)[x] == if x == id then 0 else multiset(favs[1..])[x]
    requires id !in favs[1..] ==> rest == favs[1..]
    requires Distinct(favs[1..]) ==> Distinct(rest)
    requires r == if favs[0] == id then rest else [favs[0]] + rest
    ensures forall x :: multiset(r)[x] == if x == id then 0 else multiset(favs)[x]
    ensures forall x :: x in r <==> x in favs && x != id
    ensures id !in favs ==> r == favs
    ensures Distinct(favs) ==> Distinct(r)
  {
    assert favs == [favs[0]] + favs[1..];
    assert multiset(favs) == multiset{favs[0]} + multiset(favs[1..]);
    assert forall x :: x in r <==> x in multiset(r);
    if Distinct(favs) && favs[0] != id {
      DistinctCons(favs, rest);
    }
  }

  /** Keeping a head that is not among the remaining ids keeps the list free of duplicates. */
  lemma DistinctCons(favs: seq<int>, rest: seq<int>)
    requires favs != [] && Distinct(favs)
    requires Distinct(favs[1..]) ==> Distinct(rest)
    requires multiset(rest)[favs[0]] <= multiset(favs[1..])[favs[0]]
    ensures Distinct([favs[0]] + rest)
  {
    assert Distinct(favs[1..]);
    assert favs[0] !in favs[1..];
    assert favs[0] !in rest;
    var r := [favs[0]] + rest;
    forall i, j | 0 <= i < j < |r| ensures r[i] != r[j] {
      if i == 0 { assert r[j] in rest; }
    }
  }

  /**
   * `toggleFavorite(id)`: flips whether `id` is a favourite and nothing else.
   * Afterwards `id` occurs at most once, and every other id as often as before.
   */
  function Toggle(favs: seq<int>, id: int): (r: seq<int>)
    ensures id in r <==> id !in favs
    ensures forall x :: x != id ==> (x in r <==> x in favs)
    ensures multiset(r)[id] == if id in favs then 0 else 1
    ensures forall x :: x != id ==> multiset(r)[x] == multiset(favs)[x]
    ensures Distinct(favs) ==> Distinct(r)
  {
    if id in favs then Without(favs, id) else favs + [id]
  }

  /** Toggling the same id twice gives back the same set of favourites. */
  lemma ToggleTwiceSameMembers(favs: seq<int>, id: int)
    ensures forall x :: x in Toggle(Toggle(favs, id), id) <==> x in favs
  {
  }

  /** When `id` was not a favourite, toggling it twice gives back the very same list. */
  lemma ToggleTwiceRestoresList(favs: seq<int>, id: int)
    requires id !in favs
    ensures Toggle(Toggle(favs, id), id) == favs
  {
    WithoutAppended(favs, id);
  }

  lemma {:induction false} WithoutAppended(favs: seq<int>, id: int)
    requires id !in favs
    ensures Without(favs + [id], id) == favs
    decreases |favs|
  {
    if favs != [] {
      assert (favs + [id])[1..] == favs[1..] + [id];
      WithoutAppended(favs[1..], id);
      assert favs == [favs[0]] + favs[1..];
    }
  }

  /** The filter distributes over concatenation, so the remaining ids keep their order. */
  lemma {:induction false} WithoutAppend(a: seq<int>, b: seq<int>, id: int)
    ensures Without(a + b, id) == Without(a, id) + Without(b, id)
    decreases |a|
  {
    if a == [] {
      assert a + b == b;
    } else {
      var ab := a + b;
      assert ab[0] == a[0] && ab[1..] == a[1..] + b;
      WithoutAppend(a[1..], b, id);
    }
  }

  /** The order is not restored in general: a favourite toggled off and on moves to the end. */
  lemma ToggleTwiceMayReorder()
    ensures Toggle(Toggle([1, 2], 1), 1) == [2, 1]
  {
    assert Without([1, 2], 1) == [2] by {
      assert [1, 2][1..] == [2];
      assert Without([2], 1) == [2];
    }
  }
}
