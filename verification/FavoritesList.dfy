/**
 * The list computations of the favorites store, as pure functions over the
 * ordered list of recipes: appending (spread into a new array), filtering
 * out an id, finding the first entry with an id, testing membership by id,
 * and the toggle that chooses between removing and appending.
 */
module FavoritesList {
  import opened Wrappers
  import opened Recipes

  /** Membership by id (`some` over the list). */
  function HasId(favs: seq<Recipe>, id: string): (b: bool)
    ensures b <==> exists i :: 0 <= i < |favs| && favs[i].id == id
  {
    if favs == [] then false
    else if favs[0].id == id then true
    else
      var rest := HasId(favs[1..], id);
      assert forall i :: 0 < i < |favs| ==> favs[i] == favs[1..][i - 1];
      rest
  }

  /** The list with `recipe` added at the end; no duplicate check is made. */
  function Appended(favs: seq<Recipe>, recipe: Recipe): (s: seq<Recipe>)
    ensures |s| == |favs| + 1
    ensures forall i :: 0 <= i < |favs| ==> s[i] == favs[i]
    ensures s[|favs|] == recipe
  {
    favs + [recipe]
  }

  /** The entries whose id differs from `id`, in their original order (`filter`). */
  function Without(favs: seq<Recipe>, id: string): (s: seq<Recipe>)
    ensures forall x :: x in s <==> x in favs && x.id != id
    ensures |s| <= |favs|
  {
    if favs == [] then []
    else if favs[0].id == id then Without(favs[1..], id)
    else [favs[0]] + Without(favs[1..], id)
  }

  /** The first entry with the given id, if any (`find`). */
  function FindById(favs: seq<Recipe>, id: string): (o: Option<Recipe>)
    ensures o.None? <==> !HasId(favs, id)
    ensures o.Some? ==> exists i :: 0 <= i < |favs| && favs[i] == o.value && o.value.id == id &&
                                     forall j :: 0 <= j < i ==> favs[j].id != id
  {
    if favs == [] then None
    else if favs[0].id == id then Some(favs[0])
    else
      var o := FindById(favs[1..], id);
      if o.Some? then
        var i :| 0 <= i < |favs[1..]| && favs[1..][i] == o.value && o.value.id == id &&
                 forall j :: 0 <= j < i ==> favs[1..][j].id != id;
        assert favs[i + 1] == o.value;
        assert forall j :: 0 <= j < i + 1 ==> favs[j].id != id by {
          forall j | 0 <= j < i + 1 ensures favs[j].id != id {
            if j > 0 { assert favs[j] == favs[1..][j - 1]; }
          }
        }
        o
      else o
  }

  /** Removes the recipe if its id is present, appends it otherwise. */
  function Toggled(favs: seq<Recipe>, recipe: Recipe): (s: seq<Recipe>)
    ensures HasId(s, recipe.id) <==> !HasId(favs, recipe.id)
    ensures forall id :: id != recipe.id ==> (HasId(s, id) <==> HasId(favs, id))
  {
    if HasId(favs, recipe.id) then Without(favs, recipe.id) else Appended(favs, recipe)
  }

  /** The intended invariant of the collection: no id occurs twice. */
  predicate DistinctIds(favs: seq<Recipe>) {
    forall i, j :: 0 <= i < j < |favs| ==> favs[i].id != favs[j].id
  }

  /** `a` occurs in `b` in the same relative order, possibly with gaps. */
  predicate IsSubsequence(a: seq<Recipe>, b: seq<Recipe>)
    decreases |b|
  {
    if b == [] then a == []
    else (a != [] && a[0] == b[0] && IsSubsequence(a[1..], b[1..])) || IsSubsequence(a, b[1..])
  }

  /** Filtering keeps the surviving entries in their original relative order. */
  lemma {:induction false} WithoutIsSubsequence(favs: seq<Recipe>, id: string)
    ensures IsSubsequence(Without(favs, id), favs)
  {
    if favs == [] {
    } else {
      WithoutIsSubsequence(favs[1..], id);
      var w := Without(favs[1..], id);
      if favs[0].id != id {
        assert ([favs[0]] + w)[1..] == w;
      }
    }
  }

  /** Filtering distributes over concatenation: each part is filtered in place. */
  lemma {:induction false} WithoutConcat(a: seq<Recipe>, b: seq<Recipe>, id: string)
    ensures Without(a + b, id) == Without(a, id) + Without(b, id)
  {
    if a == [] {
      assert a + b == b;
    } else {
      assert (a + b)[0] == a[0];
      assert (a + b)[1..] == a[1..] + b;
      WithoutConcat(a[1..], b, id);
    }
  }

  /** Filtering out an id changes the list exactly when the id is present. */
  lemma {:induction false} WithoutUnchangedIff(favs: seq<Recipe>, id: string)
    ensures Without(favs, id) == favs <==> !HasId(favs, id)
  {
    if favs == [] {
    } else if favs[0].id == id {
      assert favs[0] !in Without(favs, id);
    } else {
      WithoutUnchangedIff(favs[1..], id);
      assert favs == [favs[0]] + favs[1..];
      assert HasId(favs, id) == HasId(favs[1..], id);
    }
  }

  /** With distinct ids, removing a present id shortens the list by exactly one. */
  lemma {:induction false} WithoutDistinctRemovesOne(favs: seq<Recipe>, id: string)
    requires DistinctIds(favs) && HasId(favs, id)
    ensures |Without(favs, id)| == |favs| - 1
  {
    if favs[0].id == id {
      assert !HasId(favs[1..], id) by {
        forall i | 0 <= i < |favs[1..]| ensures favs[1..][i].id != id {
          assert favs[1..][i] == favs[i + 1];
        }
      }
      WithoutUnchangedIff(favs[1..], id);
    } else {
      assert HasId(favs[1..], id);
      WithoutDistinctRemovesOne(favs[1..], id);
    }
  }

  /** Filtering keeps ids distinct. */
  lemma {:induction false} WithoutKeepsDistinct(favs: seq<Recipe>, id: string)
    requires DistinctIds(favs)
    ensures DistinctIds(Without(favs, id))
  {
    if favs != [] {
      var w := Without(favs[1..], id);
      assert DistinctIds(favs[1..]) by {
        forall i, j | 0 <= i < j < |favs[1..]| ensures favs[1..][i].id != favs[1..][j].id {
          assert favs[1..][i] == favs[i + 1] && favs[1..][j] == favs[j + 1];
        }
      }
      WithoutKeepsDistinct(favs[1..], id);
      if favs[0].id != id {
        assert !HasId(w, favs[0].id) by {
          forall x | x in w ensures x.id != favs[0].id {
            var k :| 0 <= k < |favs[1..]| && favs[1..][k] == x;
            assert favs[k + 1] == x;
          }
        }
        ConsKeepsDistinct(favs[0], w);
      }
    }
  }

  /** Putting an entry with a fresh id in front keeps ids distinct. */
  lemma ConsKeepsDistinct(x: Recipe, w: seq<Recipe>)
    requires DistinctIds(w) && !HasId(w, x.id)
    ensures DistinctIds([x] + w)
  {
    forall i, j | 0 <= i < j < |[x] + w| ensures ([x] + w)[i].id != ([x] + w)[j].id {
      assert ([x] + w)[j] == w[j - 1];
      if i > 0 {
        assert ([x] + w)[i] == w[i - 1];
      }
    }
  }

  /** Adding an id that is already present grows the list and breaks distinctness. */
  lemma AppendPresentDuplicates(favs: seq<Recipe>, recipe: Recipe)
    requires HasId(favs, recipe.id)
    ensures |Appended(favs, recipe)| == |favs| + 1
    ensures !DistinctIds(Appended(favs, recipe))
  {
    var i :| 0 <= i < |favs| && favs[i].id == recipe.id;
    var s := Appended(favs, recipe);
    assert s[i].id == s[|favs|].id;
  }

  /** Toggling keeps ids distinct, because it appends only when the id is absent. */
  lemma ToggleKeepsDistinct(favs: seq<Recipe>, recipe: Recipe)
    requires DistinctIds(favs)
    ensures DistinctIds(Toggled(favs, recipe))
  {
    if HasId(favs, recipe.id) {
      WithoutKeepsDistinct(favs, recipe.id);
    } else {
      var s := Appended(favs, recipe);
      forall i, j | 0 <= i < j < |s| ensures s[i].id != s[j].id {
        if j == |favs| {
          assert s[i] == favs[i];
        }
      }
    }
  }

  /** Starting without the id, two toggles give back exactly the original list. */
  lemma {:induction false} ToggleTwiceAbsent(favs: seq<Recipe>, recipe: Recipe)
    requires !HasId(favs, recipe.id)
    ensures Toggled(Toggled(favs, recipe), recipe) == favs
  {
    var once := Toggled(favs, recipe);
    assert once == favs + [recipe];
    assert HasId(once, recipe.id);
    WithoutConcat(favs, [recipe], recipe.id);
    assert Without([recipe], recipe.id) == [];
    WithoutUnchangedIff(favs, recipe.id);
  }

  /**
   * Starting with the id, two toggles restore membership, but the recipe now
   * sits last and every earlier entry with that id is gone.
   */
  lemma ToggleTwicePresent(favs: seq<Recipe>, recipe: Recipe)
    requires HasId(favs, recipe.id)
    ensures Toggled(Toggled(favs, recipe), recipe) == Without(favs, recipe.id) + [recipe]
    ensures HasId(Toggled(Toggled(favs, recipe), recipe), recipe.id)
  {
  }
}
