/**
 * The selection loop of selectRecipes: walk the cursor in stream order, keep
 * the records whose position was sampled under dense keys 0, 1, 2, ..., and
 * fold their ingredients into the grocery list.
 */
module Selection {
  import opened Recipe
  import opened Sampling

  /** What selectRecipes leaves in the globals Recipes and GroceryList. */
  datatype Menu = Menu(recipes: map<int, SingleRecipe>, groceryList: set<string>)

  /** Why a run ends without a menu. */
  datatype Failure =
    | SliceOutOfRange(total: nat, n: nat)  // p[:n] with n > total panics
    | DecodeFailed(reason: string)         // log.Fatal on a document that does not decode

  /** The documents at stream positions listed in selectIdx, in stream order. */
  function Selected(selectIdx: seq<int>, docs: seq<Document>): seq<Document>
  {
    if docs == [] then []
    else
      var last := |docs| - 1;
      Selected(selectIdx, docs[..last]) + (if last in selectIdx then [docs[last]] else [])
  }

  /** The positions below n listed in selectIdx, in ascending order. */
  function Positions(selectIdx: seq<int>, n: nat): seq<int>
  {
    if n == 0 then []
    else Positions(selectIdx, n - 1) + (if n - 1 in selectIdx then [n - 1] else [])
  }

  /** Decodes documents in order; the first failure is the result. */
  function DecodeAll(docs: seq<Document>): Result<seq<SingleRecipe>, string>
  {
    if docs == [] then Ok([])
    else
      match DecodeAll(docs[..|docs| - 1])
      case Err(e) => Err(e)
      case Ok(rs) =>
        match Decode(docs[|docs| - 1])
        case Err(e) => Err(e)
        case Ok(r) => Ok(rs + [r])
  }

  /** Recipes stored under the keys 0 .. |rs| - 1, in order. */
  function Indexed(rs: seq<SingleRecipe>): map<int, SingleRecipe>
  {
    map j | 0 <= j < |rs| :: rs[j]
  }

  /** The ingredients of the recipes, folded into a set one recipe after another. */
  function Groceries(rs: seq<SingleRecipe>): set<string>
  {
    if rs == [] then {}
    else Groceries(rs[..|rs| - 1]) + Items(rs[|rs| - 1].ingredients)
  }

  /** The outcome of the selection loop for a given index list and stream. */
  function Expected(selectIdx: seq<int>, cursor: seq<Document>): Result<Menu, Failure>
  {
    match DecodeAll(Selected(selectIdx, cursor))
    case Err(e) => Err(DecodeFailed(e))
    case Ok(rs) => Ok(Menu(Indexed(rs), Groceries(rs)))
  }

  /** The inner loop of selectRecipes: GroceryList.Add for every ingredient, in order. */
  method AddIngredients(groceryList: set<string>, ingredients: seq<string>) returns (g: set<string>)
    ensures g == groceryList + Items(ingredients)
  {
    g := groceryList;
    var i := 0;
    while i < |ingredients|
      invariant 0 <= i <= |ingredients|
      invariant g == groceryList + Items(ingredients[..i])
    {
      assert ingredients[..i + 1] == ingredients[..i] + [ingredients[i]];
      g := g + {ingredients[i]};
      i := i + 1;
    }
    assert ingredients[..i] == ingredients;
  }

  /**
   * The cursor loop of selectRecipes. idx counts every record, recipeID only
   * the stored ones; a record is decoded only when its position is sampled.
   */
  method CollectSelected(selectIdx: seq<int>, cursor: seq<Document>) returns (res: Result<Menu, Failure>)
    ensures res == Expected(selectIdx, cursor)
  {
    var recipes: map<int, SingleRecipe> := map[];
    var groceryList: set<string> := {};
    var idx, recipeID := 0, 0;
    ghost var stored: seq<SingleRecipe> := [];
    while idx < |cursor|
      invariant 0 <= idx <= |cursor|
      invariant DecodeAll(Selected(selectIdx, cursor[..idx])) == Ok(stored)
      invariant recipeID == |stored|
      invariant recipes == Indexed(stored)
      invariant groceryList == Groceries(stored)
    {
      var member := IsMember(selectIdx, idx);
      if member != true {
        SkipStep(selectIdx, cursor, idx);
        idx := idx + 1;
        continue;
      }
      var decoded := Decode(cursor[idx]);
      if decoded.Err? {
        FailStep(selectIdx, cursor, idx, stored, decoded.error);
        return Err(DecodeFailed(decoded.error));
      }
      var r := decoded.value;
      TakeStep(selectIdx, cursor, idx, stored, r);
      if |r.ingredients| > 0 {
        groceryList := AddIngredients(groceryList, r.ingredients);
      }
      StoreStep(stored, r);
      recipes := recipes[recipeID := r];
      idx := idx + 1;
      recipeID := recipeID + 1;
      stored := stored + [r];
    }
    assert cursor[..idx] == cursor;
    return Ok(Menu(recipes, groceryList));
  }

  /** A record at an unsampled position leaves the selection as it was. */
  lemma SkipStep(selectIdx: seq<int>, cursor: seq<Document>, idx: nat)
    requires idx < |cursor| && idx !in selectIdx
    ensures Selected(selectIdx, cursor[..idx + 1]) == Selected(selectIdx, cursor[..idx])
  {
    SelectStep(selectIdx, cursor, idx);
    assert Selected(selectIdx, cursor[..idx]) + [] == Selected(selectIdx, cursor[..idx]);
  }

  /** A sampled record that decodes is appended to the recipes decoded so far. */
  lemma TakeStep(selectIdx: seq<int>, cursor: seq<Document>, idx: nat, stored: seq<SingleRecipe>, r: SingleRecipe)
    requires idx < |cursor| && idx in selectIdx
    requires DecodeAll(Selected(selectIdx, cursor[..idx])) == Ok(stored)
    requires Decode(cursor[idx]) == Ok(r)
    ensures DecodeAll(Selected(selectIdx, cursor[..idx + 1])) == Ok(stored + [r])
  {
    SelectStep(selectIdx, cursor, idx);
    DecodeStep(Selected(selectIdx, cursor[..idx]), cursor[idx]);
  }

  /** A sampled record that fails to decode, after successful ones, decides the outcome of the run. */
  lemma FailStep(selectIdx: seq<int>, cursor: seq<Document>, idx: nat, stored: seq<SingleRecipe>, e: string)
    requires idx < |cursor| && idx in selectIdx
    requires DecodeAll(Selected(selectIdx, cursor[..idx])) == Ok(stored)
    requires Decode(cursor[idx]) == Err(e)
    ensures Expected(selectIdx, cursor) == Err(DecodeFailed(e))
  {
    SelectStep(selectIdx, cursor, idx);
    DecodeStep(Selected(selectIdx, cursor[..idx]), cursor[idx]);
    DecodeErrorPersists(selectIdx, cursor, idx + 1);
  }

  /** One more record of the stream extends the selection by itself exactly when it is sampled. */
  lemma SelectStep(selectIdx: seq<int>, docs: seq<Document>, idx: nat)
    requires idx < |docs|
    ensures Selected(selectIdx, docs[..idx + 1]) ==
      Selected(selectIdx, docs[..idx]) + (if idx in selectIdx then [docs[idx]] else [])
  {
    assert docs[..idx + 1][..idx] == docs[..idx];
  }

  /** Decoding one more document keeps an earlier failure, or appends the new recipe or failure. */
  lemma DecodeStep(docs: seq<Document>, d: Document)
    ensures DecodeAll(docs + [d]) ==
      match DecodeAll(docs)
      case Err(e) => Err(e)
      case Ok(rs) => (match Decode(d) case Err(e) => Err(e) case Ok(r) => Ok(rs + [r]))
  {
    assert (docs + [d])[..|docs|] == docs;
  }

  /** Storing one more recipe adds it under the next key and adds its ingredients to the list. */
  lemma StoreStep(rs: seq<SingleRecipe>, r: SingleRecipe)
    ensures Indexed(rs + [r]) == Indexed(rs)[|rs| := r]
    ensures Groceries(rs + [r]) == Groceries(rs) + Items(r.ingredients)
  {
    assert (rs + [r])[..|rs|] == rs;
  }

  /** Once a sampled record fails to decode, later records cannot change the failure. */
  lemma {:induction false} DecodeErrorPersists(selectIdx: seq<int>, docs: seq<Document>, k: nat)
    requires k <= |docs|
    requires DecodeAll(Selected(selectIdx, docs[..k])).Err?
    ensures DecodeAll(Selected(selectIdx, docs)) == DecodeAll(Selected(selectIdx, docs[..k]))
  {
    if k < |docs| {
      var init := docs[..|docs| - 1];
      assert init[..k] == docs[..k];
      DecodeErrorPersists(selectIdx, init, k);
      var s := Selected(selectIdx, init);
      if |docs| - 1 in selectIdx {
        assert Selected(selectIdx, docs) == s + [docs[|docs| - 1]];
        assert (s + [docs[|docs| - 1]])[..|s|] == s;
        assert DecodeAll(s + [docs[|docs| - 1]]) == DecodeAll(s);
      } else {
        assert Selected(selectIdx, docs) == s;
      }
    } else {
      assert docs[..k] == docs;
    }
  }

  /**
   * selectRecipes: sample nRecipes of count positions, then run the cursor
   * loop. count is what CountDocuments reported; perm is the random permutation.
   */
  method SelectRecipes(nRecipes: nat, count: nat, perm: seq<int>, cursor: seq<Document>)
    returns (res: Result<Menu, Failure>)
    requires IsPermutation(perm, count)
    ensures nRecipes > count ==> res == Err(SliceOutOfRange(count, nRecipes))
    ensures nRecipes <= count ==> res == Expected(RandomInts(count, nRecipes, perm), cursor)
    ensures res.Ok? && count == |cursor| ==>
      forall j :: j in res.value.recipes <==> 0 <= j < nRecipes
  {
    if nRecipes > count {
      return Err(SliceOutOfRange(count, nRecipes));
    }
    var selectIdx := RandomInts(count, nRecipes, perm);
    res := CollectSelected(selectIdx, cursor);
    if res.Ok? && count == |cursor| {
      SampledMenuSize(nRecipes, count, perm, cursor);
    }
  }

  /** Positions lists exactly the sampled positions below n, each once, ascending. */
  lemma {:induction false} PositionsExact(selectIdx: seq<int>, n: nat)
    ensures forall p :: p in Positions(selectIdx, n) <==> 0 <= p < n && p in selectIdx
    ensures forall i, j :: 0 <= i < j < |Positions(selectIdx, n)| ==>
      Positions(selectIdx, n)[i] < Positions(selectIdx, n)[j]
  {
    if n > 0 {
      var earlier := Positions(selectIdx, n - 1);
      PositionsExact(selectIdx, n - 1);
      assert forall i :: 0 <= i < |earlier| ==> earlier[i] in earlier;
    }
  }

  /**
   * Selected keeps the stream order: its j-th document is the one at the j-th
   * sampled position, and documents at other positions never appear.
   */
  lemma {:induction false} SelectedInStreamOrder(selectIdx: seq<int>, docs: seq<Document>)
    ensures |Selected(selectIdx, docs)| == |Positions(selectIdx, |docs|)|
    ensures forall j :: 0 <= j < |Positions(selectIdx, |docs|)| ==>
      0 <= Positions(selectIdx, |docs|)[j] < |docs|
    ensures forall j :: 0 <= j < |Selected(selectIdx, docs)| ==>
      Selected(selectIdx, docs)[j] == docs[Positions(selectIdx, |docs|)[j]]
  {
    PositionsExact(selectIdx, |docs|);
    if docs != [] {
      var last := |docs| - 1;
      var init := docs[..last];
      SelectedInStreamOrder(selectIdx, init);
      var sel, ps := Selected(selectIdx, init), Positions(selectIdx, last);
      var tail := if last in selectIdx then [docs[last]] else [];
      assert Selected(selectIdx, docs) == sel + tail;
      assert Positions(selectIdx, |docs|) == ps + (if last in selectIdx then [last] else []);
      forall j | 0 <= j < |sel|
        ensures Selected(selectIdx, docs)[j] == docs[Positions(selectIdx, |docs|)[j]]
      {
        assert sel[j] == init[ps[j]];
      }
    }
  }

  /**
   * With distinct sampled indices that all lie inside the stream, exactly as
   * many records are selected as indices were sampled.
   */
  lemma SelectionSize(selectIdx: seq<int>, n: nat)
    requires Distinct(selectIdx)
    requires forall i :: 0 <= i < |selectIdx| ==> 0 <= selectIdx[i] < n
    ensures |Positions(selectIdx, n)| == |selectIdx|
  {
    var ps := Positions(selectIdx, n);
    PositionsExact(selectIdx, n);
    forall x
      ensures x in Items(ps) <==> x in Items(selectIdx)
    {
      if x in selectIdx {
        var i :| 0 <= i < |selectIdx| && selectIdx[i] == x;
      }
    }
    assert Items(ps) == Items(selectIdx);
    DistinctCardinality(ps);
    DistinctCardinality(selectIdx);
  }

  /**
   * Decoding a run of documents succeeds exactly when every one is well-formed,
   * and then yields their recipes in order.
   */
  lemma {:induction false} DecodeAllOk(docs: seq<Document>)
    ensures DecodeAll(docs).Ok? <==> forall j :: 0 <= j < |docs| ==> docs[j].Wellformed?
    ensures DecodeAll(docs).Ok? ==>
      |DecodeAll(docs).value| == |docs| &&
      forall j :: 0 <= j < |docs| ==> docs[j] == Wellformed(DecodeAll(docs).value[j])
  {
    if docs != [] {
      var last := |docs| - 1;
      var init := docs[..last];
      DecodeAllOk(init);
      assert init + [docs[last]] == docs;
      DecodeStep(init, docs[last]);
      assert forall j :: 0 <= j < last ==> docs[j] == init[j];
    }
  }

  /** A failed decoding run reports the first malformed document. */
  lemma {:induction false} DecodeAllErr(docs: seq<Document>)
    requires DecodeAll(docs).Err?
    ensures exists j ::
              0 <= j < |docs| && docs[j] == Malformed(DecodeAll(docs).error) &&
              forall i :: 0 <= i < j ==> docs[i].Wellformed?
  {
    var last := |docs| - 1;
    var init := docs[..last];
    assert init + [docs[last]] == docs;
    DecodeStep(init, docs[last]);
    if DecodeAll(init).Err? {
      DecodeAllErr(init);
      var j :| 0 <= j < |init| && init[j] == Malformed(DecodeAll(init).error) &&
        forall i :: 0 <= i < j ==> init[i].Wellformed?;
      assert docs[j] == init[j];
      assert forall i :: 0 <= i < j ==> docs[i] == init[i];
    } else {
      DecodeAllOk(init);
      assert forall i :: 0 <= i < last ==> docs[i] == init[i];
    }
  }

  /**
   * The loop succeeds exactly when every sampled position inside the stream holds
   * a well-formed document; malformed documents at other positions do no harm.
   */
  lemma SucceedsIff(selectIdx: seq<int>, cursor: seq<Document>)
    ensures Expected(selectIdx, cursor).Ok? <==>
      forall p :: 0 <= p < |cursor| && p in selectIdx ==> cursor[p].Wellformed?
  {
    var sel := Selected(selectIdx, cursor);
    var ps := Positions(selectIdx, |cursor|);
    SelectedInStreamOrder(selectIdx, cursor);
    PositionsExact(selectIdx, |cursor|);
    DecodeAllOk(sel);
    if !Expected(selectIdx, cursor).Ok? {
      var j :| 0 <= j < |sel| && !sel[j].Wellformed?;
      assert cursor[ps[j]] == sel[j];
    } else {
      forall p | 0 <= p < |cursor| && p in selectIdx
        ensures cursor[p].Wellformed?
      {
        assert p in ps;
        var j :| 0 <= j < |ps| && ps[j] == p;
        assert sel[j] == cursor[p];
      }
    }
  }

  /**
   * A failed run reports the reason of the first sampled position, in stream
   * order, whose document is malformed.
   */
  lemma {:induction false} FailsAtFirstMalformed(selectIdx: seq<int>, cursor: seq<Document>, e: string)
    requires Expected(selectIdx, cursor) == Err(DecodeFailed(e))
    ensures exists p ::
              0 <= p < |cursor| && p in selectIdx && cursor[p] == Malformed(e) &&
              forall q :: 0 <= q < p && q in selectIdx ==> cursor[q].Wellformed?
  {
    var last := |cursor| - 1;
    var init := cursor[..last];
    SelectStep(selectIdx, cursor, last);
    assert cursor[..last + 1] == cursor;
    var before := Selected(selectIdx, init);
    var earlierFails := true;
    if last in selectIdx {
      DecodeStep(before, cursor[last]);
      earlierFails := DecodeAll(before).Err?;
    } else {
      assert before + [] == before;
    }
    if earlierFails {
      assert Expected(selectIdx, init) == Err(DecodeFailed(e));
      FailsAtFirstMalformed(selectIdx, init, e);
      var p :| 0 <= p < |init| && p in selectIdx && init[p] == Malformed(e) &&
        forall q :: 0 <= q < p && q in selectIdx ==> init[q].Wellformed?;
      assert cursor[p] == init[p];
      assert forall q :: 0 <= q < p ==> cursor[q] == init[q];
    } else {
      SucceedsIff(selectIdx, init);
      assert cursor[last] == Malformed(e);
      assert forall q :: 0 <= q < last ==> cursor[q] == init[q];
    }
  }

  /**
   * Recipes holds the j-th selected record under key j, for exactly the keys
   * 0 .. k - 1 where k is the number of sampled positions inside the stream.
   */
  lemma RecipesDense(selectIdx: seq<int>, cursor: seq<Document>)
    requires Expected(selectIdx, cursor).Ok?
    ensures var recipes := Expected(selectIdx, cursor).value.recipes;
      var ps := Positions(selectIdx, |cursor|);
      (forall j :: j in recipes <==> 0 <= j < |ps|) &&
      forall j :: 0 <= j < |ps| ==> 0 <= ps[j] < |cursor| && cursor[ps[j]] == Wellformed(recipes[j])
  {
    var sel := Selected(selectIdx, cursor);
    SelectedInStreamOrder(selectIdx, cursor);
    DecodeAllOk(sel);
  }

  /** An ingredient is on the grocery list exactly when some stored recipe lists it. */
  lemma {:induction false} GroceriesMembership(rs: seq<SingleRecipe>, x: string)
    ensures x in Groceries(rs) <==> exists j :: 0 <= j < |rs| && x in rs[j].ingredients
  {
    if rs != [] {
      var init := rs[..|rs| - 1];
      GroceriesMembership(init, x);
      if x in Groceries(init) {
        var j :| 0 <= j < |init| && x in init[j].ingredients;
        assert rs[j] == init[j];
      }
    }
  }

  /** The grocery list of the menu is the union of the ingredients of its recipes. */
  lemma GroceryListIsUnion(selectIdx: seq<int>, cursor: seq<Document>, x: string)
    requires Expected(selectIdx, cursor).Ok?
    ensures var m := Expected(selectIdx, cursor).value;
      x in m.groceryList <==> exists j :: j in m.recipes && x in m.recipes[j].ingredients
  {
    var rs := DecodeAll(Selected(selectIdx, cursor)).value;
    var m := Expected(selectIdx, cursor).value;
    assert m.recipes == Indexed(rs);
    GroceriesMembership(rs, x);
    if x in m.groceryList {
      var j :| 0 <= j < |rs| && x in rs[j].ingredients;
      assert j in m.recipes && m.recipes[j] == rs[j];
    }
  }

  /**
   * Storing one more recipe adds its key; when it lists no ingredient that is
   * not already on the list (none at all, or only duplicates) the list is unchanged.
   */
  lemma StoreRecipe(rs: seq<SingleRecipe>, r: SingleRecipe)
    requires forall x :: x in r.ingredients ==> x in Groceries(rs)
    ensures Indexed(rs + [r]) == Indexed(rs)[|rs| := r]
    ensures Groceries(rs + [r]) == Groceries(rs)
  {
    StoreStep(rs, r);
  }

  /** Records at positions that were not sampled do not influence the outcome. */
  lemma {:induction false} UnselectedIgnored(selectIdx: seq<int>, a: seq<Document>, b: seq<Document>)
    requires |a| == |b|
    requires forall p :: 0 <= p < |a| && p in selectIdx ==> a[p] == b[p]
    ensures Selected(selectIdx, a) == Selected(selectIdx, b)
    ensures Expected(selectIdx, a) == Expected(selectIdx, b)
  {
    if a != [] {
      UnselectedIgnored(selectIdx, a[..|a| - 1], b[..|b| - 1]);
    }
  }

  /**
   * End to end: sampling n of count positions over a stream of count records
   * yields, on success, a menu keyed exactly 0 .. n - 1.
   */
  lemma SampledMenuSize(nRecipes: nat, count: nat, perm: seq<int>, cursor: seq<Document>)
    requires IsPermutation(perm, count)
    requires nRecipes <= count == |cursor|
    requires Expected(RandomInts(count, nRecipes, perm), cursor).Ok?
    ensures forall j :: j in Expected(RandomInts(count, nRecipes, perm), cursor).value.recipes <==>
      0 <= j < nRecipes
  {
    var selectIdx := RandomInts(count, nRecipes, perm);
    SelectionSize(selectIdx, count);
    RecipesDense(selectIdx, cursor);
  }
}
