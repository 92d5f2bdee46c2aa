/** The recipe-viewer side of the hammer table: for every key, its outputs
    with equivalent stacks removed (first occurrence kept), cut into pages of
    at most 21 stacks, one recipe per page. */
module RecipeView {
  import opened Seqs
  import opened HammerRules

  /** Most output stacks one recipe page shows. */
  const PageSize: nat := 21

  /** A viewer recipe: the key whose matching stacks are the inputs, and one
      page of outputs. */
  datatype HammerRecipe<I, S> = HammerRecipe(input: I, outputs: seq<S>)

  /** Some stack already in `d` is equivalent to `x` (existing stack first). */
  predicate HasEquivalent<S>(eqv: (S, S) -> bool, d: seq<S>, x: S)
  {
    exists k :: 0 <= k < |d| && eqv(d[k], x)
  }

  /** The outputs with every stack dropped that is equivalent to one kept before it. */
  function Dedup<S>(eqv: (S, S) -> bool, ss: seq<S>): (r: seq<S>)
    ensures forall i, j :: 0 <= i < j < |r| ==> !eqv(r[i], r[j])
    decreases |ss|
  {
    if ss == [] then []
    else
      var d := Dedup(eqv, ss[..|ss| - 1]);
      var x := ss[|ss| - 1];
      if HasEquivalent(eqv, d, x) then d else d + [x]
  }

  /** The de-duplicated list keeps order; every output stack is either kept or
      equivalent to a kept stack; a stack with no equivalent stack before it is
      kept, and one that is dropped has an earlier kept stack equivalent to it. */
  lemma {:induction false} DedupKeepsFirst<S>(eqv: (S, S) -> bool, ss: seq<S>)
    ensures IsSubsequence(Dedup(eqv, ss), ss)
    ensures forall k :: 0 <= k < |ss| ==> ss[k] in Dedup(eqv, ss) || HasEquivalent(eqv, Dedup(eqv, ss), ss[k])
    ensures forall k :: 0 <= k < |ss| && (forall j :: 0 <= j < k ==> !eqv(ss[j], ss[k])) ==> ss[k] in Dedup(eqv, ss)
    ensures forall k :: 0 <= k < |ss| && ss[k] !in Dedup(eqv, ss) ==>
      exists j :: 0 <= j < k && ss[j] in Dedup(eqv, ss) && eqv(ss[j], ss[k])
    decreases |ss|, 1
  {
    if ss != [] {
      var init, x := ss[..|ss| - 1], ss[|ss| - 1];
      var d := Dedup(eqv, init);
      DedupKeepsFirst(eqv, init);
      assert ss == init + [x];
      if forall j :: 0 <= j < |init| ==> !eqv(ss[j], x) {
        SubsequenceMembers(d, init);
        forall m | 0 <= m < |d|
          ensures !eqv(d[m], x)
        {
          assert d[m] in init;
          var j :| 0 <= j < |init| && init[j] == d[m];
          assert ss[j] == init[j];
        }
      }
      if HasEquivalent(eqv, d, x) {
        SubsequenceOfExtension(init, [x]);
        SubsequenceTransitive(d, init, ss);
      } else {
        SubsequenceReflexive([x]);
        SubsequenceConcat(d, init, [x], [x]);
        forall k | 0 <= k < |init| && HasEquivalent(eqv, d, init[k])
          ensures HasEquivalent(eqv, d + [x], init[k])
        {
          var m :| 0 <= m < |d| && eqv(d[m], init[k]);
          assert (d + [x])[m] == d[m];
        }
      }
    }
    DedupDropsOnlyCovered(eqv, ss);
  }

  /** A stack is dropped only when an earlier stack that is kept is equivalent
      to it. */
  lemma {:induction false} DedupDropsOnlyCovered<S>(eqv: (S, S) -> bool, ss: seq<S>)
    ensures forall k :: 0 <= k < |ss| && ss[k] !in Dedup(eqv, ss) ==>
      exists j :: 0 <= j < k && ss[j] in Dedup(eqv, ss) && eqv(ss[j], ss[k])
    decreases |ss|, 0
  {
    if ss != [] {
      var init, x := ss[..|ss| - 1], ss[|ss| - 1];
      var d, r := Dedup(eqv, init), Dedup(eqv, ss);
      DedupDropsOnlyCovered(eqv, init);
      DedupKeepsFirst(eqv, init);
      SubsequenceMembers(d, init);
      assert forall y :: y in d ==> y in r;
      forall k | 0 <= k < |ss| && ss[k] !in r
        ensures exists j :: 0 <= j < k && ss[j] in r && eqv(ss[j], ss[k])
      {
        if k < |init| {
          assert ss[k] == init[k] && ss[k] !in d;
          var j :| 0 <= j < k && init[j] in d && eqv(init[j], init[k]);
          assert ss[j] == init[j];
        } else {
          assert HasEquivalent(eqv, d, x);
          var m :| 0 <= m < |d| && eqv(d[m], x);
          assert d[m] in init;
          var j :| 0 <= j < |init| && init[j] == d[m];
          assert ss[j] == init[j];
        }
      }
    }
  }

  /** The list cut into consecutive pages of PageSize stacks, the last one shorter. */
  function Pages<S>(ss: seq<S>): seq<seq<S>>
    decreases |ss|
  {
    if ss == [] then []
    else if |ss| <= PageSize then [ss]
    else [ss[..PageSize]] + Pages(ss[PageSize..])
  }

  /** The pages concatenate back to the list, each holds 1 to PageSize stacks,
      and there are ceil(n / PageSize) of them. */
  lemma {:induction false} PagesShape<S>(ss: seq<S>)
    ensures Flatten(Pages(ss)) == ss
    ensures forall k :: 0 <= k < |Pages(ss)| ==> 0 < |Pages(ss)[k]| <= PageSize
    ensures |Pages(ss)| == (|ss| + PageSize - 1) / PageSize
    decreases |ss|
  {
    if |ss| > PageSize {
      var rest := Pages(ss[PageSize..]);
      PagesShape(ss[PageSize..]);
      assert Pages(ss) == [ss[..PageSize]] + rest;
      assert ([ss[..PageSize]] + rest)[1..] == rest;
      assert ss == ss[..PageSize] + ss[PageSize..];
    } else if ss != [] {
      assert Pages(ss)[1..] == [];
      assert ss + [] == ss;
    }
  }

  /** One recipe per page of the de-duplicated outputs of `getRewards(key)`;
      none for a null key. */
  function RecipesFor<I(==), S, B>(h: Host<I, S, B>, es: seq<Entry<I, S>>, key: I): seq<HammerRecipe<I, S>>
  {
    if h.isNull(key) then []
    else RecipePages(key, Pages(Dedup(h.stacksEquivalent, Stacks(RewardsOfKey(es, key)))))
  }

  /** One recipe per page, all with the same input. */
  function RecipePages<I, S>(key: I, pages: seq<seq<S>>): (r: seq<HammerRecipe<I, S>>)
  {
    seq(|pages|, k requires 0 <= k < |pages| => HammerRecipe(key, pages[k]))
  }

  /** The recipes of the first `n` keys, in iteration order. */
  function RecipesUpTo<I(==), S, B>(h: Host<I, S, B>, es: seq<Entry<I, S>>, n: nat): seq<HammerRecipe<I, S>>
    requires n <= |es|
  {
    if n == 0 then [] else RecipesUpTo(h, es, n - 1) + RecipesFor(h, es, es[n - 1].key)
  }

  /** `getRecipeList`. */
  function RecipeList<I(==), S, B>(h: Host<I, S, B>, es: seq<Entry<I, S>>): seq<HammerRecipe<I, S>>
  {
    RecipesUpTo(h, es, |es|)
  }

  /** The output pages of the recipes, in order. */
  function Outputs<I, S>(recipes: seq<HammerRecipe<I, S>>): (r: seq<seq<S>>)
    ensures |r| == |recipes| && forall k :: 0 <= k < |r| ==> r[k] == recipes[k].outputs
    decreases |recipes|
  {
    if recipes == [] then [] else [recipes[0].outputs] + Outputs(recipes[1..])
  }

  /** For a key of a map with distinct keys: no recipe for a null key; otherwise
      every recipe has the key as input and 1 to 21 outputs, the pages concatenate
      back to the key's de-duplicated outputs (no two of them equivalent), and there
      are ceil(n / 21) of them, so a key without outputs has no recipe. */
  lemma RecipesForKey<I, S, B>(h: Host<I, S, B>, es: seq<Entry<I, S>>, i: nat)
    requires KeysDistinct(es) && i < |es|
    ensures h.isNull(es[i].key) ==> RecipesFor(h, es, es[i].key) == []
    ensures !h.isNull(es[i].key) ==>
      var outs := Dedup(h.stacksEquivalent, Stacks(es[i].rewards));
      var recipes := RecipesFor(h, es, es[i].key);
      && Flatten(Outputs(recipes)) == outs
      && (forall k :: 0 <= k < |recipes| ==> recipes[k].input == es[i].key && 0 < |recipes[k].outputs| <= PageSize)
      && |recipes| == (|outs| + PageSize - 1) / PageSize
      && (forall p, q :: 0 <= p < q < |outs| ==> !h.stacksEquivalent(outs[p], outs[q]))
  {
    if !h.isNull(es[i].key) {
      var outs := Dedup(h.stacksEquivalent, Stacks(es[i].rewards));
      var recipes := RecipesFor(h, es, es[i].key);
      assert recipes == RecipePages(es[i].key, Pages(outs)) by {
        RewardsOfKeyIsOwnList(es, i);
      }
      PagesShape(outs);
      assert Outputs(recipes) == Pages(outs);
    }
  }

  /** Every recipe for a key has that key as input, the key is not null, and it
      shows between 1 and 21 outputs. */
  lemma RecipesForShape<I, S, B>(h: Host<I, S, B>, es: seq<Entry<I, S>>, key: I)
    ensures forall r :: r in RecipesFor(h, es, key) ==>
      r.input == key && !h.isNull(key) && 0 < |r.outputs| <= PageSize
  {
    if !h.isNull(key) {
      var outs := Dedup(h.stacksEquivalent, Stacks(RewardsOfKey(es, key)));
      PagesShape(outs);
    }
  }

  /** Every recipe of the list comes from a non-null key of the map and shows
      between 1 and 21 outputs. */
  lemma {:induction false} RecipeListShape<I, S, B>(h: Host<I, S, B>, es: seq<Entry<I, S>>, n: nat)
    requires n <= |es|
    ensures forall r :: r in RecipesUpTo(h, es, n) ==>
      !h.isNull(r.input) && (exists i :: 0 <= i < n && es[i].key == r.input) && 0 < |r.outputs| <= PageSize
    decreases n
  {
    if n > 0 {
      RecipeListShape(h, es, n - 1);
      RecipesForShape(h, es, es[n - 1].key);
    }
  }

  /** The de-duplicated output stacks of the first `n` keys that are not null,
      concatenated in key order. */
  function KeyOutputs<I, S, B>(h: Host<I, S, B>, es: seq<Entry<I, S>>, n: nat): seq<S>
    requires n <= |es|
  {
    if n == 0 then [] else KeyOutputs(h, es, n - 1) + OwnOutputs(h, es[n - 1])
  }

  /** The de-duplicated output stacks of one entry's own list; none for a null key. */
  function OwnOutputs<I, S, B>(h: Host<I, S, B>, e: Entry<I, S>): seq<S>
  {
    if h.isNull(e.key) then [] else Dedup(h.stacksEquivalent, Stacks(e.rewards))
  }

  lemma OutputsConcat<I, S>(a: seq<HammerRecipe<I, S>>, b: seq<HammerRecipe<I, S>>)
    ensures Outputs(a + b) == Outputs(a) + Outputs(b)
  {
  }

  /** The outputs of one key's recipes, concatenated, are the key's own
      de-duplicated outputs, or nothing for a null key. */
  lemma KeyRecipesOutputs<I, S, B>(h: Host<I, S, B>, es: seq<Entry<I, S>>, i: nat)
    requires KeysDistinct(es) && i < |es|
    ensures Flatten(Outputs(RecipesFor(h, es, es[i].key))) == OwnOutputs(h, es[i])
  {
    var forKey := RecipesFor(h, es, es[i].key);
    if h.isNull(es[i].key) {
      assert Outputs(forKey) == [];
    } else {
      var outs := Dedup(h.stacksEquivalent, Stacks(es[i].rewards));
      assert forKey == RecipePages(es[i].key, Pages(outs)) by {
        RewardsOfKeyIsOwnList(es, i);
      }
      PagesShape(outs);
      assert Outputs(forKey) == Pages(outs);
    }
  }

  /** In a map with distinct keys, the outputs of all recipes of the list,
      concatenated, are the de-duplicated outputs of each non-null key's own
      list, key after key: no output is lost, added or reordered by paging. */
  lemma {:induction false} RecipeListOutputs<I, S, B>(h: Host<I, S, B>, es: seq<Entry<I, S>>, n: nat)
    requires KeysDistinct(es) && n <= |es|
    ensures Flatten(Outputs(RecipesUpTo(h, es, n))) == KeyOutputs(h, es, n)
    decreases n
  {
    if n > 0 {
      RecipeListOutputsStep(h, es, n);
      RecipeListOutputs(h, es, n - 1);
      assert KeyOutputs(h, es, n) == KeyOutputs(h, es, n - 1) + OwnOutputs(h, es[n - 1]);
    }
  }

  /** The recipes of key `n - 1` add that key's own outputs at the end. */
  lemma RecipeListOutputsStep<I, S, B>(h: Host<I, S, B>, es: seq<Entry<I, S>>, n: nat)
    requires KeysDistinct(es) && 0 < n <= |es|
    ensures Flatten(Outputs(RecipesUpTo(h, es, n))) == Flatten(Outputs(RecipesUpTo(h, es, n - 1))) + OwnOutputs(h, es[n - 1])
  {
    var before, forKey := RecipesUpTo(h, es, n - 1), RecipesFor(h, es, es[n - 1].key);
    calc {
      Flatten(Outputs(RecipesUpTo(h, es, n)));
      Flatten(Outputs(before + forKey));
      { OutputsConcat(before, forKey); }
      Flatten(Outputs(before) + Outputs(forKey));
      { FlattenConcat(Outputs(before), Outputs(forKey)); }
      Flatten(Outputs(before)) + Flatten(Outputs(forKey));
      { KeyRecipesOutputs(h, es, n - 1); }
      Flatten(Outputs(before)) + OwnOutputs(h, es[n - 1]);
    }
  }
}
