/** The hammer registry object: a map from ingredient keys to reward lists,
    updated in place by registration, read by the drop roll and the recipe
    view. Its contracts tie every operation to the functions of HammerRules
    and RecipeView. */
module Registry {
  import opened Seqs
  import opened HammerRules
  import opened RecipeView

  class HammerRegistry<I(==), S, B> {
    /** The engine's predicates the registry calls. */
    const host: Host<I, S, B>
    /** The registry map, as its entries in iteration order. */
    var entries: seq<Entry<I, S>>

    ghost predicate Valid()
      reads this
    {
      KeysDistinct(entries)
    }

    constructor (host: Host<I, S, B>)
      ensures Valid() && this.host == host && entries == []
    {
      this.host := host;
      entries := [];
    }

    /** `register(Ingredient, HammerReward)`. */
    method Register(ingredient: I, reward: HammerReward<S>)
      requires Valid()
      modifies this
      ensures Valid()
      ensures entries == Merge(host.ingredientEquals, old(entries), ingredient, [reward])
      ensures NoEquivalentKeys(host.ingredientEquals, old(entries)) ==> NoEquivalentKeys(host.ingredientEquals, entries)
      ensures host.ingredientEquals(ingredient, ingredient) || Absent(old(entries), ingredient) ==>
        TotalRewards(entries) == TotalRewards(old(entries)) + 1
    {
      MergeKeepsInvariants(host.ingredientEquals, entries, ingredient, [reward]);
      if host.ingredientEquals(ingredient, ingredient) || Absent(entries, ingredient) {
        MergeCount(host.ingredientEquals, entries, ingredient, [reward]);
      }
      var search := FirstEquivalent(host.ingredientEquals, entries, ingredient);
      if search.Some? {
        var i := search.value;
        entries := entries[i := Entry(entries[i].key, entries[i].rewards + [reward])];
      } else {
        entries := Put(entries, ingredient, [reward]);
      }
    }

    /** `register(ItemStack, HammerReward)`: an empty stack registers nothing;
        otherwise the ingredient `CraftingHelper.getIngredient(stack)` builds is
        registered. That call returns a new object, which is passed in as
        `ingredient` and so is not yet a key: the reward is always added, to the
        first equivalent key or as a new last key. */
    method RegisterStack(stack: S, reward: HammerReward<S>, ingredient: I)
      requires Valid()
      requires !host.isEmpty(stack) ==> Absent(entries, ingredient)
      modifies this
      ensures Valid()
      ensures host.isEmpty(stack) ==> entries == old(entries)
      ensures !host.isEmpty(stack) ==> entries == Merge(host.ingredientEquals, old(entries), ingredient, [reward])
      ensures !host.isEmpty(stack) ==> TotalRewards(entries) == TotalRewards(old(entries)) + 1
      ensures !host.isEmpty(stack) && FirstEquivalent(host.ingredientEquals, old(entries), ingredient).None? ==>
        entries == old(entries) + [Entry(ingredient, [reward])]
    {
      if host.isEmpty(stack) {
        return;
      }
      if FirstEquivalent(host.ingredientEquals, entries, ingredient).None? {
        MergeAddsNewKey(host.ingredientEquals, entries, ingredient, [reward]);
      }
      Register(ingredient, reward);
    }

    /** The merge loop of `registerEntriesFromJSON`, over the already parsed
        entries of the file in the order the parsed map yields them. When every
        parsed key is self-equivalent or a new object (not a key of the map nor
        an earlier parsed key), no list is replaced and every reward of the file
        is added. */
    method RegisterEntriesFromJson(parsed: seq<Entry<I, S>>)
      requires Valid()
      modifies this
      ensures Valid()
      ensures entries == MergeAll(host.ingredientEquals, old(entries), parsed)
      ensures NoEquivalentKeys(host.ingredientEquals, old(entries)) ==> NoEquivalentKeys(host.ingredientEquals, entries)
      ensures (forall k :: 0 <= k < |parsed| ==> host.ingredientEquals(parsed[k].key, parsed[k].key) || NewKey(old(entries), parsed, k)) ==>
        TotalRewards(entries) == TotalRewards(old(entries)) + TotalRewards(parsed)
    {
      for n := 0 to |parsed|
        invariant Valid()
        invariant entries == MergeAll(host.ingredientEquals, old(entries), parsed[..n])
      {
        assert parsed[..n + 1][..n] == parsed[..n];
        var ingredient := parsed[n].key;
        MergeKeepsInvariants(host.ingredientEquals, entries, ingredient, parsed[n].rewards);
        var search := FirstEquivalent(host.ingredientEquals, entries, ingredient);
        if search.Some? {
          var i := search.value;
          entries := entries[i := Entry(entries[i].key, entries[i].rewards + parsed[n].rewards)];
        } else {
          entries := Put(entries, ingredient, parsed[n].rewards);
        }
      }
      assert parsed[..|parsed|] == parsed;
      MergeAllKeepsInvariants(host.ingredientEquals, old(entries), parsed);
      if forall k :: 0 <= k < |parsed| ==> host.ingredientEquals(parsed[k].key, parsed[k].key) || NewKey(old(entries), parsed, k) {
        MergeAllCount(host.ingredientEquals, old(entries), parsed);
      }
    }

    /** `getRewardDrops`: `draws` is the stream of values `random.nextFloat()`
        returns from this call on; `used` is how many of them the call consumes. */
    method GetRewardDrops(block: B, miningLevel: int, fortuneLevel: int, draws: nat -> real) returns (drops: seq<S>, used: nat)
      ensures drops == Roll(GetRewards(host, entries, block), miningLevel, fortuneLevel, draws, 0)
      ensures used == |Eligible(GetRewards(host, entries, block), miningLevel)|
    {
      var rewards := GetRewards(host, entries, block);
      drops, used := [], 0;
      for i := 0 to |rewards|
        invariant used == |Eligible(rewards[..i], miningLevel)|
        invariant drops + Roll(rewards[i..], miningLevel, fortuneLevel, draws, used) == Roll(rewards, miningLevel, fortuneLevel, draws, 0)
      {
        var reward := rewards[i];
        ghost var dropped, drawn := drops, used;
        if miningLevel >= reward.miningLevel {
          if draws(used) <= Threshold(reward, fortuneLevel) {
            drops := drops + [reward.stack];
          }
          used := used + 1;
        }
        EligibleStep(rewards, i, miningLevel);
        RollStep(rewards, i, miningLevel, fortuneLevel, draws, drawn, dropped);
      }
      assert rewards[..|rewards|] == rewards;
    }

    /** `getRecipeList`. */
    method GetRecipeList() returns (recipes: seq<HammerRecipe<I, S>>)
      ensures recipes == RecipeList(host, entries)
    {
      recipes := [];
      var es, h := entries, host;
      for n := 0 to |es|
        invariant recipes == RecipesUpTo(h, es, n)
      {
        var forKey := KeyRecipes(h, es, es[n].key);
        recipes := recipes + forKey;
      }
    }
  }

  /** The body of the loop over the keys in `getRecipeList`: nothing for a null
      key, else the de-duplicated outputs of `getRewards(key)` cut into pages. */
  method KeyRecipes<I(==), S, B>(h: Host<I, S, B>, es: seq<Entry<I, S>>, key: I) returns (recipes: seq<HammerRecipe<I, S>>)
    ensures recipes == RecipesFor(h, es, key)
  {
    if h.isNull(key) {
      return [];
    }
    var rawOutputs := Stacks(RewardsOfKey(es, key));
    var allOutputs := DedupOutputs(h.stacksEquivalent, rawOutputs);
    var pages := Paginate(allOutputs);
    recipes := RecipePages(key, pages);
  }

  /** The `alreadyexists` loops of `getRecipeList`: keep a stack unless an
      equivalent one was kept before it. */
  method DedupOutputs<S>(eqv: (S, S) -> bool, rawOutputs: seq<S>) returns (allOutputs: seq<S>)
    ensures allOutputs == Dedup(eqv, rawOutputs)
  {
    allOutputs := [];
    for n := 0 to |rawOutputs|
      invariant allOutputs == Dedup(eqv, rawOutputs[..n])
    {
      var raw := rawOutputs[n];
      var alreadyExists := false;
      for k := 0 to |allOutputs|
        invariant !alreadyExists ==> forall j :: 0 <= j < k ==> !eqv(allOutputs[j], raw)
        invariant alreadyExists ==> HasEquivalent(eqv, allOutputs, raw)
      {
        if eqv(allOutputs[k], raw) {
          alreadyExists := true;
          break;
        }
      }
      assert rawOutputs[..n + 1][..n] == rawOutputs[..n];
      if !alreadyExists {
        allOutputs := allOutputs + [raw];
      }
    }
    assert rawOutputs[..|rawOutputs|] == rawOutputs;
  }

  /** The `i += 21` loop of `getRecipeList`: consecutive sub-lists of at most
      PageSize stacks. */
  method Paginate<S>(allOutputs: seq<S>) returns (pages: seq<seq<S>>)
    ensures pages == Pages(allOutputs)
  {
    pages := [];
    var i := 0;
    assert allOutputs[0..] == allOutputs;
    while i < |allOutputs|
      invariant 0 <= i
      invariant pages + Pages(allOutputs[Min(i, |allOutputs|)..]) == Pages(allOutputs)
      decreases |allOutputs| - i
    {
      var end := Min(i + PageSize, |allOutputs|);
      ghost var rest := allOutputs[i..];
      PagesFirst(rest);
      assert rest[..end - i] == allOutputs[i..end];
      assert rest[end - i..] == allOutputs[end..];
      assert Pages(rest) == [allOutputs[i..end]] + Pages(allOutputs[end..]);
      pages := pages + [allOutputs[i..end]];
      i := i + PageSize;
      assert Min(i, |allOutputs|) == end;
    }
    assert allOutputs[Min(i, |allOutputs|)..] == [];
  }

  /** One step of the drop roll: the reward at `i` takes draw `n` if the level
      reaches it, and the rest of the list rolls from the next draw. */
  lemma RollStep<S>(rs: seq<HammerReward<S>>, i: nat, miningLevel: int, fortuneLevel: int, draws: nat -> real, n: nat, dropped: seq<S>)
    requires i < |rs|
    ensures dropped + Roll(rs[i..], miningLevel, fortuneLevel, draws, n)
         == (if miningLevel >= rs[i].miningLevel && draws(n) <= Threshold(rs[i], fortuneLevel) then dropped + [rs[i].stack] else dropped)
            + Roll(rs[i + 1..], miningLevel, fortuneLevel, draws, if miningLevel >= rs[i].miningLevel then n + 1 else n)
  {
    assert rs[i..][1..] == rs[i + 1..];
    var rest := Roll(rs[i + 1..], miningLevel, fortuneLevel, draws, if miningLevel >= rs[i].miningLevel then n + 1 else n);
    if miningLevel >= rs[i].miningLevel && draws(n) <= Threshold(rs[i], fortuneLevel) {
      assert dropped + ([rs[i].stack] + rest) == (dropped + [rs[i].stack]) + rest;
    }
  }

  /** One step of the mining-level filter over a growing prefix. */
  lemma EligibleStep<S>(rs: seq<HammerReward<S>>, i: nat, miningLevel: int)
    requires i < |rs|
    ensures |Eligible(rs[..i + 1], miningLevel)| == |Eligible(rs[..i], miningLevel)| + (if rs[i].miningLevel <= miningLevel then 1 else 0)
  {
    assert rs[..i + 1] == rs[..i] + [rs[i]];
    EligibleConcat(rs[..i], [rs[i]], miningLevel);
  }

  /** A non-empty list's pages are its first PageSize stacks (or all of them)
      followed by the pages of the rest. */
  lemma PagesFirst<S>(ss: seq<S>)
    requires ss != []
    ensures Pages(ss) == [ss[..Min(PageSize, |ss|)]] + Pages(ss[Min(PageSize, |ss|)..])
  {
    if |ss| <= PageSize {
      assert ss[..|ss|] == ss;
      assert ss[|ss|..] == [];
    }
  }

  function Min(a: int, b: int): int
  {
    if a < b then a else b
  }
}
