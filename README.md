# Hammer registry of Ex Nihilo: Creatio

This project models the hammer registry of Ex Nihilo: Creatio. The registry maps
crafting ingredients to ordered lists of hammer rewards. A reward is:

- an item stack;
- the least hammer mining level that can drop it;
- a base chance;
- an extra chance per level of fortune.

The model covers these operations:

- **Registration.** A new ingredient's rewards go to the first key that
  `IngredientUtil.ingredientEquals` considers equivalent. If there is no such key,
  the ingredient is put as a new key. An empty item stack registers nothing.
  Loading a JSON file merges each parsed entry the same way.
- **Lookups.** The rewards of a block are the lists of every key whose `test`
  accepts the block's stack, and none for an invalid block. `isRegistered` says
  whether some key accepts the stack. The rewards of an ingredient are found by
  key identity. A deprecated lookup also filters by mining level.
- **The drop roll.** Every reward the hammer's mining level reaches consumes one
  `nextFloat` draw. It drops its stack when the draw is at most
  `chance + fortuneChance * fortuneLevel`.
- **The recipe list.** For every non-null key, its output stacks are
  de-duplicated by `areStacksEquivalent`, keeping the first of each group. They
  are then cut into pages of 21, with one recipe per page.

The project has four modules:

- `Seqs`: flattening a sequence of lists, and the sub-list relation.
- `HammerRules`: the table as values, with its invariants and the pure lookups
  and rolls.
- `RecipeView`: de-duplication, pagination and the recipe list.
- `Registry`: the `HammerRegistry` class. Its `entries` field is the registry
  map, and its methods update it in place. Each method's loops are proved
  against the functions above.

The engine's own predicates are function-valued fields of `HammerRules.Host`:

- ingredient equivalence;
- `Ingredient.test`;
- block validity and the block's stack;
- stack emptiness;
- stack equivalence;
- nullness of a key.

The model assumes nothing about these predicates beyond what a `requires` names.

`CraftingHelper.getIngredient(stack)` in `register(ItemStack, HammerReward)`
builds a new `Ingredient` object on every call. Its result is a parameter of
`RegisterStack`, and a `requires` states what `new` guarantees: the object is
not yet a key of the map. The map compares keys by identity, so such an object
is always added as a new key when no existing key is equivalent to it.

The keys of a JSON file are whatever `IngredientUtil.parseFromString` returns,
and the model assumes nothing about them: a key may already be in the map, or
repeat an earlier key of the file (a null result, say). The reward count of a
load is promised only when every parsed key is self-equivalent or a new object.

## Model

| member | source | states |
|---|---|---|
| HammerRules.FirstEquivalent | src/main/java/exnihilocreatio/registries/registries/HammerRegistry.java:102 | the key `findAny` finds is ingredientEquals to the new ingredient, no earlier key is, and none is found exactly when no key is equivalent |
| Registry.HammerRegistry.Register | src/main/java/exnihilocreatio/registries/registries/HammerRegistry.java:101-111 | the map becomes the merge of the reward into it; keys stay distinct, a map with no key equivalent to an earlier one stays so, and an ingredient that is self-equivalent or not yet a key adds exactly one reward |
| HammerRules.Merge | src/main/java/exnihilocreatio/registries/registries/HammerRegistry.java:101-111 | definition: append to the first equivalent key's list, else `put` the ingredient; its properties are the Merge lemmas below |
| HammerRules.Put | src/main/java/exnihilocreatio/registries/registries/HammerRegistry.java:109 | definition of `registry.put` on identity keys: replace the list of the very same key, else add the key last; stated by MergeAddsNewKey and MergeReplacesInequivalentKey |
| HammerRules.MergeAll | src/main/java/exnihilocreatio/registries/registries/HammerRegistry.java:53-65 | definition: each parsed entry merged in file order; stated by MergeAllKeepsInvariants and MergeAllCount |
| HammerRules.MergeKeepsInvariants | src/main/java/exnihilocreatio/registries/registries/HammerRegistry.java:101-111 | a merge keeps keys distinct, keeps "no key equivalent to an earlier one", and adds at most one key |
| HammerRules.MergeAppendsToEquivalentKey | src/main/java/exnihilocreatio/registries/registries/HammerRegistry.java:102-105 | with a first equivalent key, the rewards are appended to its list and every other entry is unchanged |
| HammerRules.MergeAddsNewKey | src/main/java/exnihilocreatio/registries/registries/HammerRegistry.java:106-110 | with no equivalent key, an ingredient that is not yet a key becomes one new last key holding exactly the new rewards |
| HammerRules.MergeReplacesInequivalentKey | src/main/java/exnihilocreatio/registries/registries/HammerRegistry.java:106-110 | if the very ingredient is already a key but not equivalent to itself, `put` replaces its list |
| HammerRules.MergeTwice | src/main/java/exnihilocreatio/registries/registries/HammerRegistry.java:101-111 | registering lists `a` then `b` for a self-equivalent ingredient equals registering `a + b` once |
| HammerRules.MergeCount | src/main/java/exnihilocreatio/registries/registries/HammerRegistry.java:101-111 | a merge of an ingredient that is self-equivalent or not yet a key loses no reward and adds exactly the new ones |
| HammerRules.MergeGrowsRewards | src/main/java/exnihilocreatio/registries/registries/HammerRegistry.java:101-111 | for an ingredient that is self-equivalent or not yet a key: after a registration a block's old rewards are a sub-list of its new ones, which grow by the new rewards exactly when the block is valid and the key they joined accepts its stack |
| Registry.HammerRegistry.RegisterStack | src/main/java/exnihilocreatio/registries/registries/HammerRegistry.java:89-94 | an empty stack leaves the map unchanged; otherwise the new ingredient object built for the stack is merged, so exactly one reward is added, and with no equivalent key the object becomes the new last key; keys stay distinct |
| Registry.HammerRegistry.RegisterEntriesFromJson | src/main/java/exnihilocreatio/registries/registries/HammerRegistry.java:53-65 | the map becomes every parsed entry merged in order; keys stay distinct, "no key equivalent to an earlier one" is kept, and when every parsed key is self-equivalent or a new object exactly the file's rewards are added |
| HammerRules.MergeAllKeepsInvariants | src/main/java/exnihilocreatio/registries/registries/HammerRegistry.java:53-65 | loading a file keeps both map invariants and adds at most one key per parsed entry |
| HammerRules.MergeAllCount | src/main/java/exnihilocreatio/registries/registries/HammerRegistry.java:53-65 | loading a file whose every key is self-equivalent or a new object adds exactly the file's rewards to the table |
| HammerRules.MergeAbsent | src/main/java/exnihilocreatio/registries/registries/HammerRegistry.java:101-111 | a merge adds no key other than the merged ingredient |
| HammerRules.MergeAllAbsent | src/main/java/exnihilocreatio/registries/registries/HammerRegistry.java:53-65 | loading a file adds no key other than the parsed ones |
| Registry.HammerRegistry.GetRewardDrops | src/main/java/exnihilocreatio/registries/registries/HammerRegistry.java:114-126 | the drops are the roll of the block's rewards, and the draws consumed are exactly the rewards the mining level reaches |
| HammerRules.Roll | src/main/java/exnihilocreatio/registries/registries/HammerRegistry.java:117-122 | definition of the drop loop over a reward list; stated by RollIsPerRewardTry, RollWithinEligible and RollBounds |
| HammerRules.RollIsPerRewardTry | src/main/java/exnihilocreatio/registries/registries/HammerRegistry.java:117-122 | the k-th reward the mining level reaches takes draw `next + k` and drops exactly when that draw is at most its threshold; unreachable rewards take no draw |
| HammerRules.RollWithinEligible | src/main/java/exnihilocreatio/registries/registries/HammerRegistry.java:117-122 | only rewards the hammer's level reaches can drop, in their order |
| HammerRules.RollBounds | src/main/java/exnihilocreatio/registries/registries/HammerRegistry.java:117-122 | the drops are an ordered sub-list of the rewards' stacks, no more than the reachable rewards |
| HammerRules.RollCertain | src/main/java/exnihilocreatio/registries/registries/HammerRegistry.java:118-120 | with draws in [0, 1) and every reachable threshold at least 1, every reachable reward drops |
| HammerRules.RollNever | src/main/java/exnihilocreatio/registries/registries/HammerRegistry.java:118-120 | with draws in [0, 1) and every reachable threshold negative, nothing drops |
| Registry.RollStep | src/main/java/exnihilocreatio/registries/registries/HammerRegistry.java:118-122 | one iteration of the drop loop: a reachable reward takes the current draw and drops on success; the rest rolls from the next draw |
| Registry.EligibleStep | src/main/java/exnihilocreatio/registries/registries/HammerRegistry.java:118 | one iteration consumes a draw exactly when the level reaches the reward |
| HammerRules.GetRewards | src/main/java/exnihilocreatio/registries/registries/HammerRegistry.java:139-144 | definition of `getRewards(BlockInfo)`; stated by GetRewardsContents |
| HammerRules.IsRegistered | src/main/java/exnihilocreatio/registries/registries/HammerRegistry.java:169-171 | definition of `isRegistered(BlockInfo)`; stated by RewardsImplyRegistered and RegisteredImpliesRewards |
| HammerRules.RewardsOfKey | src/main/java/exnihilocreatio/registries/registries/HammerRegistry.java:147-151 | definition of `getRewards(Ingredient)`; stated by RewardsOfKeyIsOwnList and RewardsOfAbsentKey |
| HammerRules.LegacyRewards | src/main/java/exnihilocreatio/registries/registries/HammerRegistry.java:175-183 | definition of the legacy `getRewards(IBlockState, int)`; stated by LegacyIsFilteredLookup |
| HammerRules.GetRewardsContents | src/main/java/exnihilocreatio/registries/registries/HammerRegistry.java:139-144 | an invalid block has no rewards; otherwise a reward is returned iff it is listed under a key whose test accepts the block's stack |
| HammerRules.MatchingMembers | src/main/java/exnihilocreatio/registries/registries/HammerRegistry.java:142 | the filtered concatenation holds a reward iff some accepting key lists it |
| HammerRules.MatchingAppend | src/main/java/exnihilocreatio/registries/registries/HammerRegistry.java:142 | a key added last contributes its list at the end, iff it accepts the stack |
| HammerRules.MatchingExtend | src/main/java/exnihilocreatio/registries/registries/HammerRegistry.java:142 | extending one key's list extends the lookup as a super-list, by that many rewards iff the key accepts the stack |
| HammerRules.RewardsImplyRegistered | src/main/java/exnihilocreatio/registries/registries/HammerRegistry.java:169-171 | a block with rewards is registered |
| HammerRules.RegisteredImpliesRewards | src/main/java/exnihilocreatio/registries/registries/HammerRegistry.java:169-171 | a valid registered block has rewards when no list is empty |
| HammerRules.RewardsOfKeyIsOwnList | src/main/java/exnihilocreatio/registries/registries/HammerRegistry.java:147-151 | with distinct keys, the lookup by a key returns exactly that key's list |
| HammerRules.RewardsOfAbsentKey | src/main/java/exnihilocreatio/registries/registries/HammerRegistry.java:147-151 | the lookup by an ingredient that is not a key is empty |
| HammerRules.LegacyIsFilteredLookup | src/main/java/exnihilocreatio/registries/registries/HammerRegistry.java:175-183 | the legacy lookup is the block lookup, without the validity check, filtered by mining level |
| HammerRules.EligibleIsFilter | src/main/java/exnihilocreatio/registries/registries/HammerRegistry.java:180 | the mining-level filter keeps order, keeps only rewards at or below the level, and keeps each of those as many times as it occurs |
| HammerRules.EligibleConcat | src/main/java/exnihilocreatio/registries/registries/HammerRegistry.java:180 | filtering distributes over concatenation |
| RecipeView.RecipeList | src/main/java/exnihilocreatio/registries/registries/HammerRegistry.java:186-211 | definition: the recipes of every key in iteration order; stated by RecipeListShape and RecipeListOutputs |
| RecipeView.RecipesFor | src/main/java/exnihilocreatio/registries/registries/HammerRegistry.java:189-208 | definition of the recipes of one key; stated by RecipesForKey and RecipesForShape |
| Registry.HammerRegistry.GetRecipeList | src/main/java/exnihilocreatio/registries/registries/HammerRegistry.java:186-211 | the result is the recipes of every key in iteration order |
| Registry.KeyRecipes | src/main/java/exnihilocreatio/registries/registries/HammerRegistry.java:189-208 | the body of the key loop yields the recipes of that key: none for a null key |
| RecipeView.RecipesForKey | src/main/java/exnihilocreatio/registries/registries/HammerRegistry.java:189-208 | a key's recipes all have the key as input and 1 to 21 outputs, their outputs concatenate to the key's de-duplicated stacks, and there are ceil(n / 21) of them |
| RecipeView.RecipesForShape | src/main/java/exnihilocreatio/registries/registries/HammerRegistry.java:189-208 | every recipe for a key has that non-null key as input and 1 to 21 outputs |
| RecipeView.RecipeListShape | src/main/java/exnihilocreatio/registries/registries/HammerRegistry.java:186-211 | every recipe of the list comes from a non-null key of the map and has 1 to 21 outputs |
| RecipeView.RecipeListOutputs | src/main/java/exnihilocreatio/registries/registries/HammerRegistry.java:186-211 | with distinct keys, the outputs of all recipes, concatenated, are each non-null key's de-duplicated outputs, key after key |
| RecipeView.RecipeListOutputsStep | src/main/java/exnihilocreatio/registries/registries/HammerRegistry.java:188-208 | one more key adds its own de-duplicated outputs at the end |
| RecipeView.KeyRecipesOutputs | src/main/java/exnihilocreatio/registries/registries/HammerRegistry.java:189-208 | the outputs of one key's recipes, concatenated, are its own de-duplicated outputs, or nothing for a null key |
| Registry.DedupOutputs | src/main/java/exnihilocreatio/registries/registries/HammerRegistry.java:192-203 | the nested `alreadyexists` loops compute the de-duplicated list |
| RecipeView.Dedup | src/main/java/exnihilocreatio/registries/registries/HammerRegistry.java:192-203 | no two stacks of the de-duplicated list are equivalent (earlier one first) |
| RecipeView.DedupKeepsFirst | src/main/java/exnihilocreatio/registries/registries/HammerRegistry.java:192-203 | the de-duplicated list is an ordered sub-list, every raw stack is kept or equivalent to a kept one, a stack with no equivalent stack before it is kept, and a dropped stack has an earlier kept stack equivalent to it |
| RecipeView.DedupDropsOnlyCovered | src/main/java/exnihilocreatio/registries/registries/HammerRegistry.java:193-202 | a stack is dropped only when an earlier kept stack is equivalent to it (no assumption that equivalence is transitive) |
| Registry.Paginate | src/main/java/exnihilocreatio/registries/registries/HammerRegistry.java:205-208 | the `i += 21` loop yields the pages of the list |
| RecipeView.Pages | src/main/java/exnihilocreatio/registries/registries/HammerRegistry.java:205-208 | definition of the pages; stated by PagesShape |
| RecipeView.PagesShape | src/main/java/exnihilocreatio/registries/registries/HammerRegistry.java:205-208 | the pages concatenate back to the list, each holds 1 to 21 stacks, and there are ceil(n / 21) of them |
| Registry.PagesFirst | src/main/java/exnihilocreatio/registries/registries/HammerRegistry.java:206 | a page is the next `min(i + 21, size)` stacks and the rest are the pages of the remainder |

## Left out

- JSON reading: Gson, `FileReader` and `IngredientUtil.parseFromString` are not part of this model. `RegisterEntriesFromJson` takes the already parsed entries, in the order the parsed map yields them. Nothing is assumed about the parsed keys: any of them may already be a key of the map or repeat an earlier one.
- Random numbers are a parameter: `draws` is the stream of values `Random.nextFloat` returns from the call on.
- The `float` arithmetic of `chance + fortuneChance * fortuneLevel` is modelled on reals, so rounding is not modelled.
- The overloads that only build an engine object and delegate are not modelled separately: `register` at lines 77-87 and 96-99, `getRewards` at lines 129-136, and `isRegistered`/`registered` at lines 153-167. Their targets are modelled.
- `ItemStack.copy`, `Ingredient.getMatchingStacks` and the construction of a `HammerRecipe` are opaque. A recipe records the key it was built for and its page of output stacks.
- `HashMap` iteration order is modelled as insertion order: new keys go last. The real order is hash-dependent, so the results that name positions hold for the order the map yields.
- `FirstEquivalent`: `findAny` on a sequential stream is taken to return the first equivalent key in iteration order.
- A null key would make `test` throw in the block lookups. The model only captures the null check of `getRecipeList`.
- HammerRules.MergeTwice requires the ingredient to be `ingredientEquals` to itself. Registering the same object twice otherwise makes the second `put` replace the first list, as `MergeReplacesInequivalentKey` states. `RegisterStack` passes a new object each time. A JSON file whose keys parse to the same object twice is modelled as written: the later `put` replaces the earlier list.
- HammerRules.MergeCount, HammerRules.MergeAllCount and HammerRules.MergeGrowsRewards require each ingredient to be self-equivalent or not yet a key. Those are the cases where no list is replaced.
- `BlockStoneAxle.java` and `EnderIO.java` are not part of this model. They only call the registry.
