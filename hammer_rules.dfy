/** The hammer-crushing rules table as values: rewards, the entries of the
    registry map, and the pure operations over them (merging new rewards
    into the table, looking rewards up for a block, rolling drops). */
module HammerRules {
  import opened Seqs

  datatype Option<T> = None | Some(value: T)

  /** A hammer reward: the stack dropped, the least hammer mining level that
      can drop it, the base chance and the extra chance per fortune level. */
  datatype HammerReward<S> = HammerReward(stack: S, miningLevel: int, chance: real, fortuneChance: real)

  /** One entry of the registry map: an ingredient key and its ordered rewards.
      A parsed JSON file is also a sequence of such entries. */
  datatype Entry<I, S> = Entry(key: I, rewards: seq<HammerReward<S>>)

  /** What the host engine decides and the registry only calls:
      - ingredientEquals: IngredientUtil.ingredientEquals (new ingredient first)
      - test: Ingredient.test on an item stack
      - isValid, stackOf: BlockInfo.isValid and BlockInfo.getItemStack
      - isEmpty: ItemStack.isEmpty
      - stacksEquivalent: ItemUtil.areStacksEquivalent
      - isNull: whether a key is the null reference */
  datatype Host<!I, !S, !B> = Host(
    ingredientEquals: (I, I) -> bool,
    test: (I, S) -> bool,
    isValid: B -> bool,
    stackOf: B -> S,
    isEmpty: S -> bool,
    stacksEquivalent: (S, S) -> bool,
    isNull: I -> bool)

  // ---------------------------------------------------------------------
  // The map's invariants
  // ---------------------------------------------------------------------

  /** A map holds each key once (keys are compared by identity). */
  ghost predicate KeysDistinct<I, S>(es: seq<Entry<I, S>>)
  {
    forall i, j :: 0 <= i < j < |es| ==> es[i].key != es[j].key
  }

  /** No key is ingredientEquals to a key that comes before it. */
  ghost predicate NoEquivalentKeys<I, S>(eq: (I, I) -> bool, es: seq<Entry<I, S>>)
  {
    forall i, j :: 0 <= i < j < |es| ==> !eq(es[j].key, es[i].key)
  }

  /** `k` is not a key of the map. A newly built ingredient object, such as the
      one `CraftingHelper.getIngredient` or the JSON parser returns, is not. */
  ghost predicate Absent<I, S>(es: seq<Entry<I, S>>, k: I)
  {
    forall j :: 0 <= j < |es| ==> es[j].key != k
  }

  /** The key of parsed entry `k` is a new object: not a key of the map and not
      the key of an earlier entry of the file. */
  ghost predicate NewKey<I, S>(es: seq<Entry<I, S>>, parsed: seq<Entry<I, S>>, k: nat)
    requires k < |parsed|
  {
    Absent(es, parsed[k].key) && Absent(parsed[..k], parsed[k].key)
  }

  /** Number of rewards stored under all keys together. */
  function TotalRewards<I, S>(es: seq<Entry<I, S>>): nat
    decreases |es|
  {
    if es == [] then 0 else |es[0].rewards| + TotalRewards(es[1..])
  }

  // ---------------------------------------------------------------------
  // Insertion with de-duplication of equivalent keys
  // ---------------------------------------------------------------------

  /** The key found by `keySet().stream().filter(ingredientEquals(ing, _)).findAny()`:
      the first equivalent key in iteration order, or none. */
  function FirstEquivalent<I, S>(eq: (I, I) -> bool, es: seq<Entry<I, S>>, ing: I): (r: Option<nat>)
    ensures r.Some? ==> r.value < |es| && eq(ing, es[r.value].key)
    ensures r.Some? ==> forall j :: 0 <= j < r.value ==> !eq(ing, es[j].key)
    ensures r.None? <==> forall j :: 0 <= j < |es| ==> !eq(ing, es[j].key)
    decreases |es|
  {
    if es == [] then None
    else if eq(ing, es[0].key) then Some(0)
    else match FirstEquivalent(eq, es[1..], ing)
      case None => None
      case Some(i) => Some(i + 1)
  }

  /** Position of the very key `k` (identity), as the map's own lookup finds it. */
  function IndexOf<I(==), S>(es: seq<Entry<I, S>>, k: I): (r: Option<nat>)
    ensures r.Some? ==> r.value < |es| && es[r.value].key == k
    ensures r.None? <==> forall j :: 0 <= j < |es| ==> es[j].key != k
    decreases |es|
  {
    if es == [] then None
    else if es[0].key == k then Some(0)
    else match IndexOf(es[1..], k)
      case None => None
      case Some(i) => Some(i + 1)
  }

  /** `registry.put(k, rs)`: replaces the list of the key `k` if it is present,
      otherwise adds `k` as a new key. */
  function Put<I(==), S>(es: seq<Entry<I, S>>, k: I, rs: seq<HammerReward<S>>): seq<Entry<I, S>>
  {
    match IndexOf(es, k)
    case Some(i) => es[i := Entry(k, rs)]
    case None => es + [Entry(k, rs)]
  }

  /** The merge step of `register(Ingredient, HammerReward)` (with `rs == [reward]`)
      and of each parsed entry in `registerEntriesFromJSON`: append `rs` to the list
      of the first equivalent key; with none, `put` the ingredient with a fresh list. */
  function Merge<I(==), S>(eq: (I, I) -> bool, es: seq<Entry<I, S>>, ing: I, rs: seq<HammerReward<S>>): seq<Entry<I, S>>
  {
    match FirstEquivalent(eq, es, ing)
    case Some(i) => es[i := Entry(es[i].key, es[i].rewards + rs)]
    case None => Put(es, ing, rs)
  }

  /** The key whose list `Merge(eq, es, ing, _)` extends or creates. */
  function MergeTarget<I, S>(eq: (I, I) -> bool, es: seq<Entry<I, S>>, ing: I): I
  {
    match FirstEquivalent(eq, es, ing)
    case Some(i) => es[i].key
    case None => ing
  }

  /** `registerEntriesFromJSON`: every parsed entry merged in turn. */
  function MergeAll<I(==), S>(eq: (I, I) -> bool, es: seq<Entry<I, S>>, parsed: seq<Entry<I, S>>): seq<Entry<I, S>>
    decreases |parsed|
  {
    if parsed == [] then es
    else
      var last := parsed[|parsed| - 1];
      Merge(eq, MergeAll(eq, es, parsed[..|parsed| - 1]), last.key, last.rewards)
  }

  /** Merging keeps the map's keys distinct and, when no key was equivalent to
      an earlier one, keeps it so; it adds at most one key. */
  lemma MergeKeepsInvariants<I, S>(eq: (I, I) -> bool, es: seq<Entry<I, S>>, ing: I, rs: seq<HammerReward<S>>)
    ensures KeysDistinct(es) ==> KeysDistinct(Merge(eq, es, ing, rs))
    ensures NoEquivalentKeys(eq, es) ==> NoEquivalentKeys(eq, Merge(eq, es, ing, rs))
    ensures |es| <= |Merge(eq, es, ing, rs)| <= |es| + 1
  {
    var r := Merge(eq, es, ing, rs);
    match FirstEquivalent(eq, es, ing)
    case Some(i) =>
      assert r == es[i := Entry(es[i].key, es[i].rewards + rs)];
      SameKeysSameInvariants(eq, es, r);
    case None =>
      match IndexOf(es, ing)
      case Some(k) =>
        assert r == es[k := Entry(ing, rs)];
        SameKeysSameInvariants(eq, es, r);
      case None =>
        assert r == es + [Entry(ing, rs)];
        assert forall j :: 0 <= j < |es| ==> r[j] == es[j];
  }

  lemma SameKeysSameInvariants<I, S>(eq: (I, I) -> bool, es: seq<Entry<I, S>>, r: seq<Entry<I, S>>)
    requires |r| == |es| && forall j :: 0 <= j < |es| ==> r[j].key == es[j].key
    ensures KeysDistinct(es) ==> KeysDistinct(r)
    ensures NoEquivalentKeys(eq, es) ==> NoEquivalentKeys(eq, r)
  {
  }

  /** Loading a whole file keeps the same invariants and adds at most one key
      per parsed entry. */
  lemma {:induction false} MergeAllKeepsInvariants<I, S>(eq: (I, I) -> bool, es: seq<Entry<I, S>>, parsed: seq<Entry<I, S>>)
    ensures KeysDistinct(es) ==> KeysDistinct(MergeAll(eq, es, parsed))
    ensures NoEquivalentKeys(eq, es) ==> NoEquivalentKeys(eq, MergeAll(eq, es, parsed))
    ensures |es| <= |MergeAll(eq, es, parsed)| <= |es| + |parsed|
    decreases |parsed|
  {
    if parsed != [] {
      var init, last := parsed[..|parsed| - 1], parsed[|parsed| - 1];
      MergeAllKeepsInvariants(eq, es, init);
      MergeKeepsInvariants(eq, MergeAll(eq, es, init), last.key, last.rewards);
    }
  }

  /** A merge adds no key other than the merged ingredient. */
  lemma MergeAbsent<I, S>(eq: (I, I) -> bool, es: seq<Entry<I, S>>, ing: I, rs: seq<HammerReward<S>>, k: I)
    requires Absent(es, k) && k != ing
    ensures Absent(Merge(eq, es, ing, rs), k)
  {
    var r := Merge(eq, es, ing, rs);
    match FirstEquivalent(eq, es, ing)
    case Some(i) =>
      assert r == es[i := Entry(es[i].key, es[i].rewards + rs)];
    case None =>
      match IndexOf(es, ing)
      case Some(j) =>
        assert r == es[j := Entry(ing, rs)];
      case None =>
        assert r == es + [Entry(ing, rs)];
  }

  /** Loading a file adds no key other than the parsed ones. */
  lemma {:induction false} MergeAllAbsent<I, S>(eq: (I, I) -> bool, es: seq<Entry<I, S>>, parsed: seq<Entry<I, S>>, k: I)
    requires Absent(es, k) && Absent(parsed, k)
    ensures Absent(MergeAll(eq, es, parsed), k)
    decreases |parsed|
  {
    if parsed != [] {
      var init, last := parsed[..|parsed| - 1], parsed[|parsed| - 1];
      assert Absent(init, k);
      MergeAllAbsent(eq, es, init, k);
      MergeAbsent(eq, MergeAll(eq, es, init), last.key, last.rewards, k);
    }
  }

  /** With an equivalent key, the rewards go to the end of the first such key's
      list; the keys and every other list stay as they were. */
  lemma MergeAppendsToEquivalentKey<I, S>(eq: (I, I) -> bool, es: seq<Entry<I, S>>, ing: I, rs: seq<HammerReward<S>>, i: nat)
    requires i < |es| && eq(ing, es[i].key)
    requires forall j :: 0 <= j < i ==> !eq(ing, es[j].key)
    ensures |Merge(eq, es, ing, rs)| == |es|
    ensures Merge(eq, es, ing, rs)[i] == Entry(es[i].key, es[i].rewards + rs)
    ensures forall j :: 0 <= j < |es| && j != i ==> Merge(eq, es, ing, rs)[j] == es[j]
  {
    var f := FirstEquivalent(eq, es, ing);
  }

  /** With no equivalent key, an ingredient that is not yet a key (a new object,
      or any self-equivalent one) is added as exactly one new key, at the end,
      holding exactly the new rewards. */
  lemma MergeAddsNewKey<I, S>(eq: (I, I) -> bool, es: seq<Entry<I, S>>, ing: I, rs: seq<HammerReward<S>>)
    requires forall j :: 0 <= j < |es| ==> !eq(ing, es[j].key)
    requires Absent(es, ing)
    ensures Merge(eq, es, ing, rs) == es + [Entry(ing, rs)]
  {
    var k := IndexOf(es, ing);
  }

  /** With no equivalent key, an ingredient that is already a key (possible only
      when it is not ingredientEquals to itself) has its list replaced by `put`. */
  lemma MergeReplacesInequivalentKey<I, S>(eq: (I, I) -> bool, es: seq<Entry<I, S>>, ing: I, rs: seq<HammerReward<S>>, i: nat)
    requires forall j :: 0 <= j < |es| ==> !eq(ing, es[j].key)
    requires i < |es| && es[i].key == ing && KeysDistinct(es)
    ensures Merge(eq, es, ing, rs) == es[i := Entry(ing, rs)]
  {
    var k := IndexOf(es, ing);
    assert k.Some?;
    assert k.value == i;
  }

  /** Registering a self-equivalent ingredient twice is the same as registering
      both reward lists at once: so one JSON entry with rewards `a + b` and two
      `register` calls build the same table. */
  lemma MergeTwice<I, S>(eq: (I, I) -> bool, es: seq<Entry<I, S>>, ing: I, a: seq<HammerReward<S>>, b: seq<HammerReward<S>>)
    requires eq(ing, ing)
    ensures Merge(eq, Merge(eq, es, ing, a), ing, b) == Merge(eq, es, ing, a + b)
  {
    match FirstEquivalent(eq, es, ing)
    case Some(i) => MergeTwiceFound(eq, es, ing, a, b, i);
    case None => MergeTwiceNew(eq, es, ing, a, b);
  }

  lemma MergeTwiceFound<I, S>(eq: (I, I) -> bool, es: seq<Entry<I, S>>, ing: I, a: seq<HammerReward<S>>, b: seq<HammerReward<S>>, i: nat)
    requires FirstEquivalent(eq, es, ing) == Some(i)
    ensures Merge(eq, Merge(eq, es, ing, a), ing, b) == Merge(eq, es, ing, a + b)
  {
    var k, l := es[i].key, es[i].rewards;
    var es1 := es[i := Entry(k, l + a)];
    calc {
      Merge(eq, Merge(eq, es, ing, a), ing, b);
      { MergeFound(eq, es, ing, a, i); }
      Merge(eq, es1, ing, b);
      { FirstEquivalentUpdate(eq, es, ing, i, Entry(k, l + a));
        MergeFound(eq, es1, ing, b, i); }
      es1[i := Entry(k, l + a + b)];
      { assert l + a + b == l + (a + b);
        UpdateTwice(es, i, Entry(k, l + a), Entry(k, l + (a + b))); }
      es[i := Entry(k, l + (a + b))];
      { MergeFound(eq, es, ing, a + b, i); }
      Merge(eq, es, ing, a + b);
    }
  }

  lemma MergeFound<I, S>(eq: (I, I) -> bool, es: seq<Entry<I, S>>, ing: I, rs: seq<HammerReward<S>>, i: nat)
    requires FirstEquivalent(eq, es, ing) == Some(i)
    ensures i < |es| && Merge(eq, es, ing, rs) == es[i := Entry(es[i].key, es[i].rewards + rs)]
  {
  }

  /** The equivalent key found depends only on the keys, not on the lists. */
  lemma {:induction false} FirstEquivalentUpdate<I, S>(eq: (I, I) -> bool, es: seq<Entry<I, S>>, ing: I, i: nat, e: Entry<I, S>)
    requires i < |es| && e.key == es[i].key
    ensures FirstEquivalent(eq, es[i := e], ing) == FirstEquivalent(eq, es, ing)
    decreases |es|
  {
    if i > 0 {
      assert es[i := e][1..] == es[1..][i - 1 := e];
      FirstEquivalentUpdate(eq, es[1..], ing, i - 1, e);
    } else {
      assert es[i := e][1..] == es[1..];
    }
  }

  lemma UpdateTwice<T>(s: seq<T>, i: nat, x: T, y: T)
    requires i < |s|
    ensures s[i := x][i := y] == s[i := y]
  {
  }

  lemma MergeTwiceNew<I, S>(eq: (I, I) -> bool, es: seq<Entry<I, S>>, ing: I, a: seq<HammerReward<S>>, b: seq<HammerReward<S>>)
    requires FirstEquivalent(eq, es, ing) == None
    requires eq(ing, ing)
    ensures Merge(eq, Merge(eq, es, ing, a), ing, b) == Merge(eq, es, ing, a + b)
  {
    var es1 := es + [Entry(ing, a)];
    assert Absent(es, ing);
    MergeAddsNewKey(eq, es, ing, a);
    MergeAddsNewKey(eq, es, ing, a + b);
    var f := FirstEquivalent(eq, es1, ing);
    assert es1[|es|].key == ing;
    assert forall j :: 0 <= j < |es| ==> es1[j] == es[j];
    assert f == Some(|es|);
    assert Merge(eq, es1, ing, b) == es1[|es| := Entry(ing, a + b)];
  }

  lemma {:induction false} TotalRewardsUpdate<I, S>(es: seq<Entry<I, S>>, i: nat, e: Entry<I, S>)
    requires i < |es|
    ensures TotalRewards(es[i := e]) + |es[i].rewards| == TotalRewards(es) + |e.rewards|
    decreases |es|
  {
    if i > 0 {
      TotalRewardsUpdate(es[1..], i - 1, e);
      assert es[i := e][1..] == es[1..][i - 1 := e];
    } else {
      assert es[i := e][1..] == es[1..];
    }
  }

  lemma {:induction false} TotalRewardsAppend<I, S>(es: seq<Entry<I, S>>, e: Entry<I, S>)
    ensures TotalRewards(es + [e]) == TotalRewards(es) + |e.rewards|
    decreases |es|
  {
    if es == [] {
      assert es + [e] == [e];
      assert [e][1..] == [];
    } else {
      TotalRewardsAppend(es[1..], e);
      assert (es + [e])[1..] == es[1..] + [e];
    }
  }

  /** Merging an ingredient that is self-equivalent or not yet a key loses no
      reward and adds exactly `rs`. */
  lemma MergeCount<I, S>(eq: (I, I) -> bool, es: seq<Entry<I, S>>, ing: I, rs: seq<HammerReward<S>>)
    requires eq(ing, ing) || Absent(es, ing)
    ensures TotalRewards(Merge(eq, es, ing, rs)) == TotalRewards(es) + |rs|
  {
    match FirstEquivalent(eq, es, ing)
    case Some(i) =>
      TotalRewardsUpdate(es, i, Entry(es[i].key, es[i].rewards + rs));
    case None =>
      assert Absent(es, ing);
      MergeAddsNewKey(eq, es, ing, rs);
      TotalRewardsAppend(es, Entry(ing, rs));
  }

  /** Loading a JSON file whose every key is self-equivalent or a new object adds
      exactly the rewards of the file to the table. */
  lemma {:induction false} MergeAllCount<I, S>(eq: (I, I) -> bool, es: seq<Entry<I, S>>, parsed: seq<Entry<I, S>>)
    requires forall k :: 0 <= k < |parsed| ==> eq(parsed[k].key, parsed[k].key) || NewKey(es, parsed, k)
    ensures TotalRewards(MergeAll(eq, es, parsed)) == TotalRewards(es) + TotalRewards(parsed)
    decreases |parsed|
  {
    if parsed != [] {
      var init, last := parsed[..|parsed| - 1], parsed[|parsed| - 1];
      var mid := MergeAll(eq, es, init);
      assert TotalRewards(mid) == TotalRewards(es) + TotalRewards(init) by {
        forall k | 0 <= k < |init|
          ensures eq(init[k].key, init[k].key) || NewKey(es, init, k)
        {
          assert init[..k] == parsed[..k];
        }
        MergeAllCount(eq, es, init);
      }
      assert eq(last.key, last.key) || Absent(mid, last.key) by {
        if !eq(last.key, last.key) {
          assert NewKey(es, parsed, |init|);
          MergeAllAbsent(eq, es, init, last.key);
        }
      }
      MergeCount(eq, mid, last.key, last.rewards);
      assert TotalRewards(parsed) == TotalRewards(init) + |last.rewards| by {
        assert parsed == init + [last];
        TotalRewardsAppend(init, last);
      }
    }
  }

  // ---------------------------------------------------------------------
  // Lookup
  // ---------------------------------------------------------------------

  /** The lists of every key whose predicate accepts `s`, concatenated in order. */
  function Matching<I, S>(test: (I, S) -> bool, es: seq<Entry<I, S>>, s: S): seq<HammerReward<S>>
    decreases |es|
  {
    if es == [] then []
    else (if test(es[0].key, s) then es[0].rewards else []) + Matching(test, es[1..], s)
  }

  /** `getRewards(BlockInfo)`. */
  function GetRewards<I, S, B>(h: Host<I, S, B>, es: seq<Entry<I, S>>, b: B): seq<HammerReward<S>>
  {
    if h.isValid(b) then Matching(h.test, es, h.stackOf(b)) else []
  }

  /** `isRegistered(BlockInfo)`: some key accepts the block's stack (no validity check). */
  predicate IsRegistered<I, S, B>(h: Host<I, S, B>, es: seq<Entry<I, S>>, b: B)
  {
    exists i :: 0 <= i < |es| && h.test(es[i].key, h.stackOf(b))
  }

  /** `getRewards(Ingredient)`: the lists of the keys identical to `ing`. */
  function RewardsOfKey<I(==), S>(es: seq<Entry<I, S>>, ing: I): seq<HammerReward<S>>
    decreases |es|
  {
    if es == [] then []
    else (if es[0].key == ing then es[0].rewards else []) + RewardsOfKey(es[1..], ing)
  }

  lemma {:induction false} MatchingMembers<I, S>(test: (I, S) -> bool, es: seq<Entry<I, S>>, s: S, x: HammerReward<S>)
    ensures x in Matching(test, es, s) <==> exists i :: 0 <= i < |es| && test(es[i].key, s) && x in es[i].rewards
    decreases |es|
  {
    if es != [] {
      MatchingMembers(test, es[1..], s, x);
      if x in Matching(test, es[1..], s) {
        var i :| 0 <= i < |es[1..]| && test(es[1..][i].key, s) && x in es[1..][i].rewards;
        assert es[i + 1] == es[1..][i];
      }
      if exists i :: 0 <= i < |es| && test(es[i].key, s) && x in es[i].rewards {
        var i :| 0 <= i < |es| && test(es[i].key, s) && x in es[i].rewards;
        if i > 0 {
          assert es[1..][i - 1] == es[i];
        }
      }
    }
  }

  /** `getRewards(BlockInfo)` is empty for an invalid block, and otherwise holds
      exactly the rewards listed under the keys that accept the block's stack. */
  lemma GetRewardsContents<I, S, B>(h: Host<I, S, B>, es: seq<Entry<I, S>>, b: B, x: HammerReward<S>)
    ensures !h.isValid(b) ==> GetRewards(h, es, b) == []
    ensures x in GetRewards(h, es, b) <==>
      h.isValid(b) && exists i :: 0 <= i < |es| && h.test(es[i].key, h.stackOf(b)) && x in es[i].rewards
  {
    MatchingMembers(h.test, es, h.stackOf(b), x);
  }

  /** A block with rewards is registered. */
  lemma RewardsImplyRegistered<I, S, B>(h: Host<I, S, B>, es: seq<Entry<I, S>>, b: B)
    requires GetRewards(h, es, b) != []
    ensures IsRegistered(h, es, b)
  {
    var x := GetRewards(h, es, b)[0];
    MatchingMembers(h.test, es, h.stackOf(b), x);
  }

  /** A valid registered block has rewards when no key has an empty list. */
  lemma RegisteredImpliesRewards<I, S, B>(h: Host<I, S, B>, es: seq<Entry<I, S>>, b: B)
    requires h.isValid(b) && IsRegistered(h, es, b)
    requires forall i :: 0 <= i < |es| ==> es[i].rewards != []
    ensures GetRewards(h, es, b) != []
  {
    var i :| 0 <= i < |es| && h.test(es[i].key, h.stackOf(b));
    MatchingMembers(h.test, es, h.stackOf(b), es[i].rewards[0]);
  }

  /** `getRewards(Ingredient)` of an ingredient that is not a key is empty. */
  lemma {:induction false} RewardsOfAbsentKey<I, S>(es: seq<Entry<I, S>>, ing: I)
    requires Absent(es, ing)
    ensures RewardsOfKey(es, ing) == []
    decreases |es|
  {
    if es != [] {
      assert forall j :: 0 <= j < |es[1..]| ==> es[1..][j] == es[j + 1];
      RewardsOfAbsentKey(es[1..], ing);
    }
  }

  /** In a map with distinct keys, `getRewards(Ingredient)` of a key is that
      key's own list. */
  lemma {:induction false} RewardsOfKeyIsOwnList<I, S>(es: seq<Entry<I, S>>, i: nat)
    requires KeysDistinct(es) && i < |es|
    ensures RewardsOfKey(es, es[i].key) == es[i].rewards
    decreases |es|
  {
    assert forall j :: 0 <= j < |es[1..]| ==> es[1..][j] == es[j + 1];
    if i == 0 {
      RewardsOfAbsentKey(es[1..], es[0].key);
      assert es[0].rewards + [] == es[0].rewards;
    } else {
      assert es[0].key != es[i].key;
      RewardsOfKeyIsOwnList(es[1..], i - 1);
    }
  }

  lemma {:induction false} MatchingAppend<I, S>(test: (I, S) -> bool, es: seq<Entry<I, S>>, e: Entry<I, S>, s: S)
    ensures Matching(test, es + [e], s) == Matching(test, es, s) + (if test(e.key, s) then e.rewards else [])
    decreases |es|
  {
    if es == [] {
      assert es + [e] == [e];
      assert [e][1..] == [];
    } else {
      MatchingAppend(test, es[1..], e, s);
      assert (es + [e])[1..] == es[1..] + [e];
    }
  }

  lemma {:induction false} MatchingExtend<I, S>(test: (I, S) -> bool, es: seq<Entry<I, S>>, i: nat, more: seq<HammerReward<S>>, s: S)
    requires i < |es|
    ensures IsSubsequence(Matching(test, es, s), Matching(test, es[i := Entry(es[i].key, es[i].rewards + more)], s))
    ensures |Matching(test, es[i := Entry(es[i].key, es[i].rewards + more)], s)|
         == |Matching(test, es, s)| + (if test(es[i].key, s) then |more| else 0)
    decreases |es|
  {
    var es' := es[i := Entry(es[i].key, es[i].rewards + more)];
    var rest := Matching(test, es[1..], s);
    if i == 0 {
      assert es'[1..] == es[1..];
      var head := if test(es[0].key, s) then es[0].rewards else [];
      var head' := if test(es[0].key, s) then es[0].rewards + more else [];
      SubsequenceOfExtension(head, if test(es[0].key, s) then more else []);
      SubsequenceReflexive(rest);
      SubsequenceConcat(head, head', rest, rest);
    } else {
      assert es'[1..] == es[1..][i - 1 := Entry(es[1..][i - 1].key, es[1..][i - 1].rewards + more)];
      MatchingExtend(test, es[1..], i - 1, more, s);
      var head := if test(es[0].key, s) then es[0].rewards else [];
      SubsequenceReflexive(head);
      SubsequenceConcat(head, head, rest, Matching(test, es'[1..], s));
    }
  }

  /** Registering never hides a reward a block already had: the old lookup result
      is a sub-list of the new one, which grows by the new rewards exactly when
      the block is valid and the key they went to accepts its stack. */
  lemma MergeGrowsRewards<I, S, B>(h: Host<I, S, B>, es: seq<Entry<I, S>>, ing: I, rs: seq<HammerReward<S>>, b: B)
    requires h.ingredientEquals(ing, ing) || Absent(es, ing)
    ensures IsSubsequence(GetRewards(h, es, b), GetRewards(h, Merge(h.ingredientEquals, es, ing, rs), b))
    ensures |GetRewards(h, Merge(h.ingredientEquals, es, ing, rs), b)| == |GetRewards(h, es, b)| +
      (if h.isValid(b) && h.test(MergeTarget(h.ingredientEquals, es, ing), h.stackOf(b)) then |rs| else 0)
  {
    var s := h.stackOf(b);
    if h.isValid(b) {
      match FirstEquivalent(h.ingredientEquals, es, ing)
      case Some(i) =>
        MatchingExtend(h.test, es, i, rs, s);
      case None =>
        assert Absent(es, ing);
        MergeAddsNewKey(h.ingredientEquals, es, ing, rs);
        MatchingAppend(h.test, es, Entry(ing, rs), s);
        SubsequenceOfExtension(Matching(h.test, es, s), if h.test(ing, s) then rs else []);
    }
  }

  // ---------------------------------------------------------------------
  // Mining-level filter and drop rolls
  // ---------------------------------------------------------------------

  /** The rewards a hammer of `miningLevel` can drop, in order. */
  function Eligible<S>(rs: seq<HammerReward<S>>, miningLevel: int): seq<HammerReward<S>>
    decreases |rs|
  {
    if rs == [] then []
    else (if rs[0].miningLevel <= miningLevel then [rs[0]] else []) + Eligible(rs[1..], miningLevel)
  }

  /** The mining-level filter keeps order and drops exactly the rewards whose
      level is above the hammer's: each reward the level reaches is kept as
      many times as it occurs. */
  lemma EligibleIsFilter<S>(rs: seq<HammerReward<S>>, miningLevel: int)
    ensures IsSubsequence(Eligible(rs, miningLevel), rs)
    ensures forall i :: 0 <= i < |Eligible(rs, miningLevel)| ==> Eligible(rs, miningLevel)[i].miningLevel <= miningLevel
    ensures forall j :: 0 <= j < |rs| && rs[j].miningLevel <= miningLevel ==> rs[j] in Eligible(rs, miningLevel)
    ensures forall x :: multiset(Eligible(rs, miningLevel))[x] == if x.miningLevel <= miningLevel then multiset(rs)[x] else 0
  {
    EligibleKeepsOrder(rs, miningLevel);
    EligibleCounts(rs, miningLevel);
  }

  lemma {:induction false} EligibleKeepsOrder<S>(rs: seq<HammerReward<S>>, miningLevel: int)
    ensures IsSubsequence(Eligible(rs, miningLevel), rs)
    ensures forall i :: 0 <= i < |Eligible(rs, miningLevel)| ==> Eligible(rs, miningLevel)[i].miningLevel <= miningLevel
    ensures forall j :: 0 <= j < |rs| && rs[j].miningLevel <= miningLevel ==> rs[j] in Eligible(rs, miningLevel)
    decreases |rs|
  {
    if rs != [] {
      var tail := Eligible(rs[1..], miningLevel);
      EligibleKeepsOrder(rs[1..], miningLevel);
      assert rs == [rs[0]] + rs[1..];
      assert forall j :: 1 <= j < |rs| ==> rs[j] == rs[1..][j - 1];
      if rs[0].miningLevel <= miningLevel {
        SubsequenceReflexive([rs[0]]);
        SubsequenceConcat([rs[0]], [rs[0]], tail, rs[1..]);
      } else {
        assert Eligible(rs, miningLevel) == tail;
        SubsequencePrepend(tail, [rs[0]], rs[1..]);
      }
    }
  }

  lemma {:induction false} EligibleCounts<S>(rs: seq<HammerReward<S>>, miningLevel: int)
    ensures forall x :: multiset(Eligible(rs, miningLevel))[x] == if x.miningLevel <= miningLevel then multiset(rs)[x] else 0
    decreases |rs|
  {
    if rs != [] {
      EligibleCounts(rs[1..], miningLevel);
      assert rs == [rs[0]] + rs[1..];
      var head := if rs[0].miningLevel <= miningLevel then [rs[0]] else [];
      assert multiset(Eligible(rs, miningLevel)) == multiset(head) + multiset(Eligible(rs[1..], miningLevel));
    }
  }

  lemma {:induction false} EligibleConcat<S>(a: seq<HammerReward<S>>, b: seq<HammerReward<S>>, miningLevel: int)
    ensures Eligible(a + b, miningLevel) == Eligible(a, miningLevel) + Eligible(b, miningLevel)
    decreases |a|
  {
    if a == [] {
      assert a + b == b;
    } else {
      EligibleConcat(a[1..], b, miningLevel);
      var ab := a + b;
      assert ab[0] == a[0] && ab[1..] == a[1..] + b;
      var head := if a[0].miningLevel <= miningLevel then [a[0]] else [];
      assert Eligible(ab, miningLevel) == head + Eligible(ab[1..], miningLevel);
      assert Eligible(a, miningLevel) == head + Eligible(a[1..], miningLevel);
    }
  }

  /** Legacy `getRewards(IBlockState, int)`: for every key accepting the block's
      stack, the rewards of its list that the mining level reaches. */
  function LegacyRewards<I, S, B>(h: Host<I, S, B>, es: seq<Entry<I, S>>, b: B, miningLevel: int): seq<HammerReward<S>>
    decreases |es|
  {
    if es == [] then []
    else
      (if h.test(es[0].key, h.stackOf(b)) then Eligible(es[0].rewards, miningLevel) else [])
      + LegacyRewards(h, es[1..], b, miningLevel)
  }

  /** The legacy lookup is the ordinary lookup, without the validity check,
      filtered by mining level; so it holds exactly the matching rewards of at
      most that level, in registry order. */
  lemma {:induction false} LegacyIsFilteredLookup<I, S, B>(h: Host<I, S, B>, es: seq<Entry<I, S>>, b: B, miningLevel: int)
    ensures LegacyRewards(h, es, b, miningLevel) == Eligible(Matching(h.test, es, h.stackOf(b)), miningLevel)
    ensures h.isValid(b) ==> LegacyRewards(h, es, b, miningLevel) == Eligible(GetRewards(h, es, b), miningLevel)
    decreases |es|
  {
    if es != [] {
      LegacyIsFilteredLookup(h, es[1..], b, miningLevel);
      var head := if h.test(es[0].key, h.stackOf(b)) then es[0].rewards else [];
      EligibleConcat(head, Matching(h.test, es[1..], h.stackOf(b)), miningLevel);
    }
  }

  /** The value a draw must not exceed: `chance + fortuneChance * fortuneLevel`. */
  function Threshold<S>(r: HammerReward<S>, fortuneLevel: int): real
  {
    r.chance + r.fortuneChance * fortuneLevel as real
  }

  /** `getRewardDrops` over a reward list: each reward the mining level reaches
      takes the next draw of the random stream and drops its stack when the draw
      is at most its threshold; `next` is the index of the next draw. */
  function Roll<S>(rs: seq<HammerReward<S>>, miningLevel: int, fortuneLevel: int, draws: nat -> real, next: nat): seq<S>
    decreases |rs|
  {
    if rs == [] then []
    else if miningLevel >= rs[0].miningLevel then
      (if draws(next) <= Threshold(rs[0], fortuneLevel) then [rs[0].stack] else [])
      + Roll(rs[1..], miningLevel, fortuneLevel, draws, next + 1)
    else Roll(rs[1..], miningLevel, fortuneLevel, draws, next)
  }

  function Stacks<S>(rs: seq<HammerReward<S>>): (r: seq<S>)
  {
    seq(|rs|, i requires 0 <= i < |rs| => rs[i].stack)
  }

  lemma StacksConcat<S>(a: seq<HammerReward<S>>, b: seq<HammerReward<S>>)
    ensures Stacks(a + b) == Stacks(a) + Stacks(b)
  {
  }

  lemma {:induction false} StacksOfSubsequence<S>(a: seq<HammerReward<S>>, b: seq<HammerReward<S>>)
    requires IsSubsequence(a, b)
    ensures IsSubsequence(Stacks(a), Stacks(b))
    decreases |b|
  {
    if a != [] {
      assert Stacks(b)[1..] == Stacks(b[1..]);
      if a[0] == b[0] && IsSubsequence(a[1..], b[1..]) {
        StacksOfSubsequence(a[1..], b[1..]);
        assert Stacks(a)[1..] == Stacks(a[1..]);
      } else {
        StacksOfSubsequence(a, b[1..]);
      }
    }
  }

  /** The drops are a sub-list of the stacks of the rewards the mining level
      reaches: a reward drops only if the hammer's level reaches it. */
  lemma {:induction false} RollWithinEligible<S>(rs: seq<HammerReward<S>>, miningLevel: int, fortuneLevel: int, draws: nat -> real, next: nat)
    ensures IsSubsequence(Roll(rs, miningLevel, fortuneLevel, draws, next), Stacks(Eligible(rs, miningLevel)))
    decreases |rs|
  {
    if rs != [] {
      var reached := miningLevel >= rs[0].miningLevel;
      var n' := if reached then next + 1 else next;
      var tail := Roll(rs[1..], miningLevel, fortuneLevel, draws, n');
      var head := if reached && draws(next) <= Threshold(rs[0], fortuneLevel) then [rs[0].stack] else [];
      var eligibleHead := if reached then [rs[0]] else [];
      RollWithinEligible(rs[1..], miningLevel, fortuneLevel, draws, n');
      assert Roll(rs, miningLevel, fortuneLevel, draws, next) == head + tail;
      assert Stacks(Eligible(rs, miningLevel)) == Stacks(eligibleHead) + Stacks(Eligible(rs[1..], miningLevel)) by {
        StacksConcat(eligibleHead, Eligible(rs[1..], miningLevel));
      }
      assert IsSubsequence(head, Stacks(eligibleHead)) by {
        SubsequenceReflexive(Stacks(eligibleHead));
      }
      SubsequenceConcat(head, Stacks(eligibleHead), tail, Stacks(Eligible(rs[1..], miningLevel)));
    }
  }

  /** So the drops are a sub-list of the stacks of all the block's rewards, in
      the same order, and never more than the rewards the level reaches. */
  lemma RollBounds<S>(rs: seq<HammerReward<S>>, miningLevel: int, fortuneLevel: int, draws: nat -> real, next: nat)
    ensures IsSubsequence(Roll(rs, miningLevel, fortuneLevel, draws, next), Stacks(rs))
    ensures |Roll(rs, miningLevel, fortuneLevel, draws, next)| <= |Eligible(rs, miningLevel)| <= |rs|
  {
    var r := Roll(rs, miningLevel, fortuneLevel, draws, next);
    var e := Eligible(rs, miningLevel);
    RollWithinEligible(rs, miningLevel, fortuneLevel, draws, next);
    EligibleIsFilter(rs, miningLevel);
    StacksOfSubsequence(e, rs);
    SubsequenceTransitive(r, Stacks(e), Stacks(rs));
    SubsequenceLength(r, Stacks(e));
    SubsequenceLength(e, rs);
  }

  /** When every reward the mining level reaches has a threshold of at least 1,
      every one of them drops (each draw of `nextFloat` is below 1). */
  lemma {:induction false} RollCertain<S>(rs: seq<HammerReward<S>>, miningLevel: int, fortuneLevel: int, draws: nat -> real, next: nat)
    requires forall n: nat :: 0.0 <= draws(n) < 1.0
    requires forall i :: 0 <= i < |rs| && rs[i].miningLevel <= miningLevel ==> Threshold(rs[i], fortuneLevel) >= 1.0
    ensures Roll(rs, miningLevel, fortuneLevel, draws, next) == Stacks(Eligible(rs, miningLevel))
    decreases |rs|
  {
    if rs != [] {
      var n' := if miningLevel >= rs[0].miningLevel then next + 1 else next;
      assert forall i :: 0 <= i < |rs[1..]| ==> rs[1..][i] == rs[i + 1];
      RollCertain(rs[1..], miningLevel, fortuneLevel, draws, n');
      if miningLevel >= rs[0].miningLevel {
        assert draws(next) < 1.0;
        assert Eligible(rs, miningLevel) == [rs[0]] + Eligible(rs[1..], miningLevel);
        assert Stacks(Eligible(rs, miningLevel)) == [rs[0].stack] + Stacks(Eligible(rs[1..], miningLevel));
      } else {
        assert Eligible(rs, miningLevel) == Eligible(rs[1..], miningLevel);
      }
    }
  }

  /** When every reward the mining level reaches has a negative threshold,
      nothing drops (no draw of `nextFloat` is negative). */
  lemma {:induction false} RollNever<S>(rs: seq<HammerReward<S>>, miningLevel: int, fortuneLevel: int, draws: nat -> real, next: nat)
    requires forall n: nat :: 0.0 <= draws(n) < 1.0
    requires forall i :: 0 <= i < |rs| && rs[i].miningLevel <= miningLevel ==> Threshold(rs[i], fortuneLevel) < 0.0
    ensures Roll(rs, miningLevel, fortuneLevel, draws, next) == []
    decreases |rs|
  {
    if rs != [] {
      var n' := if miningLevel >= rs[0].miningLevel then next + 1 else next;
      assert forall i :: 0 <= i < |rs[1..]| ==> rs[1..][i] == rs[i + 1];
      RollNever(rs[1..], miningLevel, fortuneLevel, draws, n');
      if miningLevel >= rs[0].miningLevel {
        assert draws(next) >= 0.0;
      }
    }
  }

  /** For each reward of `e` in turn, its stack if draw `next + k` is at most its
      threshold, and nothing otherwise. */
  function Tries<S>(e: seq<HammerReward<S>>, fortuneLevel: int, draws: nat -> real, next: nat): seq<seq<S>>
  {
    seq(|e|, k requires 0 <= k < |e| => if draws(next + k) <= Threshold(e[k], fortuneLevel) then [e[k].stack] else [])
  }

  /** The first reward takes draw `next`; the rest take the following draws. */
  lemma TriesFirst<S>(x: HammerReward<S>, e: seq<HammerReward<S>>, fortuneLevel: int, draws: nat -> real, next: nat)
    ensures Flatten(Tries([x] + e, fortuneLevel, draws, next))
         == (if draws(next) <= Threshold(x, fortuneLevel) then [x.stack] else []) + Flatten(Tries(e, fortuneLevel, draws, next + 1))
  {
    var t := Tries([x] + e, fortuneLevel, draws, next);
    assert t[1..] == Tries(e, fortuneLevel, draws, next + 1);
  }

  /** The k-th reward the mining level reaches takes draw `next + k` and drops its
      stack exactly when that draw is at most its threshold; rewards out of reach
      take no draw. */
  lemma {:induction false} RollIsPerRewardTry<S>(rs: seq<HammerReward<S>>, miningLevel: int, fortuneLevel: int, draws: nat -> real, next: nat)
    ensures Roll(rs, miningLevel, fortuneLevel, draws, next) == Flatten(Tries(Eligible(rs, miningLevel), fortuneLevel, draws, next))
    decreases |rs|
  {
    if rs != [] {
      var e := Eligible(rs[1..], miningLevel);
      if rs[0].miningLevel <= miningLevel {
        RollIsPerRewardTry(rs[1..], miningLevel, fortuneLevel, draws, next + 1);
        TriesFirst(rs[0], e, fortuneLevel, draws, next);
        assert Eligible(rs, miningLevel) == [rs[0]] + e;
      } else {
        RollIsPerRewardTry(rs[1..], miningLevel, fortuneLevel, draws, next);
        assert Eligible(rs, miningLevel) == e;
      }
    }
  }
}
