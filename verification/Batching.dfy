/** How the seller daemon groups paid purchases into threads. */
module Batching {
  import opened Chunking
  import opened Sequences
  import opened Wrappers

  // A purchase as discovered on chain. Hashes, sale ids and addresses are held in lower case.
  datatype Purchase = Purchase(tx: string, saleId: string, channel: string, needsVss: Option<bool>, status: string)

  datatype BatchConfig = BatchConfig(maxPurchasesPerThread: nat, onlyBatchSameSale: bool)
  {
    function Limit(): nat
    {
      if maxPurchasesPerThread == 0 then 1 else maxPurchasesPerThread
    }

    function Key(purchase: Purchase): string
    {
      if onlyBatchSameSale then purchase.channel + ":" + purchase.saleId else purchase.channel
    }

    // The key a purchase is grouped by; none when it needs no secret sharing.
    function Kind(purchase: Purchase): Option<string>
    {
      if purchase.needsVss == Some(false) then None else Some(Key(purchase))
    }
  }

  type Group = seq<Purchase>

  // ---------------------------------------------------------------- what a grouping is

  function Select(config: BatchConfig, purchases: seq<Purchase>, kind: Option<string>): seq<Purchase>
  {
    if purchases == [] then []
    else
      var k := |purchases| - 1;
      Select(config, purchases[..k], kind) + if config.Kind(purchases[k]) == kind then [purchases[k]] else []
  }

  function Flatten(groups: seq<Group>): seq<Purchase>
  {
    if groups == [] then [] else Flatten(groups[..|groups| - 1]) + groups[|groups| - 1]
  }

  predicate IsOfKind(config: BatchConfig, group: Group, kind: Option<string>)
  {
    group != [] && config.Kind(group[0]) == kind
  }

  function GroupsOf(config: BatchConfig, groups: seq<Group>, kind: Option<string>): seq<Group>
  {
    if groups == [] then []
    else
      var k := |groups| - 1;
      GroupsOf(config, groups[..k], kind) + if IsOfKind(config, groups[k], kind) then [groups[k]] else []
  }

  // A group holds at least one purchase and not too many, all of one kind, and a purchase
  // that needs no secret sharing is alone.
  ghost predicate IsThreadInput(config: BatchConfig, group: Group)
  {
    && 0 < |group| <= config.Limit()
    && (forall i :: 0 <= i < |group| ==> config.Kind(group[i]) == config.Kind(group[0]))
    && (config.Kind(group[0]) == None ==> |group| == 1)
  }

  ghost predicate AllFull(config: BatchConfig, groups: seq<Group>)
  {
    forall i :: 0 <= i < |groups| ==> |groups[i]| == config.Limit()
  }

  ghost predicate AllButLastFull(config: BatchConfig, groups: seq<Group>)
  {
    forall i :: 0 <= i < |groups| - 1 ==> |groups[i]| == config.Limit()
  }

  // Each kind's groups concatenate to the purchases of that kind, in order.
  ghost predicate Partitions(config: BatchConfig, groups: seq<Group>, purchases: seq<Purchase>)
  {
    forall kind :: Flatten(GroupsOf(config, groups, kind)) == Select(config, purchases, kind)
  }

  ghost predicate WellBatched(config: BatchConfig, groups: seq<Group>, purchases: seq<Purchase>)
  {
    && (forall i :: 0 <= i < |groups| ==> IsThreadInput(config, groups[i]))
    && Partitions(config, groups, purchases)
    && (forall key :: AllButLastFull(config, GroupsOf(config, groups, Some(key))))
  }

  // ---------------------------------------------------------------- the order of keys

  // Lexicographic order.
  predicate UpTo(a: string, b: string)
  {
    a == "" || (b != "" && (a[0] < b[0] || (a[0] == b[0] && UpTo(a[1..], b[1..]))))
  }

  lemma {:induction false} UpToTotal(a: string, b: string)
    ensures UpTo(a, b) || UpTo(b, a)
    ensures UpTo(a, b) && UpTo(b, a) ==> a == b
  {
    if a != "" && b != "" && a[0] == b[0] {
      UpToTotal(a[1..], b[1..]);
      assert a == [a[0]] + a[1..] && b == [b[0]] + b[1..];
    }
  }

  lemma {:induction false} UpToTransitive(a: string, b: string, c: string)
    requires UpTo(a, b) && UpTo(b, c)
    ensures UpTo(a, c)
  {
    if a != "" && a[0] == b[0] == c[0] {
      UpToTransitive(a[1..], b[1..], c[1..]);
    }
  }

  // One is a prefix of the other, or they first differ in a character that is smaller.
  lemma {:induction false} UpToMeans(a: string, b: string)
    ensures UpTo(a, b) <==> a <= b || exists k :: IsFirstDifference(a, b, k) && a[k] < b[k]
  {
    if a != "" && b != "" {
      if a[0] == b[0] {
        var x, y := a[1..], b[1..];
        UpToMeans(x, y);
        assert a <= b <==> x <= y;
        if k :| IsFirstDifference(x, y, k) && x[k] < y[k] {
          assert IsFirstDifference(a, b, k + 1);
        }
        if k :| IsFirstDifference(a, b, k) && a[k] < b[k] {
          assert IsFirstDifference(x, y, k - 1);
        }
      } else {
        assert IsFirstDifference(a, b, 0);
      }
    }
  }

  ghost predicate IsFirstDifference(a: string, b: string, k: int)
  {
    0 <= k < |a| && k < |b| && a[k] != b[k] && forall i :: 0 <= i < k ==> a[i] == b[i]
  }

  predicate IsLeastKey(keys: set<string>, key: string)
  {
    key in keys && forall other :: other in keys ==> UpTo(key, other)
  }

  lemma {:induction false} SomeLeastKey(keys: set<string>)
    requires keys != {}
    ensures exists key :: IsLeastKey(keys, key)
    decreases |keys|
  {
    var one :| one in keys;
    var rest := keys - {one};
    assert forall other :: other in keys && other != one ==> other in rest;
    if rest == {} {
      LesserKey(keys, one, one);
    } else {
      SomeLeastKey(rest);
      var least :| IsLeastKey(rest, least);
      LesserKey(keys, one, least);
    }
  }

  // One more key against the least of the others.
  lemma LesserKey(keys: set<string>, one: string, least: string)
    requires one in keys && least in keys && forall other :: other in keys && other != one ==> UpTo(least, other)
    ensures exists key :: IsLeastKey(keys, key)
  {
    hide UpTo;
    UpToTotal(one, least);
    UpToTotal(one, one);
    if UpTo(one, least) {
      forall other | other in keys
        ensures UpTo(one, other)
      {
        if other != one {
          UpToTransitive(one, least, other);
        }
      }
      assert IsLeastKey(keys, one);
    } else {
      assert IsLeastKey(keys, least);
    }
  }

  ghost function LeastKey(keys: set<string>): (key: string)
    requires keys != {}
    ensures IsLeastKey(keys, key)
  {
    SomeLeastKey(keys);
    var key :| IsLeastKey(keys, key);
    key
  }

  lemma LeastKeyUnique(keys: set<string>, key: string)
    requires IsLeastKey(keys, key)
    ensures key == LeastKey(keys)
  {
    UpToTotal(key, LeastKey(keys));
  }

  // ---------------------------------------------------------------- the loop

  type Buckets = map<string, Group>

  function Bucket(grouped: Buckets, kind: Option<string>): Group
  {
    if kind.Some? && kind.value in grouped then grouped[kind.value] else []
  }

  // The groups built, with the open buckets, hold the purchases seen so far.
  ghost predicate HoldsSoFar(config: BatchConfig, groups: seq<Group>, grouped: Buckets, seen: seq<Purchase>)
  {
    forall kind :: Flatten(GroupsOf(config, groups, kind)) + Bucket(grouped, kind) == Select(config, seen, kind)
  }

  ghost predicate BucketsOpen(config: BatchConfig, grouped: Buckets)
  {
    forall key :: key in grouped ==>
      |grouped[key]| < config.Limit() && forall i :: 0 <= i < |grouped[key]| ==>
        config.Kind(grouped[key][i]) == Some(key)
  }

  lemma SelectSnoc(config: BatchConfig, seen: seq<Purchase>, purchase: Purchase, kind: Option<string>)
    ensures Select(config, seen + [purchase], kind)
         == Select(config, seen, kind) + if config.Kind(purchase) == kind then [purchase] else []
  {
  }

  lemma GroupsOfSnoc(config: BatchConfig, groups: seq<Group>, group: Group, kind: Option<string>)
    ensures GroupsOf(config, groups + [group], kind)
         == GroupsOf(config, groups, kind) + if IsOfKind(config, group, kind) then [group] else []
  {
  }

  lemma FlattenSnoc(groups: seq<Group>, group: Group)
    ensures Flatten(groups + [group]) == Flatten(groups) + group
  {
  }

  // A group of one kind joins the groups of that kind and of no other.
  lemma FlattenGroupsSnoc(config: BatchConfig, groups: seq<Group>, group: Group, kind: Option<string>)
    requires group != []
    ensures Flatten(GroupsOf(config, groups + [group], kind))
         == Flatten(GroupsOf(config, groups, kind)) + if config.Kind(group[0]) == kind then group else []
  {
    GroupsOfSnoc(config, groups, group, kind);
    FlattenSnoc(GroupsOf(config, groups, kind), group);
    assert GroupsOf(config, groups, kind) + [] == GroupsOf(config, groups, kind);
  }

  // A purchase that needs no secret sharing becomes a group of its own.
  lemma AloneStep(config: BatchConfig, groups: seq<Group>, grouped: Buckets, seen: seq<Purchase>, purchase: Purchase)
    requires HoldsSoFar(config, groups, grouped, seen) && config.Kind(purchase) == None
    ensures HoldsSoFar(config, groups + [[purchase]], grouped, seen + [purchase])
  {
    hide GroupsOf, Flatten, Select;
    forall kind
      ensures Flatten(GroupsOf(config, groups + [[purchase]], kind)) + Bucket(grouped, kind)
           == Select(config, seen + [purchase], kind)
    {
      SelectSnoc(config, seen, purchase, kind);
      FlattenGroupsSnoc(config, groups, [purchase], kind);
    }
  }

  lemma BucketStep(config: BatchConfig, groups: seq<Group>, grouped: Buckets, seen: seq<Purchase>, purchase: Purchase)
    requires HoldsSoFar(config, groups, grouped, seen) && config.Kind(purchase).Some?
    ensures var key := config.Key(purchase);
      HoldsSoFar(config, groups, grouped[key := Bucket(grouped, Some(key)) + [purchase]], seen + [purchase])
  {
    hide GroupsOf, Flatten, Select;
    var key := config.Key(purchase);
    var now := grouped[key := Bucket(grouped, Some(key)) + [purchase]];
    forall kind
      ensures Flatten(GroupsOf(config, groups, kind)) + Bucket(now, kind) == Select(config, seen + [purchase], kind)
    {
      SelectSnoc(config, seen, purchase, kind);
      assert Flatten(GroupsOf(config, groups, kind)) + Bucket(grouped, kind) == Select(config, seen, kind);
      if kind != Some(key) {
        assert Bucket(now, kind) == Bucket(grouped, kind);
      }
    }
  }

  // Closing a bucket turns it into a group; `now` is the table without its contents.
  lemma CloseStep(config: BatchConfig, groups: seq<Group>, grouped: Buckets, seen: seq<Purchase>, key: string,
                  now: Buckets)
    requires HoldsSoFar(config, groups, grouped, seen)
    requires key in grouped && grouped[key] != [] && config.Kind(grouped[key][0]) == Some(key)
    requires now == grouped[key := []] || now == grouped - {key}
    ensures HoldsSoFar(config, groups + [grouped[key]], now, seen)
  {
    hide GroupsOf, Flatten, Select;
    forall kind
      ensures Flatten(GroupsOf(config, groups + [grouped[key]], kind)) + Bucket(now, kind) == Select(config, seen, kind)
    {
      FlattenGroupsSnoc(config, groups, grouped[key], kind);
      assert Flatten(GroupsOf(config, groups, kind)) + Bucket(grouped, kind) == Select(config, seen, kind);
      if kind == Some(key) {
        assert Bucket(grouped, kind) == grouped[key] && Bucket(now, kind) == [];
      } else {
        assert Bucket(now, kind) == Bucket(grouped, kind);
      }
    }
  }

  // The groups of every key listed are full; those of the others are, but for the last.
  ghost predicate Packed(config: BatchConfig, groups: seq<Group>, key: string, full: bool)
  {
    var gs := GroupsOf(config, groups, Some(key));
    if full then AllFull(config, gs) else AllButLastFull(config, gs)
  }

  lemma PackedSnoc(config: BatchConfig, groups: seq<Group>, group: Group, key: string, full: bool)
    requires Packed(config, groups, key, full)
    requires group != [] && (config.Kind(group[0]) == Some(key) ==> full)
    ensures Packed(config, groups + [group], key,
                   full && (config.Kind(group[0]) == Some(key) ==> |group| == config.Limit()))
  {
  }

  lemma NothingBatched(config: BatchConfig)
    ensures HoldsSoFar(config, [], map[], [])
    ensures forall key :: Packed(config, [], key, true)
  {
  }

  lemma PackedAll(config: BatchConfig, groups: seq<Group>, group: Group)
    requires forall key :: Packed(config, groups, key, true)
    requires group != [] && (config.Kind(group[0]).Some? ==> |group| == config.Limit())
    ensures forall key :: Packed(config, groups + [group], key, true)
  {
    forall key
      ensures Packed(config, groups + [group], key, true)
    {
      PackedSnoc(config, groups, group, key, true);
    }
  }

  lemma FullIsPacked(config: BatchConfig, groups: seq<Group>, remaining: Buckets)
    requires forall k :: Packed(config, groups, k, true)
    ensures forall k :: Packed(config, groups, k, k in remaining)
  {
    forall k
      ensures Packed(config, groups, k, k in remaining)
    {
      assert Packed(config, groups, k, true);
    }
  }

  // After a bucket is closed, its key's groups may end with one that is not full.
  lemma PackedRest(config: BatchConfig, groups: seq<Group>, remaining: Buckets, key: string)
    requires forall k :: Packed(config, groups, k, k in remaining)
    requires key in remaining && remaining[key] != [] && config.Kind(remaining[key][0]) == Some(key)
    ensures forall k :: Packed(config, groups + [remaining[key]], k, k in remaining - {key})
  {
  }

  lemma DropEmpty(config: BatchConfig, groups: seq<Group>, remaining: Buckets, purchases: seq<Purchase>, key: string)
    requires HoldsSoFar(config, groups, remaining, purchases)
    requires forall k :: Packed(config, groups, k, k in remaining)
    requires key in remaining && remaining[key] == []
    ensures HoldsSoFar(config, groups, remaining - {key}, purchases)
    ensures forall k :: Packed(config, groups, k, k in remaining - {key})
  {
  }

  lemma AllClosed(config: BatchConfig, groups: seq<Group>, purchases: seq<Purchase>)
    requires forall i :: 0 <= i < |groups| ==> IsThreadInput(config, groups[i])
    requires HoldsSoFar(config, groups, map[], purchases)
    requires forall k :: Packed(config, groups, k, false)
    ensures WellBatched(config, groups, purchases)
  {
    hide GroupsOf, Flatten, Select;
    forall kind
      ensures Flatten(GroupsOf(config, groups, kind)) == Select(config, purchases, kind)
    {
      assert Flatten(GroupsOf(config, groups, kind)) + Bucket(map[], kind) == Select(config, purchases, kind);
    }
    forall key
      ensures AllButLastFull(config, GroupsOf(config, groups, Some(key)))
    {
      assert Packed(config, groups, key, false);
    }
  }

  // ---------------------------------------------------------------- the grouping

  // The groups closed so far, and the open buckets.
  datatype Progress = Progress(groups: seq<Group>, buckets: Buckets)

  function Step(config: BatchConfig, progress: Progress, purchase: Purchase): Progress
  {
    if purchase.needsVss == Some(false) then Progress(progress.groups + [[purchase]], progress.buckets)
    else
      var key := config.Key(purchase);
      var bucket := Bucket(progress.buckets, Some(key)) + [purchase];
      if |bucket| >= config.maxPurchasesPerThread
      then Progress(progress.groups + [bucket], progress.buckets[key := []])
      else Progress(progress.groups, progress.buckets[key := bucket])
  }

  function Progressed(config: BatchConfig, purchases: seq<Purchase>): Progress
  {
    if purchases == [] then Progress([], map[])
    else Step(config, Progressed(config, purchases[..|purchases| - 1]), purchases[|purchases| - 1])
  }

  // The buckets that hold something, in the order of their keys.
  ghost function Leftovers(buckets: Buckets): seq<Group>
    decreases |buckets|
  {
    if buckets == map[] then []
    else
      var key := LeastKey(buckets.Keys);
      (if buckets[key] == [] then [] else [buckets[key]]) + Leftovers(buckets - {key})
  }

  // How the purchases are grouped.
  ghost function Grouped(config: BatchConfig, purchases: seq<Purchase>): seq<Group>
  {
    Progressed(config, purchases).groups + Leftovers(Progressed(config, purchases).buckets)
  }

  ghost predicate GroupsSound(config: BatchConfig, groups: seq<Group>)
  {
    forall i :: 0 <= i < |groups| ==> IsThreadInput(config, groups[i])
  }

  lemma {:induction false} ProgressedKeeps(config: BatchConfig, purchases: seq<Purchase>)
    ensures var progress := Progressed(config, purchases);
      && GroupsSound(config, progress.groups)
      && HoldsSoFar(config, progress.groups, progress.buckets, purchases) && BucketsOpen(config, progress.buckets)
      && forall key :: Packed(config, progress.groups, key, true)
  {
    hide HoldsSoFar, Packed, Step;
    if purchases == [] {
      NothingBatched(config);
    } else {
      var n := |purchases| - 1;
      ProgressedKeeps(config, purchases[..n]);
      assert purchases == purchases[..n] + [purchases[n]];
      StepKeeps(config, Progressed(config, purchases[..n]), purchases[..n], purchases[n]);
    }
  }

  lemma StepKeeps(config: BatchConfig, progress: Progress, seen: seq<Purchase>, purchase: Purchase)
    requires GroupsSound(config, progress.groups)
    requires HoldsSoFar(config, progress.groups, progress.buckets, seen) && BucketsOpen(config, progress.buckets)
    requires forall key :: Packed(config, progress.groups, key, true)
    ensures var next := Step(config, progress, purchase);
      && GroupsSound(config, next.groups)
      && HoldsSoFar(config, next.groups, next.buckets, seen + [purchase]) && BucketsOpen(config, next.buckets)
      && forall key :: Packed(config, next.groups, key, true)
  {
    hide HoldsSoFar, Packed;
    var groups, grouped := progress.groups, progress.buckets;
    if purchase.needsVss == Some(false) {
      AloneStep(config, groups, grouped, seen, purchase);
      PackedAll(config, groups, [purchase]);
    } else {
      var key := config.Key(purchase);
      var bucket := Bucket(grouped, Some(key)) + [purchase];
      BucketStep(config, groups, grouped, seen, purchase);
      if |bucket| >= config.maxPurchasesPerThread {
        var with := grouped[key := bucket];
        CloseStep(config, groups, with, seen + [purchase], key, with[key := []]);
        PackedAll(config, groups, bucket);
        assert with[key := []] == grouped[key := []];
      }
    }
  }

  lemma {:induction false} LeftoversKeep(config: BatchConfig, purchases: seq<Purchase>, groups: seq<Group>,
                                         buckets: Buckets)
    requires GroupsSound(config, groups)
    requires HoldsSoFar(config, groups, buckets, purchases) && BucketsOpen(config, buckets)
    requires forall key :: Packed(config, groups, key, key in buckets)
    ensures WellBatched(config, groups + Leftovers(buckets), purchases)
    decreases |buckets|
  {
    hide HoldsSoFar, Packed, WellBatched;
    if buckets == map[] {
      forall k
        ensures Packed(config, groups, k, false)
      {
        assert Packed(config, groups, k, k in buckets);
      }
      AllClosed(config, groups, purchases);
      assert groups + [] == groups;
    } else {
      var key := LeastKey(buckets.Keys);
      var bucket := buckets[key];
      if bucket != [] {
        CloseStep(config, groups, buckets, purchases, key, buckets - {key});
        PackedRest(config, groups, buckets, key);
        LeftoversKeep(config, purchases, groups + [bucket], buckets - {key});
        Associate(groups, [bucket], Leftovers(buckets - {key}));
      } else {
        DropEmpty(config, groups, buckets, purchases, key);
        LeftoversKeep(config, purchases, groups, buckets - {key});
        assert [] + Leftovers(buckets - {key}) == Leftovers(buckets - {key});
      }
    }
  }

  // The groups come in the order of their keys, no two of one key.
  ghost predicate InKeyOrder(config: BatchConfig, groups: seq<Group>)
  {
    && (forall i :: 0 <= i < |groups| ==> groups[i] != [])
    && (forall i, j :: 0 <= i < j < |groups| ==>
          config.Key(groups[i][0]) != config.Key(groups[j][0])
              && UpTo(config.Key(groups[i][0]), config.Key(groups[j][0])))
  }

  lemma {:induction false} LeftoversInOrder(config: BatchConfig, buckets: Buckets)
    requires BucketsOpen(config, buckets)
    ensures InKeyOrder(config, Leftovers(buckets))
    ensures forall i :: 0 <= i < |Leftovers(buckets)| ==> config.Key(Leftovers(buckets)[i][0]) in buckets
    decreases |buckets|
  {
    hide UpTo;
    if buckets != map[] {
      var key := LeastKey(buckets.Keys);
      LeftoversInOrder(config, buckets - {key});
      var rest := Leftovers(buckets - {key});
      if buckets[key] != [] {
        assert config.Kind(buckets[key][0]) == Some(key);
        assert Leftovers(buckets) == [buckets[key]] + rest;
      } else {
        assert Leftovers(buckets) == rest;
      }
    }
  }

  // What the grouping promises.
  lemma GroupedWellBatched(config: BatchConfig, purchases: seq<Purchase>)
    ensures WellBatched(config, Grouped(config, purchases), purchases)
  {
    hide HoldsSoFar, Packed, WellBatched, Progressed;
    var progress := Progressed(config, purchases);
    ProgressedKeeps(config, purchases);
    FullIsPacked(config, progress.groups, progress.buckets);
    LeftoversKeep(config, purchases, progress.groups, progress.buckets);
  }

  method BuildThreadInputs(config: BatchConfig, purchases: seq<Purchase>) returns (groups: seq<Group>)
    ensures groups == Grouped(config, purchases) && WellBatched(config, groups, purchases)
  {
    hide WellBatched;
    var grouped: Buckets := map[];
    groups := [];
    for n := 0 to |purchases|
      invariant Progress(groups, grouped) == Progressed(config, purchases[..n])
    {
      var purchase := purchases[n];
      ProgressedNext(config, purchases, n);
      if purchase.needsVss == Some(false) {
        groups := groups + [[purchase]];
      } else {
        var key := config.Key(purchase);
        var bucket := Bucket(grouped, Some(key)) + [purchase];
        grouped := grouped[key := bucket];
        if |bucket| >= config.maxPurchasesPerThread {
          assert grouped[key := []] == Progressed(config, purchases[..n]).buckets[key := []];
          groups, grouped := groups + [bucket], grouped[key := []];
        }
      }
    }
    assert purchases[..|purchases|] == purchases;
    GroupedWellBatched(config, purchases);
    groups := CloseBuckets(groups, grouped);
  }

  lemma ProgressedNext(config: BatchConfig, purchases: seq<Purchase>, n: nat)
    requires n < |purchases|
    ensures Progressed(config, purchases[..n + 1]) == Step(config, Progressed(config, purchases[..n]), purchases[n])
  {
    hide Step;
    assert purchases[..n + 1][..n] == purchases[..n];
  }

  // The buckets still open at the end become groups, in the order of their keys.
  method CloseBuckets(full: seq<Group>, grouped: Buckets) returns (groups: seq<Group>)
    ensures groups == full + Leftovers(grouped)
  {
    groups := full;
    var remaining := grouped;
    while remaining != map[]
      invariant groups + Leftovers(remaining) == full + Leftovers(grouped)
      decreases |remaining|
    {
      SomeLeastKey(remaining.Keys);
      var key :| key in remaining.Keys && IsLeastKey(remaining.Keys, key);
      LeastKeyUnique(remaining.Keys, key);
      NextLeftover(groups, remaining, key);
      if remaining[key] != [] {
        groups := groups + [remaining[key]];
      }
      remaining := remaining - {key};
    }
  }

  lemma NextLeftover(groups: seq<Group>, remaining: Buckets, key: string)
    requires remaining != map[] && key == LeastKey(remaining.Keys)
    ensures groups + Leftovers(remaining)
         == (if remaining[key] == [] then groups else groups + [remaining[key]]) + Leftovers(remaining - {key})
  {
    hide LeastKey;
    var first, rest := if remaining[key] == [] then [] else [remaining[key]], Leftovers(remaining - {key});
    assert Leftovers(remaining) == first + rest;
    Associate(groups, first, rest);
  }

  // ---------------------------------------------------------------- the groups of a key

  lemma {:induction false} FlattenCons(group: Group, groups: seq<Group>)
    ensures Flatten([group] + groups) == group + Flatten(groups)
  {
    hide Flatten;
    if groups == [] {
      NothingFlat();
      assert [group] + groups == groups + [group] && [] + group == group + [];
      FlattenSnoc(groups, group);
    } else {
      var k := |groups| - 1;
      FlattenCons(group, groups[..k]);
      FlattenSnoc(groups[..k], groups[k]);
      FlattenSnoc([group] + groups[..k], groups[k]);
      assert groups == groups[..k] + [groups[k]];
      Associate([group], groups[..k], [groups[k]]);
      Associate(group, Flatten(groups[..k]), groups[k]);
    }
  }

  // Full groups and a last one are the chunks of what they hold.
  lemma {:induction false} FullGroupsAreChunks(config: BatchConfig, groups: seq<Group>)
    requires AllButLastFull(config, groups)
    requires forall i :: 0 <= i < |groups| ==> 0 < |groups[i]| <= config.Limit()
    ensures groups == Chunks(Flatten(groups), config.Limit())
    decreases |groups|
  {
    hide Flatten;
    if groups == [] {
      NothingFlat();
    } else {
      var first, rest := groups[0], groups[1..];
      assert groups == [first] + rest;
      FlattenCons(first, rest);
      FullGroupsAreChunks(config, rest);
      if rest == [] {
        NothingFlat();
        assert first + [] == first;
      } else {
        assert |first| == config.Limit() && Chunks(Flatten(rest), config.Limit()) != [];
        SplitSum(first, Flatten(rest));
      }
    }
  }

  lemma NothingFlat()
    ensures Flatten([]) == []
  {
  }

  lemma {:induction false} GroupsOfMembers(config: BatchConfig, groups: seq<Group>, kind: Option<string>, group: Group)
    ensures group in GroupsOf(config, groups, kind) <==> group in groups && IsOfKind(config, group, kind)
  {
    if groups != [] {
      var k := |groups| - 1;
      GroupsOfMembers(config, groups[..k], kind, group);
      assert groups == groups[..k] + [groups[k]];
    }
  }

  // The groups of a key are determined: they are its purchases, cut into chunks of the limit.
  lemma GroupsAreChunks(config: BatchConfig, groups: seq<Group>, purchases: seq<Purchase>, key: string)
    requires WellBatched(config, groups, purchases)
    ensures GroupsOf(config, groups, Some(key)) == Chunks(Select(config, purchases, Some(key)), config.Limit())
  {
    hide GroupsOf, Select, Flatten;
    var gs := GroupsOf(config, groups, Some(key));
    forall i | 0 <= i < |gs|
      ensures 0 < |gs[i]| <= config.Limit()
    {
      GroupsOfMembers(config, groups, Some(key), gs[i]);
    }
    FullGroupsAreChunks(config, gs);
    assert Flatten(gs) == Select(config, purchases, Some(key));
  }

  // ---------------------------------------------------------------- groups of one sale

  predicate SameSale(selected: Group)
  {
    forall i :: 0 <= i < |selected| ==> selected[i].saleId == selected[0].saleId
  }

  predicate AllSameSale(groups: seq<Group>)
  {
    forall i :: 0 <= i < |groups| ==> SameSale(groups[i])
  }

  // Every chunk of the purchases of one key is of one sale.
  predicate ChunksOfOneSale(config: BatchConfig, purchases: seq<Purchase>)
  {
    forall k :: 0 <= k < |purchases| && config.Kind(purchases[k]).Some? ==>
      AllSameSale(Chunks(Select(config, purchases, config.Kind(purchases[k])), config.Limit()))
  }

  lemma {:induction false} SelectMembers(config: BatchConfig, purchases: seq<Purchase>, kind: Option<string>,
                                         purchase: Purchase)
    ensures purchase in Select(config, purchases, kind) <==> purchase in purchases && config.Kind(purchase) == kind
  {
    if purchases != [] {
      var k := |purchases| - 1;
      SelectMembers(config, purchases[..k], kind, purchase);
      assert purchases == purchases[..k] + [purchases[k]];
    }
  }

  // Whether some group mixes sales is decided by the purchases alone.
  lemma GroupsOfOneSaleExactly(config: BatchConfig, groups: seq<Group>, purchases: seq<Purchase>)
    requires WellBatched(config, groups, purchases)
    ensures AllSameSale(groups) <==> ChunksOfOneSale(config, purchases)
  {
    hide GroupsOf, Select, Flatten, SameSale, Chunks;
    if AllSameSale(groups) {
      forall k | 0 <= k < |purchases| && config.Kind(purchases[k]).Some?
        ensures AllSameSale(Chunks(Select(config, purchases, config.Kind(purchases[k])), config.Limit()))
      {
        var kind := config.Kind(purchases[k]);
        GroupsAreChunks(config, groups, purchases, kind.value);
        var gs := GroupsOf(config, groups, kind);
        forall i | 0 <= i < |gs|
          ensures SameSale(gs[i])
        {
          GroupsOfMembers(config, groups, kind, gs[i]);
          var j :| 0 <= j < |groups| && groups[j] == gs[i];
        }
      }
    }
    if ChunksOfOneSale(config, purchases) {
      forall g | 0 <= g < |groups|
        ensures SameSale(groups[g])
      {
        GroupInItsChunks(config, groups, purchases, g);
      }
    }
  }

  lemma GroupInItsChunks(config: BatchConfig, groups: seq<Group>, purchases: seq<Purchase>, g: nat)
    requires WellBatched(config, groups, purchases) && ChunksOfOneSale(config, purchases) && g < |groups|
    ensures SameSale(groups[g])
  {
    hide GroupsOf, Select, Flatten, Chunks;
    var group := groups[g];
    var kind := config.Kind(group[0]);
    if kind.Some? {
      GroupsAreChunks(config, groups, purchases, kind.value);
      GroupsOfMembers(config, groups, kind, group);
      var gs := GroupsOf(config, groups, kind);
      var i :| 0 <= i < |gs| && gs[i] == group;
      BatchingConserves(config, groups, purchases);
      InFlatten(groups, g, 0);
      assert group[0] in multiset(Flatten(groups));
      assert group[0] in multiset(purchases);
      var k :| 0 <= k < |purchases| && purchases[k] == group[0];
      assert AllSameSale(Chunks(Select(config, purchases, config.Kind(purchases[k])), config.Limit()));
    }
  }

  lemma {:induction false} InFlatten(groups: seq<Group>, g: nat, i: nat)
    requires g < |groups| && i < |groups[g]|
    ensures groups[g][i] in Flatten(groups)
    decreases |groups|
  {
    if g < |groups| - 1 {
      InFlatten(groups[..|groups| - 1], g, i);
    }
  }

  // Batching per sale never mixes sales, the text key notwithstanding.
  lemma PerSaleNeverMixes(config: BatchConfig, purchases: seq<Purchase>)
    requires config.onlyBatchSameSale && forall p: Purchase :: p in purchases ==> ':' !in p.saleId
    ensures ChunksOfOneSale(config, purchases)
  {
    hide Select, Chunks;
    forall k | 0 <= k < |purchases| && config.Kind(purchases[k]).Some?
      ensures AllSameSale(Chunks(Select(config, purchases, config.Kind(purchases[k])), config.Limit()))
    {
      var kind := config.Kind(purchases[k]);
      var chunks: seq<Group> := Chunks(Select(config, purchases, kind), config.Limit());
      forall c, i | 0 <= c < |chunks| && 0 <= i < |chunks[c]|
        ensures chunks[c][i].saleId == purchases[k].saleId
      {
        ChunkMember(Select(config, purchases, kind), config.Limit(), c, i);
        SelectMembers(config, purchases, kind, chunks[c][i]);
        KeyFixesParts(chunks[c][i].channel, chunks[c][i].saleId, purchases[k].channel, purchases[k].saleId);
      }
    }
  }

  // When two purchases share a key: they have one channel, and batching per sale one sale as
  // well, if no sale id holds a colon.
  lemma KeysAgree(config: BatchConfig, p: Purchase, q: Purchase)
    ensures !config.onlyBatchSameSale ==> (config.Key(p) == config.Key(q) <==> p.channel == q.channel)
    ensures config.onlyBatchSameSale && ':' !in p.saleId && ':' !in q.saleId ==>
      (config.Key(p) == config.Key(q) <==> p.channel == q.channel && p.saleId == q.saleId)
  {
    if config.onlyBatchSameSale && ':' !in p.saleId && ':' !in q.saleId && config.Key(p) == config.Key(q) {
      KeyFixesParts(p.channel, p.saleId, q.channel, q.saleId);
    }
  }

  // A group by the fields of its purchases: not too many, of one channel, and alone if no
  // secret sharing is needed.
  lemma GroupMeans(config: BatchConfig, groups: seq<Group>, purchases: seq<Purchase>, g: nat, i: nat, j: nat)
    requires WellBatched(config, groups, purchases) && g < |groups| && i < |groups[g]| && j < |groups[g]|
    ensures |groups[g]| <= config.maxPurchasesPerThread || |groups[g]| == 1
    ensures groups[g][i].needsVss == Some(false) ==> |groups[g]| == 1
    ensures !config.onlyBatchSameSale ==> groups[g][i].channel == groups[g][j].channel
    ensures config.onlyBatchSameSale && ':' !in groups[g][i].saleId && ':' !in groups[g][j].saleId ==>
      groups[g][i].channel == groups[g][j].channel && groups[g][i].saleId == groups[g][j].saleId
  {
    hide Partitions, AllButLastFull;
    var p, q := groups[g][i], groups[g][j];
    assert IsThreadInput(config, groups[g]);
    assert config.Kind(p) == config.Kind(groups[g][0]) == config.Kind(q);
    KeysAgree(config, p, q);
  }

  // The smallest mixed group: two purchases of one key and two sales, with room for both.
  lemma MixedPair(config: BatchConfig, first: Purchase, second: Purchase)
    requires config.maxPurchasesPerThread >= 2 && config.Key(first) == config.Key(second)
    requires first.needsVss != Some(false) && second.needsVss != Some(false)
    requires first.saleId != second.saleId
    ensures !ChunksOfOneSale(config, [first, second])
  {
    var pair, kind := [first, second], config.Kind(first);
    assert [first][..0] == [] && pair[..1] == [first];
    assert Select(config, [first], kind) == [first];
    assert Select(config, pair, kind) == pair;
    assert Chunks(pair, config.Limit()) == [pair];
    assert pair[0] == first && config.Kind(pair[0]).Some?;
    assert [pair][0] == pair && !SameSale(pair) && !AllSameSale([pair]);
  }

  // The condition on sale ids is needed: with a colon in one, two sales can share a key even
  // when batching per sale.
  lemma ColonMixesSales(config: BatchConfig, first: Purchase, second: Purchase)
    requires config.onlyBatchSameSale && config.maxPurchasesPerThread >= 2
    requires first.needsVss != Some(false) && second.needsVss != Some(false)
    requires first.channel == "a" && first.saleId == "b:c" && second.channel == "a:b" && second.saleId == "c"
    ensures !ChunksOfOneSale(config, [first, second])
  {
    assert config.Key(first) == "a:b:c" == config.Key(second);
    MixedPair(config, first, second);
  }

  // ---------------------------------------------------------------- conservation

  lemma {:induction false} CountOfKind(config: BatchConfig, purchases: seq<Purchase>, purchase: Purchase)
    ensures multiset(Select(config, purchases, config.Kind(purchase)))[purchase] == multiset(purchases)[purchase]
  {
    if purchases != [] {
      var k := |purchases| - 1;
      CountOfKind(config, purchases[..k], purchase);
      assert purchases == purchases[..k] + [purchases[k]];
    }
  }

  lemma NoGroupsOf(config: BatchConfig, kind: Option<string>)
    ensures GroupsOf(config, [], kind) == []
  {
  }

  lemma OnlyOfItsKind(config: BatchConfig, group: Group, purchase: Purchase)
    requires IsThreadInput(config, group)
    ensures multiset(group)[purchase]
         == multiset(if config.Kind(group[0]) == config.Kind(purchase) then group else [])[purchase]
  {
    if config.Kind(group[0]) != config.Kind(purchase) {
      assert purchase !in group;
    }
  }

  lemma {:induction false} CountInGroups(config: BatchConfig, groups: seq<Group>, purchase: Purchase)
    requires forall i :: 0 <= i < |groups| ==> IsThreadInput(config, groups[i])
    ensures multiset(Flatten(groups))[purchase]
         == multiset(Flatten(GroupsOf(config, groups, config.Kind(purchase))))[purchase]
  {
    hide Flatten, GroupsOf;
    var kind := config.Kind(purchase);
    if groups == [] {
      NoGroupsOf(config, kind);
      NothingFlat();
    } else {
      var k := |groups| - 1;
      CountInGroups(config, groups[..k], purchase);
      assert groups == groups[..k] + [groups[k]];
      FlattenSnoc(groups[..k], groups[k]);
      FlattenGroupsSnoc(config, groups[..k], groups[k], kind);
      OnlyOfItsKind(config, groups[k], purchase);
    }
  }

  // No purchase is lost or doubled by the grouping.
  lemma BatchingConserves(config: BatchConfig, groups: seq<Group>, purchases: seq<Purchase>)
    requires WellBatched(config, groups, purchases)
    ensures multiset(Flatten(groups)) == multiset(purchases)
  {
    hide GroupsOf, Flatten, Select;
    forall purchase: Purchase
      ensures multiset(Flatten(groups))[purchase] == multiset(purchases)[purchase]
    {
      CountInGroups(config, groups, purchase);
      CountOfKind(config, purchases, purchase);
      assert Flatten(GroupsOf(config, groups, config.Kind(purchase))) ==
          Select(config, purchases, config.Kind(purchase));
    }
  }

  lemma NoColonAfter(a: string, b: string)
    requires ':' !in b
    ensures forall i :: |a| < i < |a + ":" + b| ==> (a + ":" + b)[i] != ':'
  {
  }

  // The last colon tells a channel from a sale id.
  lemma KeyFixesParts(a: string, b: string, c: string, d: string)
    requires a + ":" + b == c + ":" + d && ':' !in b && ':' !in d
    ensures a == c && b == d
  {
    var s := a + ":" + b;
    NoColonAfter(a, b);
    NoColonAfter(c, d);
    assert s[|a|] == ':' && s[|c|] == ':';
    assert a == s[..|a|] && c == s[..|c|] && b == s[|a| + 1..] && d == s[|c| + 1..];
  }
}
