/** The seller daemon: ticks that turn newly paid purchases into threads and remember them. */
module SellerDaemon {
  import opened Batching
  import opened Threads
  import opened Wrappers
  import opened Sequences

  datatype DaemonError = NoPurchases | MixedSales

  datatype DaemonConfig = DaemonConfig(batch: BatchConfig, autoRespond: bool)

  // ---------------------------------------------------------------- discovery

  // No two purchases have the same transaction.
  ghost predicate DistinctTx(purchases: seq<Purchase>)
  {
    forall i, j :: 0 <= i < j < |purchases| ==> purchases[i].tx != purchases[j].tx
  }

  // Purchases from another source are added when their transaction is not known yet.
  method AddDiscovered(known: seq<Purchase>, found: seq<Purchase>) returns (purchases: seq<Purchase>)
    requires DistinctTx(known)
    ensures DistinctTx(purchases) && known <= purchases
    ensures forall tx :: Names(purchases, tx) <==> Names(known, tx) || Names(found, tx)
  {
    hide Names;
    purchases := known;
    assert forall tx :: !Names(found[..0], tx) by {
      forall tx { NamesNothing(tx); }
    }
    for k := 0 to |found|
      invariant DistinctTx(purchases) && known <= purchases
      invariant forall tx :: Names(purchases, tx) <==> Names(known, tx) || Names(found[..k], tx)
    {
      NamesGrow(purchases, found, k);
      if !Names(purchases, found[k].tx) {
        DistinctSnoc(purchases, found[k]);
        purchases := purchases + [found[k]];
      }
    }
    assert found[..|found|] == found;
  }

  lemma NamesGrow(purchases: seq<Purchase>, found: seq<Purchase>, k: nat)
    requires k < |found|
    ensures forall tx :: Names(purchases + [found[k]], tx) <==> Names(purchases, tx) || found[k].tx == tx
    ensures forall tx :: Names(found[..k + 1], tx) <==> Names(found[..k], tx) || found[k].tx == tx
  {
    hide Names;
    assert (purchases + [found[k]])[..|purchases|] == purchases && found[..k + 1][..k] == found[..k];
    forall tx
      ensures Names(purchases + [found[k]], tx) <==> Names(purchases, tx) || found[k].tx == tx
      ensures Names(found[..k + 1], tx) <==> Names(found[..k], tx) || found[k].tx == tx
    {
      NamesSnoc(purchases + [found[k]], |purchases|, tx);
      NamesSnoc(found[..k + 1], k, tx);
    }
  }

  lemma DistinctSnoc(purchases: seq<Purchase>, purchase: Purchase)
    requires DistinctTx(purchases) && !Names(purchases, purchase.tx)
    ensures DistinctTx(purchases + [purchase])
  {
  }

  // ---------------------------------------------------------------- the purchases of a tick

  predicate IsWanted(purchase: Purchase, localSales: set<string>, known: set<string>)
  {
    purchase.status == "paid" && purchase.saleId in localSales && purchase.tx !in known
  }

  function Paid(purchases: seq<Purchase>, localSales: set<string>, known: set<string>): (r: seq<Purchase>)
    ensures |r| <= |purchases|
    ensures forall p :: p in r <==> p in purchases && IsWanted(p, localSales, known)
  {
    if purchases == [] then []
    else
      var k := |purchases| - 1;
      var rest := Paid(purchases[..k], localSales, known);
      assert purchases == purchases[..k] + [purchases[k]];
      if IsWanted(purchases[k], localSales, known) then rest + [purchases[k]] else rest
  }

  lemma {:induction false} PaidDistinct(purchases: seq<Purchase>, localSales: set<string>, known: set<string>)
    requires DistinctTx(purchases)
    ensures DistinctTx(Paid(purchases, localSales, known))
  {
    if purchases != [] {
      var k := |purchases| - 1;
      PaidDistinct(purchases[..k], localSales, known);
      var rest := Paid(purchases[..k], localSales, known);
      forall i | 0 <= i < |rest|
        ensures rest[i].tx != purchases[k].tx
      {
        assert rest[i] in purchases[..k];
      }
    }
  }

  // Puts a purchase behind the last one whose transaction is not after its own.
  function InsertedByTx(sorted: seq<Purchase>, purchase: Purchase): (r: seq<Purchase>)
    ensures multiset(r) == multiset(sorted) + multiset{purchase}
  {
    if sorted == [] then [purchase]
    else
      var k := |sorted| - 1;
      assert sorted == sorted[..k] + [sorted[k]];
      if UpTo(sorted[k].tx, purchase.tx) then sorted + [purchase]
      else InsertedByTx(sorted[..k], purchase) + [sorted[k]]
  }

  // The purchases in the order of their transactions.
  function ByTx(purchases: seq<Purchase>): (r: seq<Purchase>)
    ensures multiset(r) == multiset(purchases)
  {
    if purchases == [] then []
    else
      var k := |purchases| - 1;
      assert purchases == purchases[..k] + [purchases[k]];
      InsertedByTx(ByTx(purchases[..k]), purchases[k])
  }

  predicate SortedByTx(purchases: seq<Purchase>)
  {
    forall i, j :: 0 <= i < j < |purchases| ==> UpTo(purchases[i].tx, purchases[j].tx)
  }

  lemma {:induction false} InsertedSorted(sorted: seq<Purchase>, purchase: Purchase)
    requires SortedByTx(sorted)
    ensures SortedByTx(InsertedByTx(sorted, purchase))
  {
    hide UpTo;
    if sorted != [] {
      var k := |sorted| - 1;
      UpToTotal(sorted[k].tx, purchase.tx);
      if UpTo(sorted[k].tx, purchase.tx) {
        forall i | 0 <= i < k
          ensures UpTo(sorted[i].tx, purchase.tx)
        {
          UpToTransitive(sorted[i].tx, sorted[k].tx, purchase.tx);
        }
      } else {
        InsertedSorted(sorted[..k], purchase);
        var front := InsertedByTx(sorted[..k], purchase);
        forall p | p in front
          ensures UpTo(p.tx, sorted[k].tx)
        {
          assert p in multiset(front);
          assert p == purchase || p in sorted[..k];
        }
      }
    }
  }

  lemma {:induction false} ByTxSorted(purchases: seq<Purchase>)
    ensures SortedByTx(ByTx(purchases))
  {
    if purchases != [] {
      var k := |purchases| - 1;
      ByTxSorted(purchases[..k]);
      InsertedSorted(ByTx(purchases[..k]), purchases[k]);
    }
  }

  // The purchases a tick answers, in the order of their transactions.
  function Wanted(purchases: seq<Purchase>, localSales: set<string>, known: set<string>): (r: seq<Purchase>)
    ensures |r| <= |purchases|
    ensures forall p :: p in r <==> p in purchases && IsWanted(p, localSales, known)
  {
    var paid := Paid(purchases, localSales, known);
    var sorted := ByTx(paid);
    assert |multiset(sorted)| == |sorted| && |multiset(paid)| == |paid|;
    assert forall p :: p in sorted <==> p in multiset(paid);
    sorted
  }

  // They are the unseen paid purchases of local sales, each once, and sorted.
  lemma WantedSorted(purchases: seq<Purchase>, localSales: set<string>, known: set<string>)
    requires DistinctTx(purchases)
    ensures DistinctTx(Wanted(purchases, localSales, known)) && SortedByTx(Wanted(purchases, localSales, known))
    ensures forall p :: p in Wanted(purchases, localSales, known) <==>
      p in purchases && p.status == "paid" && p.saleId in localSales && p.tx !in known
  {
    var paid := Paid(purchases, localSales, known);
    PaidDistinct(purchases, localSales, known);
    ByTxSorted(paid);
    DistinctRearranged(paid, ByTx(paid));
  }

  lemma {:induction false} DistinctCounts(purchases: seq<Purchase>, purchase: Purchase)
    requires DistinctTx(purchases)
    ensures multiset(purchases)[purchase] <= 1
  {
    if purchases != [] {
      var k := |purchases| - 1;
      assert purchases == purchases[..k] + [purchases[k]];
      DistinctCounts(purchases[..k], purchase);
      forall i | 0 <= i < k
        ensures purchases[..k][i] != purchases[k]
      {
        assert purchases[i].tx != purchases[k].tx;
      }
      assert purchases[k] !in purchases[..k];
    }
  }

  // Rearranging purchases keeps their transactions distinct.
  lemma DistinctRearranged(purchases: seq<Purchase>, rearranged: seq<Purchase>)
    requires DistinctTx(purchases) && multiset(rearranged) == multiset(purchases)
    ensures DistinctTx(rearranged)
  {
    forall i, j | 0 <= i < j < |rearranged|
      ensures rearranged[i].tx != rearranged[j].tx
    {
      var p, q := rearranged[i], rearranged[j];
      assert p in multiset(purchases) && q in multiset(purchases);
      var k :| 0 <= k < |purchases| && purchases[k] == p;
      var l :| 0 <= l < |purchases| && purchases[l] == q;
      if p == q {
        CountTwice(rearranged, i, j);
        DistinctCounts(purchases, p);
      }
    }
  }

  lemma CountTwice(purchases: seq<Purchase>, i: nat, j: nat)
    requires i < j < |purchases| && purchases[i] == purchases[j]
    ensures multiset(purchases)[purchases[i]] >= 2
  {
    assert purchases == purchases[..j] + purchases[j..];
    assert purchases[..j][i] in multiset(purchases[..j]) && purchases[j..][0] in multiset(purchases[j..]);
  }

  lemma {:induction false} FlattenPrefix(groups: seq<Group>, k: nat)
    requires k <= |groups|
    ensures Flatten(groups[..k]) <= Flatten(groups)
    decreases |groups|
  {
    if k < |groups| {
      var n := |groups| - 1;
      FlattenPrefix(groups[..n], k);
      assert groups[..n][..k] == groups[..k];
    } else {
      assert groups[..k] == groups;
    }
  }

  lemma FlattenStep(groups: seq<Group>, g: nat)
    requires g < |groups|
    ensures Flatten(groups[..g + 1]) == Flatten(groups[..g]) + groups[g]
    ensures Flatten(groups[..g]) + groups[g] <= Flatten(groups)
  {
    hide Flatten;
    TakeNext(groups, g);
    FlattenSnoc(groups[..g], groups[g]);
    FlattenPrefix(groups, g + 1);
  }

  lemma LaterIsNew(before: seq<Purchase>, group: Group, all: seq<Purchase>, i: nat)
    requires before + group <= all && DistinctTx(all) && i < |group|
    ensures group[i] in all && !Names(before, group[i].tx)
  {
    assert all[|before| + i] == group[i];
    forall j | 0 <= j < |before|
      ensures before[j].tx != group[i].tx
    {
      assert all[j] == before[j];
    }
  }

  // The purchases of one group are wanted, and in no earlier group.
  lemma GroupIsNew(groups: seq<Group>, g: nat, wanted: seq<Purchase>, i: nat)
    requires g < |groups| && multiset(Flatten(groups)) == multiset(wanted) && DistinctTx(wanted)
    requires i < |groups[g]|
    ensures groups[g][i] in wanted && !Names(Flatten(groups[..g]), groups[g][i].tx)
  {
    hide Flatten, Names;
    FlattenStep(groups, g);
    DistinctRearranged(wanted, Flatten(groups));
    LaterIsNew(Flatten(groups[..g]), groups[g], Flatten(groups), i);
    assert groups[g][i] in multiset(Flatten(groups));
    assert groups[g][i] in multiset(wanted);
  }

  // ---------------------------------------------------------------- responding to a new group

  // What responding needs of a group that is stored nowhere yet.
  lemma NewGroupRespondable(threads: ThreadTable, saleOf: string -> string, selected: Group)
    requires OfOneSale(selected, saleOf) && forall tx :: Names(selected, tx) ==> !IsStored(threads, tx)
    ensures PartsOfOneSale(Parts(selected), saleOf) && Respondable(threads, Parts(selected))
  {
    hide Stored;
    PartsFrom(selected, selected[0].saleId, saleOf);
    forall tx | Names(WithVss(selected), tx)
      ensures !IsStored(threads, tx)
    {
      PartsSplit(selected, tx);
    }
    TogetherNowhere(threads, WithVss(selected));
    if WithVss(selected) == [] && WithoutVss(selected) != [] {
      var first := WithoutVss(selected)[0];
      forall tx | Names(first, tx)
        ensures !IsStored(threads, tx)
      {
        PartsSplit(selected, tx);
        assert AnyNames(WithoutVss(selected), tx);
      }
      TogetherNowhere(threads, first);
    }
  }

  // Responding to a new group, with fresh ids, stores exactly its purchases in addition, and a
  // second response to it, whatever the clock reads then, leaves every thread as it is.
  lemma RespondToNewGroup(threads: ThreadTable, readings: seq<nat>, saleOf: string -> string, selected: Group)
    requires Consistent(threads, saleOf) && OfOneSale(selected, saleOf)
    requires forall tx :: Names(selected, tx) ==> !IsStored(threads, tx)
    requires |readings| == |Parts(selected)| && IdsFresh(threads, readings, Parts(selected))
    ensures var after := Responded(threads, readings, Parts(selected));
      && Consistent(after, saleOf) && Extends(threads, after)
      && (forall tx :: IsStored(after, tx) <==> IsStored(threads, tx) || Names(selected, tx))
      && (forall later: seq<nat> :: |later| == |readings| ==> Responded(after, later, Parts(selected)) == after)
  {
    hide Parts, Responded, IsStored, Names, Consistent, Extends, OfOneSale, IdsFresh;
    NewGroupRespondable(threads, saleOf, selected);
    RespondedKeeps(threads, readings, saleOf, Parts(selected));
    forall tx
      ensures AnyNames(Parts(selected), tx) <==> Names(selected, tx)
    {
      PartsName(selected, tx);
    }
    forall later: seq<nat> | |later| == |readings|
      ensures Responded(Responded(threads, readings, Parts(selected)), later, Parts(selected))
           == Responded(threads, readings, Parts(selected))
    {
      RespondReplay(threads, readings, later, saleOf, Parts(selected));
    }
  }

  // Every purchase names the sale its transaction belongs to.
  ghost predicate SalesKnown(purchases: seq<Purchase>, saleOf: string -> string)
  {
    forall p :: p in purchases ==> p.saleId == saleOf(p.tx)
  }

  // What one scan finds: the sales sold here, the purchases on chain, and the readings of the
  // clock while it is handled, enough for a new thread for each purchase.
  datatype Scan = Scan(localSales: set<string>, purchases: seq<Purchase>, readings: seq<nat>)

  ghost predicate ScanSound(scan: Scan, saleOf: string -> string)
  {
    DistinctTx(scan.purchases) && SalesKnown(scan.purchases, saleOf) && |scan.readings| >= |scan.purchases|
  }

  // ---------------------------------------------------------------- the groups of a tick

  // The groups before the first that mixes sales.
  function OneSalePrefix(groups: seq<Group>): (r: seq<Group>)
    ensures r <= groups && AllSameSale(r)
    ensures |r| < |groups| ==> !SameSale(groups[|r|])
  {
    if groups == [] then []
    else
      var k := |groups| - 1;
      var before := OneSalePrefix(groups[..k]);
      if |before| == k && SameSale(groups[k]) then groups else before
  }

  lemma OneSalePrefixUnique(groups: seq<Group>, g: nat)
    requires g <= |groups| && AllSameSale(groups[..g]) && (g < |groups| ==> !SameSale(groups[g]))
    ensures OneSalePrefix(groups) == groups[..g]
  {
    hide SameSale, OneSalePrefix;
    var r := OneSalePrefix(groups);
    forall i | 0 <= i < g
      ensures SameSale(groups[i])
    {
      assert groups[..g][i] == groups[i];
    }
    assert forall i :: 0 <= i < |r| ==> SameSale(r[i]);
  }

  // The groups a tick answers.
  ghost function Handled(config: DaemonConfig, scan: Scan, seen: set<string>): seq<Group>
  {
    if config.autoRespond
    then OneSalePrefix(Grouped(config.batch, Wanted(scan.purchases, scan.localSales, seen)))
    else []
  }

  // Groups of purchases found, none of them seen, and none in two groups.
  ghost predicate UnseenGroups(groups: seq<Group>, found: seq<Purchase>, seen: set<string>)
  {
    && NonEmptyParts(groups)
    && (forall g, i :: 0 <= g < |groups| && 0 <= i < |groups[g]| ==>
          groups[g][i] in found && groups[g][i].tx !in seen)
    && (forall g, h, tx :: 0 <= g < h < |groups| && Names(groups[g], tx) ==> !Names(groups[h], tx))
  }

  lemma BatchedUnseen(config: BatchConfig, groups: seq<Group>, scan: Scan, seen: set<string>)
    requires WellBatched(config, groups, Wanted(scan.purchases, scan.localSales, seen)) && DistinctTx(scan.purchases)
    ensures GroupsSound(config, groups) && |groups| <= |scan.purchases|
    ensures UnseenGroups(groups, Wanted(scan.purchases, scan.localSales, seen), seen)
  {
    hide Flatten, Wanted, DistinctTx;
    var wanted := Wanted(scan.purchases, scan.localSales, seen);
    BatchingConserves(config, groups, wanted);
    WantedSorted(scan.purchases, scan.localSales, seen);
    GroupsFitReadings(config, groups, wanted);
    forall g, i | 0 <= g < |groups| && 0 <= i < |groups[g]|
      ensures groups[g][i] in wanted && !Names(Flatten(groups[..g]), groups[g][i].tx)
    {
      GroupIsNew(groups, g, wanted, i);
    }
    forall g, h, tx | 0 <= g < h < |groups| && Names(groups[g], tx)
      ensures !Names(groups[h], tx)
    {
      NamedBefore(groups, g, h, tx);
    }
  }

  lemma NamedBefore(groups: seq<Group>, g: nat, h: nat, tx: string)
    requires g < h <= |groups| && Names(groups[g], tx)
    ensures Names(Flatten(groups[..h]), tx)
  {
    var i :| 0 <= i < |groups[g]| && groups[g][i].tx == tx;
    assert groups[..h][g] == groups[g];
    InFlatten(groups[..h], g, i);
  }

  // A prefix of such groups is one, and none of them is stored.
  lemma UnseenPrefix(groups: seq<Group>, k: nat, found: seq<Purchase>, seen: set<string>, threads: ThreadTable)
    requires UnseenGroups(groups, found, seen) && k <= |groups|
    requires forall tx :: IsStored(threads, tx) ==> tx in seen
    ensures UnseenGroups(groups[..k], found, seen) && NewParts(threads, groups[..k])
    ensures forall tx :: AnyNames(groups[..k], tx) ==> tx !in seen && Names(found, tx)
  {
    hide IsStored;
    forall tx | AnyNames(groups[..k], tx)
      ensures tx !in seen && Names(found, tx)
    {
      var g :| 0 <= g < k && Names(groups[g], tx);
      var i :| 0 <= i < |groups[g]| && groups[g][i].tx == tx;
      InNames(found, groups[g][i]);
    }
  }

  lemma InNames(found: seq<Purchase>, purchase: Purchase)
    requires purchase in found
    ensures Names(found, purchase.tx)
  {
  }

  lemma UnseenOfOneSale(groups: seq<Group>, found: seq<Purchase>, seen: set<string>, saleOf: string -> string)
    requires UnseenGroups(groups, found, seen) && SalesKnown(found, saleOf) && AllSameSale(groups)
    ensures PartsOfOneSale(groups, saleOf)
  {
    forall g | 0 <= g < |groups|
      ensures OfOneSale(groups[g], saleOf)
    {
      assert SameSale(groups[g]);
      KnownGroup(groups[g], saleOf);
    }
  }

  lemma KnownGroup(group: Group, saleOf: string -> string)
    requires group != [] && SameSale(group) && SalesKnown(group, saleOf)
    ensures OfOneSale(group, saleOf)
  {
  }

  // What the loop over the groups needs of the next one.
  lemma NextUnseen(groups: seq<Group>, g: nat, found: seq<Purchase>, seen: set<string>, saleOf: string -> string)
    requires UnseenGroups(groups, found, seen) && SalesKnown(found, saleOf) && g < |groups|
    ensures SalesKnown(groups[g], saleOf)
    ensures forall tx :: Names(groups[g], tx) ==> tx !in seen && !AnyNames(groups[..g], tx)
    ensures forall tx :: AnyNames(groups[..g + 1], tx) <==> AnyNames(groups[..g], tx) || Names(groups[g], tx)
  {
    TakeNext(groups, g);
    forall tx
      ensures AnyNames(groups[..g + 1], tx) <==> AnyNames(groups[..g], tx) || Names(groups[g], tx)
    {
      AnyNamesSnoc(groups[..g], groups[g], tx);
    }
  }

  // All that is wanted is in the groups.
  lemma AllGrouped(config: BatchConfig, groups: seq<Group>, wanted: seq<Purchase>)
    requires WellBatched(config, groups, wanted)
    ensures forall p :: p in wanted ==> AnyNames(groups, p.tx)
  {
    hide Flatten, WellBatched;
    BatchingConserves(config, groups, wanted);
    forall p | p in wanted
      ensures AnyNames(groups, p.tx)
    {
      assert p in multiset(wanted);
      assert p in Flatten(groups);
      FlatInGroup(groups, p);
    }
  }

  lemma {:induction false} FlatInGroup(groups: seq<Group>, purchase: Purchase)
    requires purchase in Flatten(groups)
    ensures AnyNames(groups, purchase.tx)
  {
    var k := |groups| - 1;
    assert groups == groups[..k] + [groups[k]];
    AnyNamesSnoc(groups[..k], groups[k], purchase.tx);
    if purchase in groups[k] {
      InNames(groups[k], purchase);
    } else {
      FlatInGroup(groups[..k], purchase);
    }
  }

  function Txs(groups: seq<Group>): (txs: set<string>)
  {
    set g, i | 0 <= g < |groups| && 0 <= i < |groups[g]| :: groups[g][i].tx
  }

  lemma TxsNamed(groups: seq<Group>, tx: string)
    ensures tx in Txs(groups) <==> AnyNames(groups, tx)
  {
  }

  // A tick that fails stops at the first group that mixes sales: that group and every later
  // one stay unseen.
  ghost predicate StopsAt(groups: seq<Group>, handled: seq<Group>, seen: set<string>)
  {
    && handled < groups && AllSameSale(handled) && !SameSale(groups[|handled|])
    && (forall h, tx :: |handled| <= h < |groups| && Names(groups[h], tx) ==> tx !in seen)
  }

  lemma StopsHere(groups: seq<Group>, g: nat, found: seq<Purchase>, before: set<string>, after: set<string>)
    requires UnseenGroups(groups, found, before)
    requires g < |groups| && AllSameSale(groups[..g]) && !SameSale(groups[g])
    requires forall tx :: tx in after <==> tx in before || AnyNames(groups[..g], tx)
    ensures StopsAt(groups, groups[..g], after)
  {
    hide SameSale;
    forall h, tx | g <= h < |groups| && Names(groups[h], tx)
      ensures tx !in after
    {
      var i :| 0 <= i < |groups[h]| && groups[h][i].tx == tx;
      assert !AnyNames(groups[..g], tx);
    }
  }

  // ---------------------------------------------------------------- what answering does

  // These groups, new to the table and each of one sale, were answered at these readings.
  ghost predicate Answered(saleOf: string -> string, before: ThreadTable, readings: seq<nat>, handled: seq<Group>,
                           after: ThreadTable)
  {
    && |readings| == |handled| && NonEmptyParts(handled)
    && PartsOfOneSale(handled, saleOf) && NewParts(before, handled)
    && after == Responded(before, readings, handled)
  }

  // Nothing is lost if and only if the readings are distinct and no ids yet.
  lemma AnsweredExactly(saleOf: string -> string, before: ThreadTable, readings: seq<nat>, handled: seq<Group>,
                        after: ThreadTable)
    requires Consistent(before, saleOf) && NoneEmpty(before) && Answered(saleOf, before, readings, handled, after)
    ensures NothingLost(before, after, handled) <==> FreshReadings(before, readings)
    ensures FreshReadings(before, readings) ==> Extends(before, after)
    ensures forall id :: id in after <==> id in before || id in readings
    ensures forall tx :: IsStored(after, tx) ==> IsStored(before, tx) || AnyNames(handled, tx)
  {
    hide Consistent, NoneEmpty, NothingLost, Extends, IsStored, NewParts, Responded;
    NothingLostExactly(before, readings, saleOf, handled);
    FreshExactly(before, readings, handled);
    RespondAddsOnly(before, readings, handled);
  }

  lemma AnsweredNothing(saleOf: string -> string, threads: ThreadTable)
    ensures Answered(saleOf, threads, [], [], threads)
  {
  }

  // Two answers in a row, the second of purchases that were new before the first.
  lemma AnsweredThen(saleOf: string -> string, first: ThreadTable, readings: seq<nat>, handled: seq<Group>,
                     second: ThreadTable, later: seq<nat>, more: seq<Group>, third: ThreadTable)
    requires Answered(saleOf, first, readings, handled, second) && Answered(saleOf, second, later, more, third)
    requires forall tx :: AnyNames(more, tx) ==> !IsStored(first, tx) && !AnyNames(handled, tx)
    ensures Answered(saleOf, first, readings + later, handled + more, third)
    ensures forall tx :: AnyNames(handled + more, tx) <==> AnyNames(handled, tx) || AnyNames(more, tx)
  {
    hide Responded, Names, IsStored;
    RespondedConcat(first, readings, handled, later, more);
    forall tx
      ensures AnyNames(handled + more, tx) <==> AnyNames(handled, tx) || AnyNames(more, tx)
    {
      AnyNamesBoth(handled, more, tx);
    }
    NewPartsBoth(first, handled, second, more);
  }

  lemma NewPartsBoth(first: ThreadTable, handled: seq<Group>, second: ThreadTable, more: seq<Group>)
    requires NewParts(first, handled) && NewParts(second, more)
    requires forall tx :: AnyNames(more, tx) ==> !IsStored(first, tx) && !AnyNames(handled, tx)
    ensures NewParts(first, handled + more)
  {
    hide Names, IsStored;
    var all := handled + more;
    forall tx | AnyNames(all, tx)
      ensures !IsStored(first, tx)
    {
      AnyNamesBoth(handled, more, tx);
    }
    forall i, j, tx | 0 <= i < j < |all| && Names(all[i], tx)
      ensures !Names(all[j], tx)
    {
      if i < |handled| <= j {
        assert Names(handled[i], tx);
        assert AnyNames(handled, tx);
        assert Names(more[j - |handled|], tx) ==> AnyNames(more, tx);
      } else if j < |handled| {
        assert Names(handled[i], tx);
      } else {
        assert Names(more[i - |handled|], tx);
      }
    }
  }

  lemma AnyNamesBoth(handled: seq<Group>, more: seq<Group>, tx: string)
    ensures AnyNames(handled + more, tx) <==> AnyNames(handled, tx) || AnyNames(more, tx)
  {
    hide Names;
    var all := handled + more;
    if AnyNames(handled, tx) {
      var i :| 0 <= i < |handled| && Names(handled[i], tx);
      assert Names(all[i], tx);
    }
    if AnyNames(more, tx) {
      var i :| 0 <= i < |more| && Names(more[i], tx);
      assert Names(all[|handled| + i], tx);
    }
  }

  // A tick that mixes no sales loses nothing if and only if the readings it uses are distinct
  // and no ids yet.
  lemma TickLosesNothingExactly(config: BatchConfig, groups: seq<Group>, scan: Scan, readings: seq<nat>,
                                saleOf: string -> string, threads: ThreadTable, seen: set<string>)
    requires WellBatched(config, groups, Wanted(scan.purchases, scan.localSales, seen)) && AllSameSale(groups)
    requires DistinctTx(scan.purchases) && SalesKnown(scan.purchases, saleOf) && |readings| == |groups|
    requires Consistent(threads, saleOf) && NoneEmpty(threads) && forall tx :: IsStored(threads, tx) ==> tx in seen
    ensures NonEmptyParts(groups)
    ensures NothingLost(threads, Responded(threads, readings, groups), groups) <==> FreshReadings(threads, readings)
  {
    hide WellBatched, AllSameSale, Consistent, NoneEmpty, IsStored, NothingLost, Responded;
    var wanted := Wanted(scan.purchases, scan.localSales, seen);
    BatchedUnseen(config, groups, scan, seen);
    WantedSales(scan, seen, saleOf);
    UnseenOfOneSale(groups, wanted, seen, saleOf);
    UnseenPrefix(groups, |groups|, wanted, seen, threads);
    assert groups[..|groups|] == groups;
    NothingLostExactly(threads, readings, saleOf, groups);
  }

  // The failing case, at an input: a scan finds two paid purchases that need no secret sharing,
  // and both are answered within one second. The tick handles both, and the first is then in
  // no thread.
  lemma TwoInOneSecond(config: DaemonConfig, first: Purchase, second: Purchase, localSales: set<string>,
                       seen: set<string>, threads: ThreadTable, now: nat)
    requires config.autoRespond && IsWanted(first, localSales, seen) && IsWanted(second, localSales, seen)
    requires first.needsVss == second.needsVss == Some(false)
    requires first.tx != second.tx && UpTo(first.tx, second.tx)
    requires forall tx :: IsStored(threads, tx) ==> tx in seen
    ensures !IsStored(Responded(threads, [now, now], [[first], [second]]), first.tx)
    ensures Handled(config, Scan(localSales, [first, second], [now, now]), seen) == [[first], [second]]
  {
    hide IsStored, Responded, Grouped, UpTo, OneSalePrefix;
    PairWanted(first, second, localSales, seen);
    PairAlone(config.batch, first, second);
    var groups: seq<Group> := [[first], [second]];
    assert AllSameSale(groups);
    OneSalePrefixUnique(groups, 2);
    assert groups[..2] == groups;
    forall tx | Names([first, second], tx)
      ensures !IsStored(threads, tx)
    {
    }
    OnlyInLast(threads, now, first, second);
  }

  lemma PairWanted(first: Purchase, second: Purchase, localSales: set<string>, seen: set<string>)
    requires IsWanted(first, localSales, seen) && IsWanted(second, localSales, seen)
    ensures Wanted([first, second], localSales, seen)
         == if UpTo(first.tx, second.tx) then [first, second] else [second, first]
  {
    var pair := [first, second];
    assert [first][..0] == [] && pair[..1] == [first];
    assert Paid([first], localSales, seen) == [first];
    assert Paid(pair, localSales, seen) == pair;
    assert ByTx([first]) == [first];
    assert ByTx(pair) == InsertedByTx([first], second);
    assert [second] + [first] == [second, first] && [first] + [second] == pair;
  }

  lemma PairAlone(config: BatchConfig, first: Purchase, second: Purchase)
    requires first.needsVss == second.needsVss == Some(false)
    ensures Grouped(config, [first, second]) == [[first], [second]]
  {
    var pair := [first, second];
    assert [first][..0] == [] && pair[..1] == [first];
    assert Progressed(config, [first]) == Progress([[first]], map[]);
    assert Progressed(config, pair) == Progress([[first], [second]], map[]);
    assert Leftovers(map[]) == [];
  }

  // ---------------------------------------------------------------- the daemon

  lemma RespondedNone(threads: ThreadTable, readings: seq<nat>, parts: seq<Group>)
    requires |readings| >= |parts|
    ensures Responded(threads, readings[..0], parts[..0]) == threads
  {
  }

  lemma RespondedNext(threads: ThreadTable, readings: seq<nat>, parts: seq<Group>, k: nat)
    requires |readings| >= |parts| && NonEmptyParts(parts) && k < |parts|
    ensures Responded(threads, readings[..k + 1], parts[..k + 1])
         == Upserted(Responded(threads, readings[..k], parts[..k]), readings[k], parts[k])
  {
    hide Upserted;
    assert parts[..k + 1][..k] == parts[..k] && readings[..k + 1][..k] == readings[..k];
  }

  // A group built by the daemon is answered by a single upsert.
  lemma OnePart(config: BatchConfig, group: Group)
    requires IsThreadInput(config, group)
    ensures group != [] && Parts(group) == [group]
  {
    hide WithVss, WithoutVss;
    if config.Kind(group[0]) == None {
      AloneIsPart(group[0]);
      assert group == [group[0]];
    } else {
      AllNeedVss(group);
    }
  }

  lemma RespondedOne(threads: ThreadTable, now: nat, group: Group)
    requires group != []
    ensures Responded(threads, [now], [group]) == Upserted(threads, now, group)
  {
    hide Upserted;
    assert [group][..0] == [] && [now][..0] == [];
  }

  lemma NoParts()
    ensures WithVss([]) == [] && WithoutVss([]) == []
  {
  }

  lemma {:induction false} AllNeedVss(group: Group)
    requires forall i :: 0 <= i < |group| ==> group[i].needsVss != Some(false)
    ensures WithVss(group) == group && WithoutVss(group) == []
  {
    hide WithVss, WithoutVss;
    if group == [] {
      NoParts();
    } else {
      var k := |group| - 1;
      AllNeedVss(group[..k]);
      VssSnoc(group[..k], group[k]);
      assert group == group[..k] + [group[k]];
    }
  }

  // The thread is of this sale and holds this purchase.
  predicate Keeps(thread: ThreadState, saleId: string, tx: string)
  {
    thread.saleId == saleId && HasTx(thread.purchases, tx)
  }

  predicate IsFirstKeeper(threads: ThreadTable, saleId: string, tx: string, id: nat)
  {
    && id in threads && Keeps(threads[id], saleId, tx)
    && forall other :: other in threads && Keeps(threads[other], saleId, tx) ==> id <= other
  }

  lemma {:induction false} SomeFirstKeeper(threads: ThreadTable, saleId: string, tx: string, id: nat)
    returns (first: nat)
    requires id in threads && Keeps(threads[id], saleId, tx)
    ensures IsFirstKeeper(threads, saleId, tx, first)
  {
    first := id;
    if !IsFirstKeeper(threads, saleId, tx, id) {
      var other :| other in threads && Keeps(threads[other], saleId, tx) && other < id;
      first := SomeFirstKeeper(threads, saleId, tx, other);
    }
  }

  class Seller {
    var threads: ThreadTable
    // The stored set of purchases seen, and its copy in memory.
    var seen: set<string>
    var known: set<string>

    // No purchase is in two threads, no thread is empty, and all that is stored is seen.
    ghost predicate Sound(saleOf: string -> string)
      reads this
    {
      && Consistent(threads, saleOf) && NoneEmpty(threads)
      && (forall tx :: IsStored(threads, tx) ==> tx in seen)
      && known == seen
    }

    // Moreover all that is seen is stored: a purchase is seen exactly when it is in a thread,
    // and no purchase is in two.
    ghost predicate Valid(saleOf: string -> string)
      reads this
    {
      Sound(saleOf) && forall tx :: tx in seen ==> IsStored(threads, tx)
    }

    constructor (ghost saleOf: string -> string)
      ensures Valid(saleOf) && threads == map[] && seen == {}
    {
      threads, seen, known := map[], {}, {};
    }

    method UpsertThreadForPurchases(selected: Group, now: nat)
      requires selected != []
      modifies `threads
      ensures threads == Upserted(old(threads), now, selected)
    {
      hide HasTx, Names;
      var threadId, thread := now, ThreadState(selected[0].saleId, AsThreadPurchases(selected));
      if id :| id in threads && IsFirstMatch(threads, selected, id) {
        threadId, thread := id, threads[id];
      } else {
        forall tx | Names(selected, tx)
          ensures HasTx(thread.purchases, tx)
        {
          AsThreadPurchasesHas(selected, tx);
        }
        MergedNothing(thread.purchases, selected);
      }
      ghost var before := thread;
      for k := 0 to |selected|
        invariant thread == before.(purchases := Merged(before.purchases, selected[..k]))
      {
        assert selected[..k + 1][..k] == selected[..k];
        if !HasTx(thread.purchases, selected[k].tx) {
          thread := thread.(purchases := thread.purchases + [ToThreadPurchase(selected[k])]);
        }
      }
      assert selected[..|selected|] == selected;
      threads := threads[threadId := thread];
    }

    method PhaseRespond(selected: Group, readings: seq<nat>) returns (r: Result<(), DaemonError>)
      requires |readings| == |Parts(selected)|
      modifies `threads
      ensures r == if selected == [] then Err(NoPurchases) else if !SameSale(selected) then Err(MixedSales) else Ok(())
      ensures r == Err(MixedSales) <==>
        exists i :: 0 <= i < |selected| && selected[i].saleId != selected[0].saleId
      ensures threads == if r.Err? then old(threads) else Responded(old(threads), readings, Parts(selected))
    {
      if selected == [] {
        return Err(NoPurchases);
      }
      if exists i :: 0 <= i < |selected| && selected[i].saleId != selected[0].saleId {
        return Err(MixedSales);
      }
      var vssBatch, noVssSingletons := [], [];
      for k := 0 to |selected|
        invariant vssBatch == WithVss(selected[..k]) && noVssSingletons == WithoutVss(selected[..k])
      {
        assert selected[..k + 1][..k] == selected[..k];
        if selected[k].needsVss == Some(false) {
          noVssSingletons := noVssSingletons + [[selected[k]]];
        } else {
          vssBatch := vssBatch + [selected[k]];
        }
      }
      assert selected[..|selected|] == selected;
      RespondToParts(vssBatch, noVssSingletons, readings, Parts(selected));
      return Ok(());
    }

    // Upserts the batch, if there is one, and then each of the single purchases.
    method RespondToParts(vssBatch: Group, singletons: seq<Group>, readings: seq<nat>, ghost parts: seq<Group>)
      requires NonEmptyParts(parts) && |readings| == |parts|
      requires parts == (if vssBatch == [] then [] else [vssBatch]) + singletons
      modifies `threads
      ensures threads == Responded(old(threads), readings, parts)
    {
      hide Upserted, Responded;
      var used := 0;
      RespondedNone(threads, readings, parts);
      if vssBatch != [] {
        RespondedNext(threads, readings, parts, 0);
        UpsertThreadForPurchases(vssBatch, readings[0]);
        used := 1;
      }
      ghost var offset := used;
      for k := 0 to |singletons|
        invariant used == offset + k && threads == Responded(old(threads), readings[..used], parts[..used])
      {
        assert parts[used] == singletons[k];
        RespondedNext(old(threads), readings, parts, used);
        UpsertThreadForPurchases(singletons[k], readings[used]);
        used := used + 1;
      }
      assert parts[..used] == parts && readings[..used] == readings;
    }

    method MarkSeen(group: Group)
      modifies `seen, `known
      ensures forall tx :: tx in seen <==> tx in old(seen) || Names(group, tx)
      ensures old(known) == old(seen) ==> known == seen
    {
      for k := 0 to |group|
        invariant forall tx :: tx in seen <==> tx in old(seen) || exists i :: 0 <= i < k && group[i].tx == tx
        invariant old(known) == old(seen) ==> known == seen
      {
        seen := seen + {group[k].tx};
        known := known + {group[k].tx};
      }
    }

    method ThreadForPurchase(saleId: string, tx: string) returns (id: Option<nat>)
      ensures id.Some? ==> IsFirstKeeper(threads, saleId, tx, id.value)
      ensures id.Some? ==> forall t :: t in threads && Keeps(threads[t], saleId, tx) ==> id.value <= t
      ensures id.Some? ==> threads[id.value].saleId == saleId
      ensures id.Some? ==>
        exists i :: 0 <= i < |threads[id.value].purchases| && threads[id.value].purchases[i].tx == tx
      ensures id.None? ==> forall t :: t in threads ==> !Keeps(threads[t], saleId, tx)
    {
      if t :| t in threads && IsFirstKeeper(threads, saleId, tx, t) {
        return Some(t);
      }
      forall t | t in threads
        ensures !Keeps(threads[t], saleId, tx)
      {
        if Keeps(threads[t], saleId, tx) {
          var first := SomeFirstKeeper(threads, saleId, tx, t);
        }
      }
      return None;
    }

    // One group of a tick: a response, and then the marks. A group that mixes sales is refused
    // without any change.
    method HandleGroup(ghost config: BatchConfig, group: Group, now: nat, ghost saleOf: string -> string)
      returns (r: Result<(), DaemonError>)
      requires Sound(saleOf) && IsThreadInput(config, group) && SalesKnown(group, saleOf)
      requires forall tx :: Names(group, tx) ==> tx !in seen
      modifies this
      ensures Sound(saleOf)
      ensures r == if SameSale(group) then Ok(()) else Err(MixedSales)
      ensures threads == if r.Ok? then Upserted(old(threads), now, group) else old(threads)
      ensures forall tx :: tx in seen <==> tx in old(seen) || (r.Ok? && Names(group, tx))
    {
      hide IsStored, Names, OneThreadEach, Responded, Upserted, IsThreadInput, NoneEmpty, SalesAgree, Parts, Keeps;
      OnePart(config, group);
      RespondedOne(threads, now, group);
      r := PhaseRespond(group, [now]);
      if r.Err? {
        return;
      }
      assert OfOneSale(group, saleOf) by {
        KnownGroup(group, saleOf);
      }
      NewThread(old(threads), now, saleOf, group);
      MarkSeen(group);
      assert now in threads && Keeps(threads[now], group[0].saleId, group[0].tx);
      var thread := ThreadForPurchase(group[0].saleId, group[0].tx);
      assert thread.Some?;
    }

    // The loop of a tick over the groups it has built.
    method HandleGroups(ghost config: BatchConfig, groups: seq<Group>, readings: seq<nat>, ghost wanted: seq<Purchase>,
                        ghost saleOf: string -> string)
      returns (r: Result<(), DaemonError>)
      requires Sound(saleOf) && SalesKnown(wanted, saleOf) && |groups| <= |readings|
      requires GroupsSound(config, groups) && UnseenGroups(groups, wanted, seen)
      modifies this
      ensures Sound(saleOf)
      ensures var handled := OneSalePrefix(groups);
        && Answered(saleOf, old(threads), readings[..|handled|], handled, threads)
        && (forall tx :: tx in seen <==> tx in old(seen) || AnyNames(handled, tx))
        && (r.Err? ==> r == Err(MixedSales) && StopsAt(groups, handled, seen))
      ensures r.Ok? <==> AllSameSale(groups)
    {
      hide Consistent, NoneEmpty, IsStored, Names, AnyNames, Responded, Upserted, SameSale, SalesKnown, StopsAt;
      hide IsThreadInput, UnseenGroups, Answered;
      RespondedNone(threads, readings, groups);
      NothingNamed();
      UnseenNonEmpty(groups, wanted, seen);
      for g := 0 to |groups|
        invariant Sound(saleOf) && AllSameSale(groups[..g])
        invariant threads == Responded(old(threads), readings[..g], groups[..g])
        invariant forall tx :: tx in seen <==> tx in old(seen) || AnyNames(groups[..g], tx)
      {
        NextUnseen(groups, g, wanted, old(seen), saleOf);
        RespondedNext(old(threads), readings, groups, g);
        assert IsThreadInput(config, groups[g]);
        r := HandleGroup(config, groups[g], readings[g], saleOf);
        if r.Err? {
          StopsHere(groups, g, wanted, old(seen), seen);
          OneSalePrefixUnique(groups, g);
          PrefixAnswered(groups, g, readings, wanted, old(seen), saleOf, old(threads));
          return;
        }
      }
      OneSalePrefixUnique(groups, |groups|);
      PrefixAnswered(groups, |groups|, readings, wanted, old(seen), saleOf, old(threads));
      assert groups[..|groups|] == groups;
      return Ok(());
    }

    // One scan of the daemon. It fails exactly when the purchases it wants, cut into groups,
    // mix sales in one of them. What it answers and marks as seen is determined by the scan and
    // by what was seen before. It keeps "seen exactly when in a thread" if and only if the
    // readings of the clock that it uses are distinct and no ids yet.
    method Tick(config: DaemonConfig, scan: Scan, ghost saleOf: string -> string) returns (r: Result<(), DaemonError>)
      requires Sound(saleOf) && ScanSound(scan, saleOf)
      modifies this
      ensures Sound(saleOf)
      ensures var handled := Handled(config, scan, old(seen));
        && Answered(saleOf, old(threads), Taken(scan.readings, |handled|), handled, threads)
        && seen == old(seen) + Txs(handled)
        && (r.Err? ==> r == Err(MixedSales))
        && (r.Err? ==>
              StopsAt(Grouped(config.batch, Wanted(scan.purchases, scan.localSales, old(seen))), handled, seen))
        && (old(Valid(saleOf)) ==>
              (Valid(saleOf) <==> FreshReadings(old(threads), Taken(scan.readings, |handled|))))
        && (FreshReadings(old(threads), Taken(scan.readings, |handled|)) ==> Extends(old(threads), threads))
        && (forall id :: id in threads <==> id in old(threads) || id in Taken(scan.readings, |handled|))
      ensures forall tx :: tx in seen ==>
        tx in old(seen) || Names(Wanted(scan.purchases, scan.localSales, old(seen)), tx)
      ensures forall tx :: tx in seen ==> tx in old(seen) || exists p: Purchase ::
        p in scan.purchases && p.tx == tx && p.status == "paid" && p.saleId in scan.localSales
      ensures r.Ok? <==>
        !config.autoRespond || ChunksOfOneSale(config.batch, Wanted(scan.purchases, scan.localSales, old(seen)))
      ensures r.Ok? && config.autoRespond ==>
        forall p :: p in scan.purchases && p.status == "paid" && p.saleId in scan.localSales ==> p.tx in seen
    {
      hide Consistent, NoneEmpty, IsStored, Names, DistinctTx, WellBatched, AllSameSale, ChunksOfOneSale, Extends;
      hide FreshReadings, StopsAt, Wanted, Grouped, OneSalePrefix, Answered, UnseenGroups, Txs, AnyNames;
      ghost var before := seen;
      var paid := Wanted(scan.purchases, scan.localSales, known);
      if !config.autoRespond {
        AnsweredNothing(saleOf, threads);
        NothingNamed();
        r := Ok(());
      } else {
        var groups := BuildThreadInputs(config.batch, paid);
        GroupsOfOneSaleExactly(config.batch, groups, paid);
        BatchedUnseen(config.batch, groups, scan, seen);
        AllGrouped(config.batch, groups, paid);
        WantedSales(scan, before, saleOf);
        r := HandleGroups(config.batch, groups, scan.readings, paid, saleOf);
        PrefixOfAll(groups);
        PaidAreWanted(scan, before);
      }
      ghost var handled := Handled(config, scan, before);
      HandledNew(config, scan, before, saleOf);
      NamedWasPaid(scan, before);
      forall tx
        ensures tx in Txs(handled) <==> AnyNames(handled, tx)
      {
        TxsNamed(handled, tx);
      }
      ValidExactly(saleOf, old(threads), Taken(scan.readings, |handled|), handled, threads, before, seen);
    }

    // The daemon's loop, over any number of scans; a failed tick is reported and the loop goes
    // on. What it answers and marks as seen is the course of the run. A purchase is seen exactly
    // when it is in a thread, at the end if it was at the start, if and only if the readings of
    // the clock that the run uses are distinct and no ids at its start.
    method Run(config: DaemonConfig, scans: seq<Scan>, ghost saleOf: string -> string)
      requires Sound(saleOf) && forall k :: 0 <= k < |scans| ==> ScanSound(scans[k], saleOf)
      modifies this
      ensures Sound(saleOf)
      ensures var course := CourseOf(config, old(seen), scans);
        && Answered(saleOf, old(threads), course.readings, course.groups, threads)
        && seen == course.seen
        && (old(Valid(saleOf)) ==> (Valid(saleOf) <==> FreshReadings(old(threads), course.readings)))
        && (FreshReadings(old(threads), course.readings) ==> Extends(old(threads), threads))
        && (forall id :: id in threads <==> id in old(threads) || id in course.readings)
      ensures forall tx :: tx in seen ==> tx in old(seen) || FoundIn(scans, tx)
      ensures FreshRun(old(threads), scans) ==>
        Extends(old(threads), threads) && (old(Valid(saleOf)) ==> Valid(saleOf))
    {
      hide Consistent, NoneEmpty, IsStored, AnyNames, ScanSound, Extends, FreshReadings, Answered, FreshRun;
      known := seen;
      ghost var before, course := seen, Course(seen, [], []);
      AnsweredNothing(saleOf, threads);
      NothingNamed();
      for k := 0 to |scans|
        invariant Sound(saleOf) && course == CourseOf(config, before, scans[..k]) && seen == course.seen
        invariant Answered(saleOf, old(threads), course.readings, course.groups, threads)
        invariant forall tx :: tx in seen <==> tx in before || AnyNames(course.groups, tx)
        invariant forall tx :: tx in seen ==> tx in before || FoundIn(scans[..k], tx)
      {
        assert ScanSound(scans[k], saleOf);
        CourseNext(config, before, scans, k);
        HandledNew(config, scans[k], seen, saleOf);
        FoundMore(scans, k, seen);
        label start:
        var outcome := Tick(config, scans[k], saleOf);
        CourseGrows(config, before, course, scans[k], saleOf, old(threads), old@start(threads), threads);
        course := Next(config, course, scans[k]);
      }
      assert scans[..|scans|] == scans;
      ValidExactly(saleOf, old(threads), course.readings, course.groups, threads, before, seen);
      FreshCourse(config, old(threads), before, scans);
    }
  }

  // ---------------------------------------------------------------- the course of a run

  function Taken(readings: seq<nat>, n: nat): seq<nat>
  {
    if n <= |readings| then readings[..n] else readings
  }

  // What is seen after some ticks, the groups they answered and the readings they used.
  datatype Course = Course(seen: set<string>, groups: seq<Group>, readings: seq<nat>)

  ghost function Next(config: DaemonConfig, course: Course, scan: Scan): Course
  {
    var handled := Handled(config, scan, course.seen);
    Course(course.seen + Txs(handled), course.groups + handled, course.readings + Taken(scan.readings, |handled|))
  }

  ghost function CourseOf(config: DaemonConfig, seen: set<string>, scans: seq<Scan>): Course
  {
    if scans == [] then Course(seen, [], [])
    else Next(config, CourseOf(config, seen, scans[..|scans| - 1]), scans[|scans| - 1])
  }

  lemma CourseNext(config: DaemonConfig, seen: set<string>, scans: seq<Scan>, k: nat)
    requires k < |scans|
    ensures CourseOf(config, seen, scans[..k + 1]) == Next(config, CourseOf(config, seen, scans[..k]), scans[k])
  {
    hide Next;
    assert scans[..k + 1][..k] == scans[..k];
  }

  // What a tick answers was not seen before it.
  lemma HandledNew(config: DaemonConfig, scan: Scan, seen: set<string>, saleOf: string -> string)
    requires ScanSound(scan, saleOf)
    ensures forall tx :: AnyNames(Handled(config, scan, seen), tx) ==>
      tx !in seen && Names(Wanted(scan.purchases, scan.localSales, seen), tx)
  {
    hide Wanted, Grouped, WellBatched, OneSalePrefix;
    var wanted := Wanted(scan.purchases, scan.localSales, seen);
    var groups := Grouped(config.batch, wanted);
    GroupedWellBatched(config.batch, wanted);
    BatchedUnseen(config.batch, groups, scan, seen);
    NothingStored();
    UnseenPrefix(groups, |OneSalePrefix(groups)|, wanted, seen, map[]);
    NothingNamed();
  }

  lemma NothingStored()
    ensures forall tx :: !IsStored(map[], tx)
  {
  }

  lemma CourseGrows(config: DaemonConfig, seen: set<string>, course: Course, scan: Scan, saleOf: string -> string,
                    first: ThreadTable, second: ThreadTable, third: ThreadTable)
    requires Answered(saleOf, first, course.readings, course.groups, second)
    requires var handled := Handled(config, scan, course.seen);
      && Answered(saleOf, second, Taken(scan.readings, |handled|), handled, third)
      && forall tx :: AnyNames(handled, tx) ==> tx !in course.seen
    requires forall tx :: tx in course.seen <==> tx in seen || AnyNames(course.groups, tx)
    requires forall tx :: IsStored(first, tx) ==> tx in seen
    ensures var next := Next(config, course, scan);
      && Answered(saleOf, first, next.readings, next.groups, third)
      && forall tx :: tx in next.seen <==> tx in seen || AnyNames(next.groups, tx)
  {
    hide Answered, IsStored, AnyNames, Handled, Txs;
    var handled := Handled(config, scan, course.seen);
    AnsweredThen(saleOf, first, course.readings, course.groups, second, Taken(scan.readings, |handled|), handled,
        third);
    forall tx
      ensures tx in Txs(handled) <==> AnyNames(handled, tx)
    {
      TxsNamed(handled, tx);
    }
  }

  ghost predicate FoundIn(scans: seq<Scan>, tx: string)
  {
    exists k :: 0 <= k < |scans| && Names(scans[k].purchases, tx)
  }

  lemma FoundMore(scans: seq<Scan>, k: nat, seen: set<string>)
    requires k < |scans|
    ensures forall tx :: FoundIn(scans[..k], tx) || Names(Wanted(scans[k].purchases, scans[k].localSales, seen), tx) ==>
      FoundIn(scans[..k + 1], tx)
  {
    hide Wanted;
    var wanted := Wanted(scans[k].purchases, scans[k].localSales, seen);
    forall tx | Names(wanted, tx)
      ensures FoundIn(scans[..k + 1], tx)
    {
      var i :| 0 <= i < |wanted| && wanted[i].tx == tx;
      InNames(scans[k].purchases, wanted[i]);
      assert scans[..k + 1][k] == scans[k];
    }
    forall tx | FoundIn(scans[..k], tx)
      ensures FoundIn(scans[..k + 1], tx)
    {
      var j :| 0 <= j < k && Names(scans[..k][j].purchases, tx);
      assert scans[..k + 1][j] == scans[..k][j];
    }
  }

  // No two readings of the clock in the run are equal, and none is an id at its start.
  ghost predicate FreshRun(threads: ThreadTable, scans: seq<Scan>)
  {
    && (forall k :: 0 <= k < |scans| ==> FreshReadings(threads, scans[k].readings))
    && (forall j, k, id :: 0 <= j < k < |scans| && id in scans[j].readings ==> id !in scans[k].readings)
  }

  ghost predicate ReadIn(scans: seq<Scan>, id: nat)
  {
    exists j :: 0 <= j < |scans| && id in scans[j].readings
  }

  // Such a run uses distinct readings, none of them an id, whatever it handles.
  lemma {:induction false} FreshCourse(config: DaemonConfig, threads: ThreadTable, seen: set<string>, scans: seq<Scan>)
    ensures FreshRun(threads, scans) ==> FreshReadings(threads, CourseOf(config, seen, scans).readings)
    ensures forall id :: id in CourseOf(config, seen, scans).readings ==> ReadIn(scans, id)
  {
    hide Handled, FreshReadings, FreshRun, ReadIn, Taken;
    if scans == [] {
      FreshNothing(threads, []);
    } else {
      var k := |scans| - 1;
      var before := CourseOf(config, seen, scans[..k]);
      var taken := Taken(scans[k].readings, |Handled(config, scans[k], before.seen)|);
      FreshCourse(config, threads, seen, scans[..k]);
      assert CourseOf(config, seen, scans).readings == before.readings + taken;
      ReadLast(threads, scans);
      TakenPrefix(scans[k].readings, |Handled(config, scans[k], before.seen)|);
      if FreshRun(threads, scans) {
        FreshTaken(threads, scans[k].readings, taken);
        FreshBoth(threads, before.readings, taken);
      }
    }
  }

  lemma TakenPrefix(readings: seq<nat>, n: nat)
    ensures Taken(readings, n) <= readings
    ensures forall id :: id in Taken(readings, n) ==> id in readings
  {
  }

  lemma ReadLast(threads: ThreadTable, scans: seq<Scan>)
    requires scans != []
    ensures var k := |scans| - 1;
      && (forall id :: ReadIn(scans[..k], id) || id in scans[k].readings ==> ReadIn(scans, id))
      && (FreshRun(threads, scans) ==>
            && FreshRun(threads, scans[..k]) && FreshReadings(threads, scans[k].readings)
            && forall id :: ReadIn(scans[..k], id) ==> id !in scans[k].readings)
  {
    hide FreshReadings;
    var k := |scans| - 1;
    forall id | ReadIn(scans[..k], id)
      ensures ReadIn(scans, id)
    {
      var j :| 0 <= j < k && id in scans[..k][j].readings;
      assert id in scans[j].readings;
    }
  }

  lemma FreshTaken(threads: ThreadTable, readings: seq<nat>, taken: seq<nat>)
    requires FreshReadings(threads, readings) && taken <= readings
    ensures FreshReadings(threads, taken)
  {
  }

  lemma FreshBoth(threads: ThreadTable, readings: seq<nat>, later: seq<nat>)
    requires FreshReadings(threads, readings) && FreshReadings(threads, later)
    requires forall id :: id in readings ==> id !in later
    ensures FreshReadings(threads, readings + later)
  {
    var all := readings + later;
    forall i, j | 0 <= i < j < |all|
      ensures all[i] != all[j]
    {
      if i < |readings| <= j {
        assert all[i] in readings && all[j] == later[j - |readings|];
      }
    }
  }

  // ---------------------------------------------------------------- steps of the daemon's proofs

  // If all that was seen was stored, it is so afterwards exactly when nothing was lost.
  lemma ValidExactly(saleOf: string -> string, first: ThreadTable, readings: seq<nat>, handled: seq<Group>,
                     last: ThreadTable, before: set<string>, after: set<string>)
    requires Consistent(first, saleOf) && NoneEmpty(first) && Answered(saleOf, first, readings, handled, last)
    requires forall tx :: IsStored(first, tx) ==> tx in before
    requires forall tx :: tx in after <==> tx in before || AnyNames(handled, tx)
    ensures (forall tx :: tx in before ==> IsStored(first, tx)) ==>
      ((forall tx :: tx in after ==> IsStored(last, tx)) <==> FreshReadings(first, readings))
    ensures FreshReadings(first, readings) ==> Extends(first, last)
    ensures forall id :: id in last <==> id in first || id in readings
  {
    hide Consistent, NoneEmpty, Answered, IsStored, AnyNames, FreshReadings, Extends;
    AnsweredExactly(saleOf, first, readings, handled, last);
  }

  lemma UnseenNonEmpty(groups: seq<Group>, found: seq<Purchase>, seen: set<string>)
    requires UnseenGroups(groups, found, seen)
    ensures NonEmptyParts(groups)
  {
  }

  lemma PrefixAnswered(groups: seq<Group>, g: nat, readings: seq<nat>, wanted: seq<Purchase>, seen: set<string>,
                       saleOf: string -> string, threads: ThreadTable)
    requires UnseenGroups(groups, wanted, seen) && SalesKnown(wanted, saleOf)
    requires g <= |groups| <= |readings| && AllSameSale(groups[..g])
    requires forall tx :: IsStored(threads, tx) ==> tx in seen
    ensures NonEmptyParts(groups[..g])
    ensures Answered(saleOf, threads, readings[..g], groups[..g],
                     Responded(threads, readings[..g], groups[..g]))
  {
    hide AllSameSale, IsStored, Responded, SalesKnown, NewParts;
    UnseenPrefix(groups, g, wanted, seen, threads);
    UnseenOfOneSale(groups[..g], wanted, seen, saleOf);
  }

  lemma PrefixOfAll(groups: seq<Group>)
    ensures AllSameSale(groups) ==> OneSalePrefix(groups) == groups
  {
    if AllSameSale(groups) {
      assert groups[..|groups|] == groups;
      OneSalePrefixUnique(groups, |groups|);
    }
  }

  lemma WantedSales(scan: Scan, seen: set<string>, saleOf: string -> string)
    requires SalesKnown(scan.purchases, saleOf)
    ensures SalesKnown(Wanted(scan.purchases, scan.localSales, seen), saleOf)
  {
  }

  lemma NamedWasPaid(scan: Scan, seen: set<string>)
    requires DistinctTx(scan.purchases)
    ensures forall tx :: Names(Wanted(scan.purchases, scan.localSales, seen), tx) ==> exists p: Purchase ::
      p in scan.purchases && p.tx == tx && p.status == "paid" && p.saleId in scan.localSales
  {
    hide Wanted;
    var wanted := Wanted(scan.purchases, scan.localSales, seen);
    WantedSorted(scan.purchases, scan.localSales, seen);
    forall tx | Names(wanted, tx)
      ensures exists p: Purchase ::
        p in scan.purchases && p.tx == tx && p.status == "paid" && p.saleId in scan.localSales
    {
      var i :| 0 <= i < |wanted| && wanted[i].tx == tx;
      assert wanted[i] in wanted;
    }
  }

  lemma PaidAreWanted(scan: Scan, seen: set<string>)
    ensures forall p :: p in scan.purchases && p.status == "paid" && p.saleId in scan.localSales ==>
      p.tx in seen || p in Wanted(scan.purchases, scan.localSales, seen)
  {
  }

  lemma {:induction false} GroupsFit(groups: seq<Group>)
    requires forall i :: 0 <= i < |groups| ==> groups[i] != []
    ensures |groups| <= |Flatten(groups)|
  {
    if groups != [] {
      GroupsFit(groups[..|groups| - 1]);
    }
  }

  lemma GroupsFitReadings(config: BatchConfig, groups: seq<Group>, wanted: seq<Purchase>)
    requires WellBatched(config, groups, wanted)
    ensures |groups| <= |wanted|
  {
    GroupsFit(groups);
    BatchingConserves(config, groups, wanted);
    assert |multiset(Flatten(groups))| == |Flatten(groups)| && |multiset(wanted)| == |wanted|;
  }

  // An upsert of a new group adds a thread in which its purchases are found.
  lemma NewThread(threads: ThreadTable, now: nat, saleOf: string -> string, group: Group)
    requires Consistent(threads, saleOf) && NoneEmpty(threads) && OfOneSale(group, saleOf)
    requires forall tx :: Names(group, tx) ==> !IsStored(threads, tx)
    ensures var after := Upserted(threads, now, group);
      && Consistent(after, saleOf) && NoneEmpty(after)
      && (forall tx :: IsStored(after, tx) ==> IsStored(threads, tx) || Names(group, tx))
      && now in after && Keeps(after[now], group[0].saleId, group[0].tx)
  {
    hide Upserted, Names, IsStored, OneThreadEach, NoneEmpty, HasTx;
    var after := Upserted(threads, now, group);
    UpsertOfNew(threads, now, group);
    UpsertOfNewConsistent(threads, now, saleOf, group);
    UpsertAddsOnly(threads, now, group);
    NamesFirst(group);
    assert Stored(after, now, group[0].tx);
    assert Keeps(after[now], group[0].saleId, group[0].tx);
  }

  lemma NamesFirst(group: Group)
    requires group != []
    ensures Names(group, group[0].tx)
  {
  }

  // ---------------------------------------------------------------- when a tick fails

  // The failing case, at an input: two paid purchases of one channel and two sales, neither
  // seen, with room for both in a group. A tick that finds just these returns an error.
  lemma MixedPairStopsTick(config: DaemonConfig, first: Purchase, second: Purchase, localSales: set<string>,
                           seen: set<string>)
    requires config.autoRespond && !config.batch.onlyBatchSameSale && config.batch.maxPurchasesPerThread >= 2
    requires IsWanted(first, localSales, seen) && IsWanted(second, localSales, seen)
    requires first.needsVss != Some(false) && second.needsVss != Some(false)
    requires first.channel == second.channel && first.saleId != second.saleId
    ensures !ChunksOfOneSale(config.batch, Wanted([first, second], localSales, seen))
  {
    hide ChunksOfOneSale, Wanted;
    PairWanted(first, second, localSales, seen);
    MixedPair(config.batch, first, second);
    MixedPair(config.batch, second, first);
  }

  // With batching per sale, and no colon in a sale id, no tick ever fails.
  lemma PerSaleTicks(config: BatchConfig, discovered: seq<Purchase>, localSales: set<string>, seen: set<string>)
    requires config.onlyBatchSameSale && forall p :: p in discovered ==> ':' !in p.saleId
    ensures ChunksOfOneSale(config, Wanted(discovered, localSales, seen))
  {
    PerSaleNeverMixes(config, Wanted(discovered, localSales, seen));
  }
}
