/** The table of threads: which purchases each thread holds, and how responding to a group of
    purchases changes it. */
module Threads {
  import opened Batching
  import opened Wrappers

  datatype ThreadPurchase = ThreadPurchase(tx: string, saleId: string, needsVss: bool)

  datatype ThreadState = ThreadState(saleId: string, purchases: seq<ThreadPurchase>)

  // By thread id: the second in which the thread was created.
  type ThreadTable = map<nat, ThreadState>

  function ToThreadPurchase(purchase: Purchase): ThreadPurchase
  {
    ThreadPurchase(purchase.tx, purchase.saleId, if purchase.needsVss.Some? then purchase.needsVss.value else true)
  }

  predicate HasTx(purchases: seq<ThreadPurchase>, tx: string)
  {
    exists i :: 0 <= i < |purchases| && purchases[i].tx == tx
  }

  predicate Names(selected: Group, tx: string)
  {
    exists i :: 0 <= i < |selected| && selected[i].tx == tx
  }

  ghost predicate Stored(threads: ThreadTable, id: nat, tx: string)
  {
    id in threads && HasTx(threads[id].purchases, tx)
  }

  ghost predicate IsStored(threads: ThreadTable, tx: string)
  {
    exists id: nat :: Stored(threads, id, tx)
  }

  // No purchase is in two threads.
  ghost predicate OneThreadEach(threads: ThreadTable)
  {
    forall id: nat, other: nat, tx :: Stored(threads, id, tx) && Stored(threads, other, tx) ==> id == other
  }

  // Every purchase belongs to one sale, and a thread to the sale of its purchases.
  ghost predicate SalesAgree(threads: ThreadTable, saleOf: string -> string)
  {
    forall id: nat, tx :: Stored(threads, id, tx) ==> threads[id].saleId == saleOf(tx)
  }

  ghost predicate Consistent(threads: ThreadTable, saleOf: string -> string)
  {
    OneThreadEach(threads) && SalesAgree(threads, saleOf)
  }

  // Threads only gain purchases.
  ghost predicate Extends(before: ThreadTable, after: ThreadTable)
  {
    forall id :: id in before ==>
      id in after && after[id].saleId == before[id].saleId && before[id].purchases <= after[id].purchases
  }

  // ---------------------------------------------------------------- upserting

  // The purchases not yet there, appended.
  function Merged(purchases: seq<ThreadPurchase>, selected: Group): seq<ThreadPurchase>
  {
    if selected == [] then purchases
    else
      var k := |selected| - 1;
      var merged := Merged(purchases, selected[..k]);
      if HasTx(merged, selected[k].tx) then merged else merged + [ToThreadPurchase(selected[k])]
  }

  function AsThreadPurchases(selected: Group): (r: seq<ThreadPurchase>)
    ensures |r| == |selected|
    ensures forall i :: 0 <= i < |r| ==> r[i] == ToThreadPurchase(selected[i])
  {
    if selected == [] then []
    else AsThreadPurchases(selected[..|selected| - 1]) + [ToThreadPurchase(selected[|selected| - 1])]
  }

  predicate Matches(thread: ThreadState, selected: Group)
    requires selected != []
  {
    thread.saleId == selected[0].saleId &&
    exists i :: 0 <= i < |selected| && HasTx(thread.purchases, selected[i].tx)
  }

  // The first thread, by id, of the same sale with a purchase in common.
  predicate IsFirstMatch(threads: ThreadTable, selected: Group, id: nat)
    requires selected != []
  {
    && id in threads && Matches(threads[id], selected)
    && forall other :: other in threads && Matches(threads[other], selected) ==> id <= other
  }

  ghost function FirstMatch(threads: ThreadTable, selected: Group): (first: Option<nat>)
    requires selected != []
    ensures first.Some? ==> IsFirstMatch(threads, selected, first.value)
  {
    if id: nat :| IsFirstMatch(threads, selected, id) then Some(id) else None
  }

  // The table after an upsert of these purchases at the given second.
  ghost function Upserted(threads: ThreadTable, now: nat, selected: Group): ThreadTable
    requires selected != []
  {
    match FirstMatch(threads, selected)
    case Some(id) => threads[id := threads[id].(purchases := Merged(threads[id].purchases, selected))]
    case None => threads[now := ThreadState(selected[0].saleId, AsThreadPurchases(selected))]
  }

  lemma {:induction false} SomeFirstMatch(threads: ThreadTable, selected: Group, id: nat)
    requires selected != [] && id in threads && Matches(threads[id], selected)
    ensures FirstMatch(threads, selected).Some?
  {
    if !IsFirstMatch(threads, selected, id) {
      var other :| other in threads && Matches(threads[other], selected) && other < id;
      SomeFirstMatch(threads, selected, other);
    }
  }

  lemma {:induction false} MergedHas(purchases: seq<ThreadPurchase>, selected: Group, tx: string)
    ensures HasTx(Merged(purchases, selected), tx) <==> HasTx(purchases, tx) || Names(selected, tx)
    ensures purchases <= Merged(purchases, selected)
  {
    if selected != [] {
      var k := |selected| - 1;
      var merged := Merged(purchases, selected[..k]);
      MergedHas(purchases, selected[..k], tx);
      MergedHas(purchases, selected[..k], selected[k].tx);
      NamesSnoc(selected, k, tx);
      HasTxSnoc(merged, ToThreadPurchase(selected[k]), tx);
    }
  }

  lemma NamesSnoc(selected: Group, k: nat, tx: string)
    requires |selected| == k + 1
    ensures Names(selected, tx) <==> Names(selected[..k], tx) || selected[k].tx == tx
  {
  }

  lemma HasTxSnoc(purchases: seq<ThreadPurchase>, purchase: ThreadPurchase, tx: string)
    ensures HasTx(purchases + [purchase], tx) <==> HasTx(purchases, tx) || purchase.tx == tx
  {
    var all := purchases + [purchase];
    assert all[|purchases|] == purchase;
    if HasTx(purchases, tx) {
      var i :| 0 <= i < |purchases| && purchases[i].tx == tx;
      assert all[i].tx == tx;
    }
  }

  // Purchases that are all there already change nothing.
  lemma {:induction false} MergedNothing(purchases: seq<ThreadPurchase>, selected: Group)
    requires forall tx :: Names(selected, tx) ==> HasTx(purchases, tx)
    ensures Merged(purchases, selected) == purchases
  {
    if selected != [] {
      var k := |selected| - 1;
      forall tx | Names(selected[..k], tx)
        ensures HasTx(purchases, tx)
      {
        NamesSnoc(selected, k, tx);
      }
      MergedNothing(purchases, selected[..k]);
      assert Names(selected, selected[k].tx);
    }
  }

  lemma AsThreadPurchasesHas(selected: Group, tx: string)
    ensures HasTx(AsThreadPurchases(selected), tx) <==> Names(selected, tx)
  {
  }

  // A thread purchase repeats a purchase; without word on secret sharing it is taken to need it.
  ghost predicate Repeats(stored: ThreadPurchase, purchase: Purchase)
  {
    && stored.tx == purchase.tx && stored.saleId == purchase.saleId
    && (stored.needsVss <==> purchase.needsVss != Some(false))
  }

  lemma MatchMeans(thread: ThreadState, selected: Group)
    requires selected != []
    ensures Matches(thread, selected)
       <==> && thread.saleId == selected[0].saleId
            && exists i, j :: && 0 <= i < |selected| && 0 <= j < |thread.purchases|
                              && thread.purchases[j].tx == selected[i].tx
  {
  }

  lemma {:induction false} MergedMeans(purchases: seq<ThreadPurchase>, selected: Group)
    ensures purchases <= Merged(purchases, selected)
    ensures forall j :: |purchases| <= j < |Merged(purchases, selected)| ==>
      exists i :: 0 <= i < |selected| && Repeats(Merged(purchases, selected)[j], selected[i])
  {
    hide HasTx;
    if selected != [] {
      var k := |selected| - 1;
      MergedMeans(purchases, selected[..k]);
      forall j | |purchases| <= j < |Merged(purchases, selected)|
        ensures exists i :: 0 <= i < |selected| && Repeats(Merged(purchases, selected)[j], selected[i])
      {
        if j < |Merged(purchases, selected[..k])| {
          var i :| 0 <= i < k && Repeats(Merged(purchases, selected)[j], selected[..k][i]);
          assert Repeats(Merged(purchases, selected)[j], selected[i]);
        } else {
          assert Repeats(Merged(purchases, selected)[j], selected[k]);
        }
      }
    }
  }

  // An upsert by the fields of the threads: it changes one thread only. That is the first, by id,
  // of the sale with a purchase in common, which gains some of the selected purchases; or, when
  // there is none, a thread at the second read that holds just the selected ones.
  lemma UpsertMeans(threads: ThreadTable, now: nat, selected: Group) returns (id: nat)
    requires selected != []
    ensures var after := Upserted(threads, now, selected);
      && id in after && after.Keys == threads.Keys + {id} && after[id].saleId == selected[0].saleId
      && forall other :: other in threads && other != id ==> after[other] == threads[other]
    ensures (exists t :: t in threads && Matches(threads[t], selected)) ==>
      && id in threads && Matches(threads[id], selected)
      && (forall t :: t in threads && Matches(threads[t], selected) ==> id <= t)
      && threads[id].purchases <= Upserted(threads, now, selected)[id].purchases
      && forall j :: |threads[id].purchases| <= j < |Upserted(threads, now, selected)[id].purchases| ==>
           exists i :: 0 <= i < |selected| && Repeats(Upserted(threads, now, selected)[id].purchases[j], selected[i])
    ensures !(exists t :: t in threads && Matches(threads[t], selected)) ==>
      && id == now && |Upserted(threads, now, selected)[id].purchases| == |selected|
      && forall i :: 0 <= i < |selected| ==> Repeats(Upserted(threads, now, selected)[id].purchases[i], selected[i])
  {
    hide Matches, Merged;
    if t :| t in threads && Matches(threads[t], selected) {
      SomeFirstMatch(threads, selected, t);
      id := FirstMatch(threads, selected).value;
      MatchMeans(threads[id], selected);
      MergedMeans(threads[id].purchases, selected);
    } else {
      id := now;
    }
  }

  // ---------------------------------------------------------------- what an upsert keeps

  // The selected purchases are of one sale, as each of them says.
  ghost predicate OfOneSale(selected: Group, saleOf: string -> string)
  {
    && selected != []
    && forall i :: 0 <= i < |selected| ==> selected[i].saleId == selected[0].saleId == saleOf(selected[i].tx)
  }

  // Those of the selected purchases that are stored are in one thread.
  ghost predicate StoredTogether(threads: ThreadTable, selected: Group)
  {
    forall id: nat, other: nat, tx, ty ::
      Names(selected, tx) && Names(selected, ty) && Stored(threads, id, tx) && Stored(threads, other, ty) ==>
        id == other
  }

  // A stored purchase of the selection makes its thread the match.
  lemma MatchIsHolder(threads: ThreadTable, saleOf: string -> string, selected: Group, id: nat, tx: string)
    requires SalesAgree(threads, saleOf) && OfOneSale(selected, saleOf) && StoredTogether(threads, selected)
    requires Names(selected, tx) && Stored(threads, id, tx)
    ensures FirstMatch(threads, selected) == Some(id)
  {
    var i :| 0 <= i < |selected| && selected[i].tx == tx;
    assert Matches(threads[id], selected);
    SomeFirstMatch(threads, selected, id);
    var first := FirstMatch(threads, selected).value;
    assert Matches(threads[first], selected);
    var j :| 0 <= j < |selected| && HasTx(threads[first].purchases, selected[j].tx);
    assert Stored(threads, first, selected[j].tx) && Names(selected, selected[j].tx);
  }

  // A new thread gets an id of its own.
  ghost predicate IdFresh(threads: ThreadTable, now: nat, selected: Group)
    requires selected != []
  {
    FirstMatch(threads, selected) == None ==> now !in threads
  }

  // The thread the selected purchases end up in: the one matched, or the new one.
  ghost function Holder(threads: ThreadTable, now: nat, selected: Group): nat
    requires selected != []
  {
    if FirstMatch(threads, selected).Some? then FirstMatch(threads, selected).value else now
  }

  lemma UpsertedStored(threads: ThreadTable, now: nat, selected: Group, id: nat, tx: string)
    requires selected != [] && IdFresh(threads, now, selected)
    ensures Stored(Upserted(threads, now, selected), id, tx)
       <==> Stored(threads, id, tx) || (id == Holder(threads, now, selected) && Names(selected, tx))
  {
    hide IsFirstMatch, HasTx, Names;
    match FirstMatch(threads, selected)
    case Some(first) =>
      FirstMatchStored(threads, selected);
      MergedHas(threads[first].purchases, selected, tx);
    case None =>
      AsThreadPurchasesHas(selected, tx);
  }

  lemma FirstMatchStored(threads: ThreadTable, selected: Group)
    requires selected != []
    ensures FirstMatch(threads, selected).Some? ==> FirstMatch(threads, selected).value in threads
  {
  }

  // An upsert of purchases stored nowhere, or together in one thread, keeps the table
  // consistent, loses nothing and stores exactly them in addition, if a new id is fresh.
  lemma UpsertKeeps(threads: ThreadTable, now: nat, saleOf: string -> string, selected: Group)
    requires Consistent(threads, saleOf) && OfOneSale(selected, saleOf) && StoredTogether(threads, selected)
    requires IdFresh(threads, now, selected)
    ensures Consistent(Upserted(threads, now, selected), saleOf)
    ensures Extends(threads, Upserted(threads, now, selected))
    ensures forall tx :: IsStored(Upserted(threads, now, selected), tx) <==>
      IsStored(threads, tx) || Names(selected, tx)
    ensures StoredTogether(Upserted(threads, now, selected), selected)
  {
    hide Upserted, Holder, Names, HasTx, IdFresh;
    var after, holder := Upserted(threads, now, selected), Holder(threads, now, selected);
    forall id: nat, tx
      ensures Stored(after, id, tx) <==> Stored(threads, id, tx) || (id == holder && Names(selected, tx))
      ensures Stored(threads, id, tx) && Names(selected, tx) ==> id == holder
    {
      UpsertedStored(threads, now, selected, id, tx);
      if Stored(threads, id, tx) && Names(selected, tx) {
        MatchHolds(threads, now, saleOf, selected, id, tx);
      }
    }
    UpsertedShape(threads, now, selected);
    forall tx
      ensures IsStored(after, tx) <==> IsStored(threads, tx) || Names(selected, tx)
    {
      if Names(selected, tx) {
        assert Stored(after, holder, tx);
      } else if IsStored(threads, tx) {
        var id: nat :| Stored(threads, id, tx);
        assert Stored(after, id, tx);
      }
    }
    forall id: nat, tx | Stored(after, id, tx)
      ensures after[id].saleId == saleOf(tx)
    {
      if Names(selected, tx) {
        NamedSale(selected, saleOf, tx);
      }
    }
  }

  lemma MatchHolds(threads: ThreadTable, now: nat, saleOf: string -> string, selected: Group, id: nat, tx: string)
    requires SalesAgree(threads, saleOf) && OfOneSale(selected, saleOf) && StoredTogether(threads, selected)
    requires Names(selected, tx) && Stored(threads, id, tx)
    ensures Holder(threads, now, selected) == id
  {
    hide FirstMatch;
    MatchIsHolder(threads, saleOf, selected, id, tx);
  }

  lemma NamedSale(selected: Group, saleOf: string -> string, tx: string)
    requires OfOneSale(selected, saleOf) && Names(selected, tx)
    ensures saleOf(tx) == selected[0].saleId
  {
  }

  lemma UpsertedShape(threads: ThreadTable, now: nat, selected: Group)
    requires selected != [] && IdFresh(threads, now, selected)
    ensures var after, holder := Upserted(threads, now, selected), Holder(threads, now, selected);
      Extends(threads, after) && holder in after && after[holder].saleId == selected[0].saleId
  {
    var first := FirstMatch(threads, selected);
    if first.Some? {
      MergedHas(threads[first.value].purchases, selected, "");
    }
  }

  // Whatever the clock reads, an upsert stores nothing but the selected purchases, and no
  // thread without purchases.
  lemma UpsertAddsOnly(threads: ThreadTable, now: nat, selected: Group)
    requires selected != []
    ensures Upserted(threads, now, selected).Keys <= threads.Keys + {now}
    ensures forall tx :: IsStored(Upserted(threads, now, selected), tx) ==> IsStored(threads, tx) || Names(selected, tx)
    ensures NoneEmpty(threads) ==> NoneEmpty(Upserted(threads, now, selected))
  {
    hide IsFirstMatch, HasTx, Names, Merged;
    FirstMatchStored(threads, selected);
    var first, after := FirstMatch(threads, selected), Upserted(threads, now, selected);
    if first.Some? {
      MergedHas(threads[first.value].purchases, selected, "");
    }
    forall id: nat, tx | Stored(after, id, tx)
      ensures IsStored(threads, tx) || Names(selected, tx)
    {
      if first.Some? {
        MergedHas(threads[first.value].purchases, selected, tx);
      }
      AsThreadPurchasesHas(selected, tx);
      assert Stored(threads, id, tx) || Names(selected, tx);
    }
  }

  ghost predicate NoneEmpty(threads: ThreadTable)
  {
    forall id :: id in threads ==> threads[id].purchases != []
  }

  // A second upsert of the same purchases changes nothing.
  lemma UpsertReplay(threads: ThreadTable, now: nat, saleOf: string -> string, selected: Group, id: nat)
    requires SalesAgree(threads, saleOf) && OfOneSale(selected, saleOf) && StoredTogether(threads, selected)
    requires forall tx :: Names(selected, tx) ==> Stored(threads, id, tx)
    ensures Upserted(threads, now, selected) == threads
  {
    hide FirstMatch, IsFirstMatch, HasTx;
    assert Names(selected, selected[0].tx);
    MatchIsHolder(threads, saleOf, selected, id, selected[0].tx);
    MergedNothing(threads[id].purchases, selected);
  }

  // Thread ids are seconds. A new thread takes the place of an older one exactly when both are
  // created in the same second, and then the older purchases are in no thread at all.
  lemma ClockCollisionLoses(threads: ThreadTable, now: nat, selected: Group)
    requires selected != [] && forall tx :: Names(selected, tx) ==> !IsStored(threads, tx)
    requires NoneEmpty(threads) && OneThreadEach(threads)
    ensures now in threads <==> exists tx :: IsStored(threads, tx) && !IsStored(Upserted(threads, now, selected), tx)
  {
    NothingMatches(threads, selected);
    var after := Upserted(threads, now, selected);
    if now in threads {
      var tx := threads[now].purchases[0].tx;
      assert Stored(threads, now, tx);
      forall id: nat
        ensures !Stored(after, id, tx)
      {
        AsThreadPurchasesHas(selected, tx);
        assert id != now && Stored(after, id, tx) ==> Stored(threads, id, tx);
      }
      assert IsStored(threads, tx) && !IsStored(after, tx);
    } else {
      forall tx | IsStored(threads, tx)
        ensures IsStored(after, tx)
      {
        var id: nat :| Stored(threads, id, tx);
        assert Stored(after, id, tx);
      }
    }
  }

  lemma NothingMatches(threads: ThreadTable, selected: Group)
    requires selected != [] && forall tx :: Names(selected, tx) ==> !IsStored(threads, tx)
    ensures FirstMatch(threads, selected) == None
  {
    forall id | id in threads
      ensures !Matches(threads[id], selected)
    {
      forall i | 0 <= i < |selected|
        ensures !HasTx(threads[id].purchases, selected[i].tx)
      {
        assert Names(selected, selected[i].tx);
        assert Stored(threads, id, selected[i].tx) ==> IsStored(threads, selected[i].tx);
      }
    }
  }

  // ---------------------------------------------------------------- responding to a group

  function WithVss(selected: Group): Group
  {
    if selected == [] then []
    else
      var k := |selected| - 1;
      WithVss(selected[..k]) + if selected[k].needsVss == Some(false) then [] else [selected[k]]
  }

  function WithoutVss(selected: Group): (parts: seq<Group>)
    ensures forall i :: 0 <= i < |parts| ==> |parts[i]| == 1
  {
    if selected == [] then []
    else
      var k := |selected| - 1;
      WithoutVss(selected[..k]) + if selected[k].needsVss == Some(false) then [[selected[k]]] else []
  }

  lemma VssSnoc(selected: Group, purchase: Purchase)
    ensures WithVss(selected + [purchase])
         == WithVss(selected) + if purchase.needsVss == Some(false) then [] else [purchase]
    ensures WithoutVss(selected + [purchase])
         == WithoutVss(selected) + if purchase.needsVss == Some(false) then [[purchase]] else []
  {
    assert (selected + [purchase])[..|selected|] == selected;
  }

  // A purchase that needs no secret sharing is a part of its own.
  lemma AloneIsPart(purchase: Purchase)
    requires purchase.needsVss == Some(false)
    ensures WithVss([purchase]) == [] && WithoutVss([purchase]) == [[purchase]]
  {
    VssSnoc([], purchase);
    assert [] + [purchase] == [purchase];
  }

  // The selections that are upserted: all that need secret sharing at once, the others one by
  // one.
  function Parts(selected: Group): (parts: seq<Group>)
    ensures forall i :: 0 <= i < |parts| ==> parts[i] != []
  {
    (if WithVss(selected) == [] then [] else [WithVss(selected)]) + WithoutVss(selected)
  }

  // Purchases that need secret sharing, or of which nothing is known, are one part, the first;
  // every other part is a single purchase that needs none.
  lemma {:induction false} PartsMean(selected: Group)
    ensures forall i :: 0 <= i < |WithVss(selected)| ==>
      WithVss(selected)[i].needsVss != Some(false) && WithVss(selected)[i] in selected
    ensures forall i :: 0 <= i < |WithoutVss(selected)| ==>
      |WithoutVss(selected)[i]| == 1 && WithoutVss(selected)[i][0].needsVss == Some(false)
      && WithoutVss(selected)[i][0] in selected
    ensures |WithVss(selected)| + |WithoutVss(selected)| == |selected|
  {
    if selected != [] {
      PartsMean(selected[..|selected| - 1]);
    }
  }

  // The table after the upserts of these parts, each at its own reading of the clock.
  ghost function Responded(threads: ThreadTable, readings: seq<nat>, parts: seq<Group>): ThreadTable
    requires |readings| == |parts| && NonEmptyParts(parts)
  {
    if parts == [] then threads
    else
      var k := |parts| - 1;
      Upserted(Responded(threads, readings[..k], parts[..k]), readings[k], parts[k])
  }

  ghost predicate NonEmptyParts(parts: seq<Group>)
  {
    forall i :: 0 <= i < |parts| ==> parts[i] != []
  }

  // No two new threads share a reading, and none takes an id that is in the table.
  ghost predicate IdsFresh(threads: ThreadTable, readings: seq<nat>, parts: seq<Group>)
    requires |readings| == |parts| && NonEmptyParts(parts)
  {
    parts == [] ||
    var k := |parts| - 1;
      && IdsFresh(threads, readings[..k], parts[..k])
      && IdFresh(Responded(threads, readings[..k], parts[..k]), readings[k], parts[k])
  }

  // The readings are distinct, and none is an id yet: enough whatever the parts are.
  ghost predicate FreshReadings(threads: ThreadTable, readings: seq<nat>)
  {
    && (forall i, j :: 0 <= i < j < |readings| ==> readings[i] != readings[j])
    && (forall i :: 0 <= i < |readings| ==> readings[i] !in threads)
  }

  lemma {:induction false} FreshReadingsSuffice(threads: ThreadTable, readings: seq<nat>, parts: seq<Group>)
    requires |readings| == |parts| && NonEmptyParts(parts)
    ensures FreshReadings(threads, readings) ==> IdsFresh(threads, readings, parts)
    ensures forall id :: id in Responded(threads, readings, parts) ==> id in threads || id in readings
  {
    hide Upserted;
    if parts != [] {
      var k := |parts| - 1;
      FreshReadingsSuffice(threads, readings[..k], parts[..k]);
      UpsertAddsOnly(Responded(threads, readings[..k], parts[..k]), readings[k], parts[k]);
    }
  }

  ghost predicate PartsOfOneSale(parts: seq<Group>, saleOf: string -> string)
  {
    forall i :: 0 <= i < |parts| ==> OfOneSale(parts[i], saleOf)
  }

  ghost predicate AnyNames(parts: seq<Group>, tx: string)
  {
    exists i :: 0 <= i < |parts| && Names(parts[i], tx)
  }

  lemma AnyNamesSnoc(parts: seq<Group>, part: Group, tx: string)
    ensures AnyNames(parts + [part], tx) <==> AnyNames(parts, tx) || Names(part, tx)
  {
    hide Names;
    var all := parts + [part];
    assert all[|parts|] == part;
    if AnyNames(parts, tx) {
      var i :| 0 <= i < |parts| && Names(parts[i], tx);
      assert Names(all[i], tx);
    }
  }

  // The first part is stored together or not at all; each of the others is one purchase.
  ghost predicate Respondable(threads: ThreadTable, parts: seq<Group>)
  {
    && (parts != [] ==> StoredTogether(threads, parts[0]))
    && (forall i :: 0 < i < |parts| ==> |parts[i]| == 1)
  }

  lemma SingletonTogether(threads: ThreadTable, part: Group)
    requires OneThreadEach(threads) && |part| == 1
    ensures StoredTogether(threads, part)
  {
  }

  // Responding keeps the table consistent, loses nothing and stores exactly the parts in
  // addition, if new ids are fresh.
  lemma {:induction false} RespondedKeeps(threads: ThreadTable, readings: seq<nat>, saleOf: string -> string,
                                          parts: seq<Group>)
    requires Consistent(threads, saleOf) && PartsOfOneSale(parts, saleOf) && Respondable(threads, parts)
    requires |readings| == |parts| && IdsFresh(threads, readings, parts)
    ensures Consistent(Responded(threads, readings, parts), saleOf)
    ensures Extends(threads, Responded(threads, readings, parts))
    ensures forall tx :: IsStored(Responded(threads, readings, parts), tx) <==>
      IsStored(threads, tx) || AnyNames(parts, tx)
  {
    hide Upserted, IdFresh, Names, IsStored;
    if parts != [] {
      var k := |parts| - 1;
      var before := Responded(threads, readings[..k], parts[..k]);
      RespondedKeeps(threads, readings[..k], saleOf, parts[..k]);
      if k > 0 {
        SingletonTogether(before, parts[k]);
      }
      UpsertKeeps(before, readings[k], saleOf, parts[k]);
      assert parts == parts[..k] + [parts[k]];
      forall tx
        ensures AnyNames(parts, tx) <==> AnyNames(parts[..k], tx) || Names(parts[k], tx)
      {
        AnyNamesSnoc(parts[..k], parts[k], tx);
      }
    }
  }

  // All purchases of a part are in one thread.
  ghost predicate HeldTogether(threads: ThreadTable, part: Group)
  {
    exists id: nat :: Holds(threads, id, part)
  }

  ghost predicate Holds(threads: ThreadTable, id: nat, part: Group)
  {
    forall tx :: Names(part, tx) ==> Stored(threads, id, tx)
  }

  lemma UpsertHolds(threads: ThreadTable, now: nat, selected: Group)
    requires selected != [] && IdFresh(threads, now, selected)
    ensures HeldTogether(Upserted(threads, now, selected), selected)
  {
    hide Upserted, Names, Stored, IdFresh;
    var holder := Holder(threads, now, selected);
    forall tx | Names(selected, tx)
      ensures Stored(Upserted(threads, now, selected), holder, tx)
    {
      UpsertedStored(threads, now, selected, holder, tx);
    }
    assert Holds(Upserted(threads, now, selected), holder, selected);
  }

  lemma ExtendsHolds(before: ThreadTable, after: ThreadTable, part: Group)
    requires Extends(before, after) && HeldTogether(before, part)
    ensures HeldTogether(after, part)
  {
    var id: nat :| Holds(before, id, part);
    forall tx | Names(part, tx)
      ensures Stored(after, id, tx)
    {
      assert Stored(before, id, tx);
      var i :| 0 <= i < |before[id].purchases| && before[id].purchases[i].tx == tx;
      assert after[id].purchases[i].tx == tx;
    }
    assert Holds(after, id, part);
  }

  lemma {:induction false} RespondedHolds(threads: ThreadTable, readings: seq<nat>, saleOf: string -> string,
                                          parts: seq<Group>)
    requires Consistent(threads, saleOf) && PartsOfOneSale(parts, saleOf) && Respondable(threads, parts)
    requires |readings| == |parts| && IdsFresh(threads, readings, parts)
    ensures forall i :: 0 <= i < |parts| ==> HeldTogether(Responded(threads, readings, parts), parts[i])
  {
    hide Upserted, IdFresh, Names, Stored, Holds, HeldTogether, Extends;
    if parts != [] {
      var k := |parts| - 1;
      var before, after := Responded(threads, readings[..k], parts[..k]), Responded(threads, readings, parts);
      RespondedHolds(threads, readings[..k], saleOf, parts[..k]);
      RespondedKeeps(threads, readings[..k], saleOf, parts[..k]);
      if k > 0 {
        SingletonTogether(before, parts[k]);
      }
      UpsertKeeps(before, readings[k], saleOf, parts[k]);
      UpsertHolds(before, readings[k], parts[k]);
      forall i | 0 <= i < k
        ensures HeldTogether(after, parts[i])
      {
        assert parts[..k][i] == parts[i];
        ExtendsHolds(before, after, parts[i]);
      }
    }
  }

  lemma {:induction false} RespondedNothing(threads: ThreadTable, readings: seq<nat>, saleOf: string -> string,
                                            parts: seq<Group>)
    requires OneThreadEach(threads) && SalesAgree(threads, saleOf) && PartsOfOneSale(parts, saleOf)
    requires |readings| == |parts| && forall i :: 0 <= i < |parts| ==> HeldTogether(threads, parts[i])
    ensures Responded(threads, readings, parts) == threads
  {
    hide Upserted;
    if parts != [] {
      var k := |parts| - 1;
      RespondedNothing(threads, readings[..k], saleOf, parts[..k]);
      var id: nat :| Holds(threads, id, parts[k]);
      UpsertReplay(threads, readings[k], saleOf, parts[k], id);
    }
  }

  // Responding to the same parts again, whatever the clock reads then, changes nothing.
  lemma RespondReplay(threads: ThreadTable, readings: seq<nat>, later: seq<nat>, saleOf: string -> string,
                      parts: seq<Group>)
    requires Consistent(threads, saleOf) && PartsOfOneSale(parts, saleOf) && Respondable(threads, parts)
    requires |readings| == |later| == |parts| && IdsFresh(threads, readings, parts)
    ensures Responded(Responded(threads, readings, parts), later, parts) == Responded(threads, readings, parts)
  {
    hide Responded, HeldTogether, IdsFresh;
    RespondedKeeps(threads, readings, saleOf, parts);
    RespondedHolds(threads, readings, saleOf, parts);
    RespondedNothing(Responded(threads, readings, parts), later, saleOf, parts);
  }

  // ---------------------------------------------------------------- when readings collide

  // The parts are stored nowhere, and no purchase is in two of them.
  ghost predicate NewParts(threads: ThreadTable, parts: seq<Group>)
  {
    && (forall tx :: AnyNames(parts, tx) ==> !IsStored(threads, tx))
    && (forall i, j, tx :: 0 <= i < j < |parts| && Names(parts[i], tx) ==> !Names(parts[j], tx))
  }

  // Nothing stored or selected is missing afterwards.
  ghost predicate NothingLost(before: ThreadTable, after: ThreadTable, parts: seq<Group>)
  {
    forall tx :: IsStored(before, tx) || AnyNames(parts, tx) ==> IsStored(after, tx)
  }

  lemma NothingNamed()
    ensures forall tx :: !AnyNames([], tx)
  {
  }

  lemma LastPartNew(threads: ThreadTable, readings: seq<nat>, parts: seq<Group>)
    requires |readings| == |parts| > 0 && NonEmptyParts(parts) && NewParts(threads, parts)
    ensures var k := |parts| - 1;
      && NewParts(threads, parts[..k])
      && (forall tx :: AnyNames(parts, tx) <==> AnyNames(parts[..k], tx) || Names(parts[k], tx))
      && (forall tx :: Names(parts[k], tx) ==> !IsStored(threads, tx) && !AnyNames(parts[..k], tx))
  {
    hide Names, IsStored;
    var k := |parts| - 1;
    assert parts == parts[..k] + [parts[k]];
    forall tx
      ensures AnyNames(parts, tx) <==> AnyNames(parts[..k], tx) || Names(parts[k], tx)
    {
      AnyNamesSnoc(parts[..k], parts[k], tx);
    }
  }

  lemma {:induction false} RespondAddsOnly(threads: ThreadTable, readings: seq<nat>, parts: seq<Group>)
    requires |readings| == |parts| && NonEmptyParts(parts)
    ensures forall tx :: IsStored(Responded(threads, readings, parts), tx) ==>
      IsStored(threads, tx) || AnyNames(parts, tx)
    ensures NoneEmpty(threads) ==> NoneEmpty(Responded(threads, readings, parts))
  {
    hide Upserted, Names, IsStored, NoneEmpty;
    if parts != [] {
      var k := |parts| - 1;
      RespondAddsOnly(threads, readings[..k], parts[..k]);
      UpsertAddsOnly(Responded(threads, readings[..k], parts[..k]), readings[k], parts[k]);
      assert parts == parts[..k] + [parts[k]];
      forall tx
        ensures AnyNames(parts, tx) <==> AnyNames(parts[..k], tx) || Names(parts[k], tx)
      {
        AnyNamesSnoc(parts[..k], parts[k], tx);
      }
    }
  }

  // An upsert of purchases that are stored nowhere creates a thread of exactly them at the
  // second read, whatever was there.
  lemma UpsertOfNew(threads: ThreadTable, now: nat, selected: Group)
    requires selected != [] && forall tx :: Names(selected, tx) ==> !IsStored(threads, tx)
    ensures FirstMatch(threads, selected) == None
    ensures Upserted(threads, now, selected).Keys == threads.Keys + {now}
    ensures forall id: nat, tx :: Stored(Upserted(threads, now, selected), id, tx) <==>
      if id == now then Names(selected, tx) else Stored(threads, id, tx)
    ensures now !in threads ==> Extends(threads, Upserted(threads, now, selected))
  {
    hide Names, HasTx;
    NothingMatches(threads, selected);
    forall tx
      ensures HasTx(AsThreadPurchases(selected), tx) <==> Names(selected, tx)
    {
      AsThreadPurchasesHas(selected, tx);
    }
  }

  // So it never puts a purchase into two threads, even when a thread is overwritten.
  lemma UpsertOfNewConsistent(threads: ThreadTable, now: nat, saleOf: string -> string, selected: Group)
    requires Consistent(threads, saleOf) && OfOneSale(selected, saleOf)
    requires forall tx :: Names(selected, tx) ==> !IsStored(threads, tx)
    ensures Consistent(Upserted(threads, now, selected), saleOf)
  {
    hide Names, HasTx;
    UpsertOfNew(threads, now, selected);
    forall tx | Names(selected, tx)
      ensures saleOf(tx) == selected[0].saleId
    {
      NamedSale(selected, saleOf, tx);
    }
    forall id: nat, tx | Stored(threads, id, tx)
      ensures IsStored(threads, tx)
    {
    }
  }

  // For new parts the ids after a response are the ids before it and the readings, and every
  // new thread gets an id of its own exactly when the readings are distinct and no ids yet.
  lemma {:induction false} FreshExactly(threads: ThreadTable, readings: seq<nat>, parts: seq<Group>)
    requires |readings| == |parts| && NonEmptyParts(parts) && NewParts(threads, parts)
    ensures IdsFresh(threads, readings, parts) <==> FreshReadings(threads, readings)
    ensures forall id :: id in Responded(threads, readings, parts) <==> id in threads || id in readings
    ensures FreshReadings(threads, readings) ==> Extends(threads, Responded(threads, readings, parts))
  {
    hide Upserted, FirstMatch, Names, IsStored, NewParts, AnyNames, Extends, FreshReadings;
    ExtendsItself(threads);
    if parts == [] {
      FreshNothing(threads, readings);
    } else {
      var k := |parts| - 1;
      var before := Responded(threads, readings[..k], parts[..k]);
      LastPartNew(threads, readings, parts);
      FreshExactly(threads, readings[..k], parts[..k]);
      RespondAddsOnly(threads, readings[..k], parts[..k]);
      UpsertOfNew(before, readings[k], parts[k]);
      FreshSnoc(threads, readings);
      assert readings == readings[..k] + [readings[k]];
      ExtendsOn(threads, before, Upserted(before, readings[k], parts[k]));
    }
  }

  lemma FreshNothing(threads: ThreadTable, readings: seq<nat>)
    requires readings == []
    ensures FreshReadings(threads, readings)
  {
  }

  lemma ExtendsItself(threads: ThreadTable)
    ensures Extends(threads, threads)
  {
  }

  lemma ExtendsOn(first: ThreadTable, second: ThreadTable, third: ThreadTable)
    ensures Extends(first, second) && Extends(second, third) ==> Extends(first, third)
  {
  }

  lemma FreshSnoc(threads: ThreadTable, readings: seq<nat>)
    requires readings != []
    ensures var k := |readings| - 1;
      FreshReadings(threads, readings) <==>
        FreshReadings(threads, readings[..k]) && readings[k] !in threads && readings[k] !in readings[..k]
  {
    var k := |readings| - 1;
    assert forall i :: 0 <= i < k ==> readings[..k][i] == readings[i];
  }

  // The exact condition, over a whole response: of new parts nothing is lost if and only if
  // the readings of the clock are distinct and no ids yet. In either case no purchase is in
  // two threads.
  lemma NothingLostExactly(threads: ThreadTable, readings: seq<nat>, saleOf: string -> string, parts: seq<Group>)
    requires Consistent(threads, saleOf) && NoneEmpty(threads) && PartsOfOneSale(parts, saleOf)
    requires |readings| == |parts| && NewParts(threads, parts)
    ensures NothingLost(threads, Responded(threads, readings, parts), parts) <==> FreshReadings(threads, readings)
    ensures Consistent(Responded(threads, readings, parts), saleOf)
  {
    hide Responded, IdsFresh, NewParts, NothingLost, Consistent;
    FreshExactly(threads, readings, parts);
    NothingLostById(threads, readings, saleOf, parts);
  }

  lemma {:induction false} NothingLostById(threads: ThreadTable, readings: seq<nat>, saleOf: string -> string,
                                           parts: seq<Group>)
    requires Consistent(threads, saleOf) && NoneEmpty(threads) && PartsOfOneSale(parts, saleOf)
    requires |readings| == |parts| && NewParts(threads, parts)
    ensures NothingLost(threads, Responded(threads, readings, parts), parts) <==> IdsFresh(threads, readings, parts)
    ensures Consistent(Responded(threads, readings, parts), saleOf)
  {
    hide Upserted, IdFresh, Names, IsStored, NewParts, NoneEmpty, Consistent, AnyNames;
    if parts == [] {
      NothingNamed();
    } else {
      var k := |parts| - 1;
      var before := Responded(threads, readings[..k], parts[..k]);
      LastPartNew(threads, readings, parts);
      NothingLostById(threads, readings[..k], saleOf, parts[..k]);
      RespondAddsOnly(threads, readings[..k], parts[..k]);
      UpsertOfNewConsistent(before, readings[k], saleOf, parts[k]);
      UpsertLosesExactly(before, readings[k], saleOf, parts[k]);
      UpsertAddsOnly(before, readings[k], parts[k]);
    }
  }

  // One upsert of a new part.
  lemma UpsertLosesExactly(threads: ThreadTable, now: nat, saleOf: string -> string, selected: Group)
    requires Consistent(threads, saleOf) && NoneEmpty(threads) && OfOneSale(selected, saleOf)
    requires forall tx :: Names(selected, tx) ==> !IsStored(threads, tx)
    ensures IdFresh(threads, now, selected) <==>
      forall tx :: IsStored(threads, tx) || Names(selected, tx) ==> IsStored(Upserted(threads, now, selected), tx)
  {
    hide Upserted, Names, IsStored, NoneEmpty;
    NothingMatches(threads, selected);
    ClockCollisionLoses(threads, now, selected);
    if IdFresh(threads, now, selected) {
      TogetherNowhere(threads, selected);
      UpsertKeeps(threads, now, saleOf, selected);
    }
  }

  // One response after another is one response to all their parts.
  lemma {:induction false} RespondedConcat(threads: ThreadTable, readings: seq<nat>, parts: seq<Group>, later: seq<nat>,
                                           more: seq<Group>)
    requires |readings| == |parts| && |later| == |more| && NonEmptyParts(parts) && NonEmptyParts(more)
    ensures Responded(threads, readings + later, parts + more)
         == Responded(Responded(threads, readings, parts), later, more)
    decreases |more|
  {
    hide Upserted;
    if more == [] {
      assert parts + more == parts && readings + later == readings;
    } else {
      var k := |more| - 1;
      RespondedConcat(threads, readings, parts, later[..k], more[..k]);
      assert (parts + more)[..|parts| + k] == parts + more[..k];
      assert (readings + later)[..|readings| + k] == readings + later[..k];
    }
  }

  lemma TogetherNowhere(threads: ThreadTable, selected: Group)
    requires forall tx :: Names(selected, tx) ==> !IsStored(threads, tx)
    ensures StoredTogether(threads, selected)
  {
  }

  // The smallest case: two purchases of one sale that need no secret sharing, answered within
  // one second. The first of them is then in no thread.
  lemma TwoSingletonsCollide(threads: ThreadTable, now: nat, saleOf: string -> string, first: Purchase,
                             second: Purchase)
    requires Consistent(threads, saleOf) && NoneEmpty(threads) && OfOneSale([first, second], saleOf)
    requires first.tx != second.tx && first.needsVss == second.needsVss == Some(false)
    requires forall tx :: Names([first, second], tx) ==> !IsStored(threads, tx)
    ensures Parts([first, second]) == [[first], [second]]
    ensures !IsStored(Responded(threads, [now, now], Parts([first, second])), first.tx)
  {
    hide WithVss, WithoutVss, Responded;
    AloneIsPart(first);
    VssSnoc([first], second);
    assert [first] + [second] == [first, second] && [[first]] + [[second]] == [[first], [second]];
    OnlyInLast(threads, now, first, second);
  }

  // The same for two threads of one purchase each, however they came about.
  lemma OnlyInLast(threads: ThreadTable, now: nat, first: Purchase, second: Purchase)
    requires first.tx != second.tx && forall tx :: Names([first, second], tx) ==> !IsStored(threads, tx)
    ensures !IsStored(Responded(threads, [now, now], [[first], [second]]), first.tx)
  {
    hide Upserted;
    var pair := [first, second];
    assert pair[0] == first && pair[1] == second;
    assert Names(pair, first.tx) && Names(pair, second.tx);
    forall tx
      ensures Names([first], tx) <==> first.tx == tx
      ensures Names([second], tx) <==> second.tx == tx
    {
      NamesOne(first, tx);
      NamesOne(second, tx);
    }
    var middle := Upserted(threads, now, [first]);
    UpsertAddsOnly(threads, now, [first]);
    UpsertOfNew(threads, now, [first]);
    UpsertOfNew(middle, now, [second]);
    assert [[first], [second]][..1] == [[first]] && [now, now][..1] == [now];
    assert [[first]][..0] == [] && [now][..0] == [];
    assert Responded(threads, [now], [[first]]) == middle;
    assert Responded(threads, [now, now], [[first], [second]]) == Upserted(middle, now, [second]);
    assert !IsStored(threads, first.tx);
    assert forall id: nat :: !Stored(threads, id, first.tx);
  }

  // ---------------------------------------------------------------- the parts of a group

  lemma {:induction false} PartsName(selected: Group, tx: string)
    ensures AnyNames(Parts(selected), tx) <==> Names(selected, tx)
  {
    PartsSplit(selected, tx);
    var vss, parts := WithVss(selected), Parts(selected);
    if vss == [] {
      assert parts == WithoutVss(selected);
    } else {
      AnyNamesCons(vss, WithoutVss(selected), tx);
    }
  }

  lemma AnyNamesCons(part: Group, parts: seq<Group>, tx: string)
    ensures AnyNames([part] + parts, tx) <==> AnyNames(parts, tx) || Names(part, tx)
  {
    hide Names;
    var all := [part] + parts;
    assert all[0] == part;
    if AnyNames(parts, tx) {
      var i :| 0 <= i < |parts| && Names(parts[i], tx);
      assert Names(all[i + 1], tx);
    }
  }

  lemma {:induction false} PartsSplit(selected: Group, tx: string)
    ensures Names(selected, tx) <==> Names(WithVss(selected), tx) || AnyNames(WithoutVss(selected), tx)
  {
    hide Names;
    if selected == [] {
      assert !Names(selected, tx) by {
        NamesNothing(tx);
      }
    } else {
      var k := |selected| - 1;
      var vss, others := WithVss(selected[..k]), WithoutVss(selected[..k]);
      PartsSplit(selected[..k], tx);
      NamesSnoc(selected, k, tx);
      if selected[k].needsVss == Some(false) {
        AnyNamesSnoc(others, [selected[k]], tx);
        NamesOne(selected[k], tx);
        assert WithVss(selected) == vss && WithoutVss(selected) == others + [[selected[k]]];
      } else {
        assert WithVss(selected) == vss + [selected[k]] && WithoutVss(selected) == others;
        NamesSnoc(vss + [selected[k]], |vss|, tx);
        assert (vss + [selected[k]])[..|vss|] == vss;
      }
    }
  }

  lemma NamesNothing(tx: string)
    ensures !Names([], tx)
  {
  }

  lemma NamesOne(purchase: Purchase, tx: string)
    ensures Names([purchase], tx) <==> purchase.tx == tx
  {
    assert [purchase][0] == purchase;
  }

  ghost predicate AllFrom(selected: Group, saleId: string, saleOf: string -> string)
  {
    forall i :: 0 <= i < |selected| ==> selected[i].saleId == saleId == saleOf(selected[i].tx)
  }

  lemma {:induction false} PartsFrom(selected: Group, saleId: string, saleOf: string -> string)
    requires AllFrom(selected, saleId, saleOf)
    ensures AllFrom(WithVss(selected), saleId, saleOf)
    ensures forall i :: 0 <= i < |WithoutVss(selected)| ==> AllFrom(WithoutVss(selected)[i], saleId, saleOf)
  {
    if selected != [] {
      PartsFrom(selected[..|selected| - 1], saleId, saleOf);
    }
  }
}
