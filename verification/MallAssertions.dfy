/**
 What a refresh asserts of the goods it restocks: a limited good has something to offer,
 and a good without limit has a limit for each player. The data check at loading asks for
 either of the two, so a daily good with nothing to offer gets past it.
 */
module MallAssertions {
  import opened Sequences
  import opened SalesRanking
  import opened MallRuns

  /** The data check of a good that is restocked every day. */
  predicate Loadable(g: Goods) {
    g.rule.PerDay? ==> g.count > 0 || g.maxBuy > 0
  }

  ghost predicate AllLoadable(shop: Shop) {
    forall id :: id in shop ==> Loadable(shop[id])
  }

  predicate RestockAsserts(shop: Shop, stock: Stock, due: set<Id>) {
    forall id :: id in due && id in shop ==> if id in stock then shop[id].count > 0 else shop[id].maxBuy > 0
  }

  predicate StepAsserts(h: History, n: nat)
    requires n < |h.steps|
  {
    h.steps[n].Restock? && h.steps[n].turn < |After(h, n).restocks| ==>
      RestockAsserts(h.shop, After(h, n).stock, After(h, n).restocks[h.steps[n].turn])
  }

  predicate Daily(shop: Shop, due: set<Id>) {
    forall id :: id in due ==> id in shop && shop[id].rule.PerDay?
  }

  lemma DailyNext(shop: Shop, day: Calendar, m: Mall, e: Step)
    requires forall i :: 0 <= i < |m.restocks| ==> Daily(shop, m.restocks[i])
    ensures forall i :: 0 <= i < |Next(shop, day, m, e).restocks| ==> Daily(shop, Next(shop, day, m, e).restocks[i])
  {
    ghost var was, now := m.restocks, Next(shop, day, m, e).restocks;
    forall i | 0 <= i < |now| ensures Daily(shop, now[i]) {
      assert now[i] in was || e.Scan?;
    }
  }

  lemma {:induction false} RestocksDaily(h: History, n: nat)
    requires n <= |h.steps|
    ensures forall i :: 0 <= i < |After(h, n).restocks| ==> Daily(h.shop, After(h, n).restocks[i])
  {
    if n > 0 {
      RestocksDaily(h, n - 1);
      DailyNext(h.shop, h.day, After(h, n - 1), h.steps[n - 1]);
    }
  }

  lemma RestockExactly(shop: Shop, stock: Stock, due: set<Id>)
    requires AllLoadable(shop) && stock.Keys == Limited(shop) && Daily(shop, due)
    ensures RestockAsserts(shop, stock, due) <==> forall id :: id in due ==> shop[id].count != 0
  {
  }

  /**
   Over every run and any interleaving: the assertions of a restocking hold if and only
   if no good it restocks has nothing to offer.
   */
  lemma StepAssertsExactly(h: History, n: nat)
    requires n < |h.steps| && AllLoadable(h.shop)
    ensures StepAsserts(h, n) <==> forall id :: id in h.shop && Restocks(h, n, id) ==> h.shop[id].count != 0
  {
    StockExactly(h, n);
    RestocksDaily(h, n);
    if h.steps[n].Restock? && h.steps[n].turn < |After(h, n).restocks| {
      RestockExactly(h.shop, After(h, n).stock, After(h, n).restocks[h.steps[n].turn]);
    }
  }

  /**
   For a shop that passes the data check and ever sees another day: all assertions of all
   runs hold if and only if no daily good has nothing to offer.
   */
  lemma AssertionsExactly(shop: Shop, day: Calendar, start: int, now: int)
    requires AllLoadable(shop) && day(start) != day(now)
    ensures (forall h: History, n: nat ::
               h.shop == shop && h.day == day && h.start == start && n < |h.steps| ==> StepAsserts(h, n)) <==>
            forall id :: id in shop && shop[id].rule.PerDay? ==> shop[id].count != 0
  {
    if forall id :: id in shop && shop[id].rule.PerDay? ==> shop[id].count != 0 {
      forall h: History, n: nat | h.shop == shop && h.day == day && h.start == start && n < |h.steps|
        ensures StepAsserts(h, n)
      {
        StepAssertsExactly(h, n);
        RestocksDaily(h, n);
      }
    } else {
      ghost var id :| id in shop && shop[id].rule.PerDay? && shop[id].count == 0;
      NothingToOffer(shop, day, start, now, id);
    }
  }

  /** One due scan and its restocking. */
  lemma NothingToOffer(shop: Shop, day: Calendar, start: int, now: int, id: Id)
    requires AllLoadable(shop) && day(start) != day(now)
    requires id in shop && shop[id].rule.PerDay? && shop[id].count == 0
    ensures !StepAsserts(History(shop, day, start, [Scan(now), Restock(0)]), 1)
  {
    ghost var h := History(shop, day, start, [Scan(now), Restock(0)]);
    ghost var n: nat := 1;
    ghost var first := Opened(shop, start);
    assert After(h, n - 1) == first;
    assert After(h, n) == Next(shop, day, first, h.steps[n - 1]);
    assert After(h, n).restocks == [DueGoods(shop, day, first.times, now)];
    assert id in After(h, n).restocks[h.steps[n].turn];
    StockExactly(h, n);
  }

  /** A good that passes the data check with nothing to offer but a limit for each player. */
  lemma ZeroStock(day: Calendar, start: int, now: int)
    requires day(start) != day(now)
    ensures var shop := map[1 := Goods(0, 1, 1, PerDay)];
            AllLoadable(shop) && !StepAsserts(History(shop, day, start, [Scan(now), Restock(0)]), 1)
  {
    NothingToOffer(map[1 := Goods(0, 1, 1, PerDay)], day, start, now, 1);
  }
}
