/** The mall object, which takes each purchase and each refresh in one go. */
module GameMall {
  import opened Sequences
  import opened SalesRanking
  import opened MallRuns
  import opened MallAssertions

  const TICKS_PER_MINUTE := 1200
  const STALE_TICKS := 200

  /** Loops over goods take them in any order; it makes no difference. */
  class GMall {
    const shop: Shop
    const day: Calendar
    var stock: Stock
    var times: Times
    var ranking: Ranking
    var hbTicker: int

    ghost predicate Valid() reads this {
      && stock.Keys == Limited(shop) && times.Keys <= shop.Keys && AllLoadable(shop)
      && 0 <= hbTicker < TICKS_PER_MINUTE
    }

    /** The object as the machine of whole runs sees it: nothing is half done. */
    ghost function View(): Mall reads this {
      Mall(stock, times, ranking, [], [])
    }

    constructor (shop: Shop, day: Calendar, now: int)
      requires AllLoadable(shop)
      ensures Valid() && View() == Opened(shop, now) && hbTicker == 0
      ensures this.shop == shop && this.day == day
    {
      this.shop, this.day := shop, day;
      stock, times, ranking, hbTicker := map[], map[], [], 0;
      new;
      BuildReserveVolumeMap();
      BuildRefreshGoodsMap(now);
    }

    method BuildReserveVolumeMap()
      requires stock == map[]
      modifies this`stock
      ensures stock == FullStock(shop)
    {
      var todo := shop.Keys;
      while todo != {}
        invariant todo <= shop.Keys
        invariant stock == map id | id in Limited(shop) && id !in todo :: shop[id].count
        decreases todo
      {
        ghost var some := SomeElement(todo);
        var id :| id in todo;
        if shop[id].count >= 0 {
          stock := stock[id := shop[id].count];
        }
        todo := todo - {id};
      }
    }

    method BuildRefreshGoodsMap(now: int)
      requires times == map[]
      modifies this`times
      ensures times == FirstTimes(shop, now)
    {
      var todo := shop.Keys;
      while todo != {}
        invariant todo <= shop.Keys
        invariant times == map id | id in FirstTimes(shop, now) && id !in todo :: now
        decreases todo
      {
        ghost var some := SomeElement(todo);
        var id :| id in todo;
        if shop[id].rule.PerDay? || shop[id].maxBuy > 0 {
          times := times[id := now];
        }
        todo := todo - {id};
      }
    }

    /**
     A purchase: what is left of a limited good and what it costs come back only if it
     goes through, and a purchase that does not go through changes nothing.
     */
    method PlayerDoShopping(o: Order, remainsIn: int, costIn: int) returns (code: Code, remains: int, cost: int)
      requires Valid()
      modifies this`stock, this`ranking
      ensures Valid() && code == Verdict(shop, old(stock), o)
      ensures View() == Next(shop, day, Next(shop, day, old(View()), Buy(o)), Rank(0))
      ensures code != Success ==> View() == old(View())
      ensures cost == (if code == Success then o.cost else costIn)
      ensures remains == (if code == Success && o.id in stock then stock[o.id] else remainsIn)
    {
      remains, cost := remainsIn, costIn;
      if o.id <= 0 || o.units <= 0 { return NoSuchGoods, remains, cost; }
      if o.id !in shop { return NoSuchGoods, remains, cost; }
      var goods := shop[o.id];
      if !o.inSellTime { return NotInSellTime, remains, cost; }
      if goods.pileLimit < o.units { return OverPileLimit, remains, cost; }
      if goods.maxBuy > 0 && goods.maxBuy < o.units { return OverMaxBuy, remains, cost; }
      if o.cost > o.cash { return NoCash, remains, cost; }
      if o.id in stock {
        if o.units <= stock[o.id] {
          stock := stock[o.id := stock[o.id] - o.units];
          assert stock[o.id] >= 0;
          remains := stock[o.id];
        } else {
          return NoGoods, remains, cost;
        }
      }
      UpdateSaleVolumeMap(o.id, o.units);
      cost := o.cost;
      code := Success;
      OneToRank(o);
    }

    lemma OneToRank(o: Order)
      ensures var p := [] + [Sale(o.units, o.id)]; |p| == 1 && p[0] == Sale(o.units, o.id) && Without(p, 0) == []
    {
    }

    /** Looks for the entry of a good; takes it out and puts it back with its new total. */
    method UpdateSaleVolumeMap(id: Id, units: int)
      modifies this`ranking
      ensures ranking == Updated(old(ranking), id, units)
    {
      var at := 0;
      while at < |ranking| && ranking[at].id != id
        invariant 0 <= at <= |ranking| && ranking == old(ranking)
        invariant forall j :: 0 <= j < at ==> ranking[j].id != id
      {
        at := at + 1;
      }
      if at < |ranking| {
        var count := ranking[at].units + units;
        ranking := ranking[..at] + ranking[at + 1..];
        ranking := Put(ranking, Sale(count, id));
      } else {
        ranking := Put(ranking, Sale(units, id));
      }
    }

    method QueryTopSaleVolumeGoods(list: seq<Id>) returns (top: seq<Id>)
      ensures top == list + Top(ranking)
    {
      top := list;
      var i := 0;
      while i < TOP && i < |ranking|
        invariant 0 <= i <= |Top(ranking)| && top == list + Top(ranking)[..i]
      {
        top := top + [ranking[i].id];
        i := i + 1;
      }
    }

    /**
     Stamps what is due and then fills it up again. `held` says whether the assertions of
     the restocking held: nothing that was due has nothing to offer.
     */
    method RefreshGoods(now: int) returns (held: bool)
      requires Valid()
      modifies this`stock, this`times
      ensures Valid()
      ensures View() == Next(shop, day, Next(shop, day, old(View()), Scan(now)), Restock(0))
      ensures held <==> forall id :: id in DueGoods(shop, day, old(times), now) ==> shop[id].count != 0
    {
      var due := StampDue(now);
      held := RestockAll(due);
      RestockExactly(shop, old(stock), due);
    }

    method StampDue(now: int) returns (due: set<Id>)
      requires Valid()
      modifies this`times
      ensures Valid() && due == DueGoods(shop, day, old(times), now) && times == Stamped(old(times), due, now)
    {
      due := {};
      var todo := times.Keys;
      while todo != {}
        invariant todo <= times.Keys == old(times).Keys
        invariant due == DueGoods(shop, day, old(times), now) - todo
        invariant times == Stamped(old(times), due, now)
        decreases todo
      {
        ghost var some := SomeElement(todo);
        var id :| id in todo;
        if shop[id].rule.PerDay? && Overday(day, times[id], now) {
          times := times[id := now];
          due := due + {id};
        }
        todo := todo - {id};
      }
    }

    method RestockAll(due: set<Id>) returns (held: bool)
      requires Valid() && Daily(shop, due)
      modifies this`stock
      ensures Valid() && stock == Restocked(shop, old(stock), due)
      ensures held <==> RestockAsserts(shop, old(stock), due)
    {
      held := true;
      var todo := due;
      while todo != {}
        invariant todo <= due && stock == Restocked(shop, old(stock), due - todo)
        invariant held <==> RestockAsserts(shop, old(stock), due - todo)
        decreases todo
      {
        ghost var some := SomeElement(todo);
        var id :| id in todo;
        assert due - (todo - {id}) == (due - todo) + {id};
        if id in stock {
          held := held && shop[id].count > 0;
          stock := stock[id := shop[id].count];
        } else {
          held := held && shop[id].maxBuy > 0;
        }
        todo := todo - {id};
      }
      assert due - todo == due;
    }

    /** A refresh every 1200 ticks. */
    method HeartbeatTick(now: int) returns (held: bool)
      requires Valid()
      modifies this
      ensures Valid() && ranking == old(ranking)
      ensures hbTicker == (old(hbTicker) + 1) % TICKS_PER_MINUTE
      ensures View() == if hbTicker == 0
                then Next(shop, day, Next(shop, day, old(View()), Scan(now)), Restock(0)) else old(View())
      ensures hbTicker == 0 ==>
                (held <==> forall id :: id in DueGoods(shop, day, old(times), now) ==> shop[id].count != 0)
      ensures hbTicker != 0 ==> held
    {
      held := true;
      hbTicker := hbTicker + 1;
      if hbTicker >= TICKS_PER_MINUTE {
        hbTicker := 0;
        held := RefreshGoods(now);
      }
    }

    /** A player who opens the mall is never shown goods that were due 200 ticks ago. */
    method OnPlayerOpenMall(now: int) returns (held: bool)
      requires Valid()
      modifies this
      ensures Valid() && ranking == old(ranking)
      ensures hbTicker == if old(hbTicker) >= STALE_TICKS then 0 else old(hbTicker)
      ensures View() == if old(hbTicker) >= STALE_TICKS
                then Next(shop, day, Next(shop, day, old(View()), Scan(now)), Restock(0)) else old(View())
      ensures old(hbTicker) >= STALE_TICKS ==>
                (held <==> forall id :: id in DueGoods(shop, day, old(times), now) ==> shop[id].count != 0)
      ensures old(hbTicker) < STALE_TICKS ==> held
    {
      held := true;
      if hbTicker >= STALE_TICKS {
        held := RefreshGoods(now);
        hbTicker := 0;
      }
    }
  }

}
