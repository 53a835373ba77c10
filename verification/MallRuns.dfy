/**
 The mall as a machine whose steps are the sections run under one lock: a purchase first
 takes its units from the stock and only later enters the sales ranking; a refresh first
 decides what is due and only later restocks it. Any number of threads may interleave.
 */
module MallRuns {
  import opened Sequences
  import opened SalesRanking

  datatype Rule = PerDay | OtherRule

  datatype Goods = Goods(count: int, pileLimit: int, maxBuy: int, rule: Rule)

  type Shop = map<Id, Goods>

  /** What a player asks for, with the clock and the price worked out. */
  datatype Order = Order(id: Id, units: int, inSellTime: bool, cost: int, cash: int)

  datatype Code = Success | NoCash | NoGoods | NotInSellTime | OverPileLimit | OverMaxBuy | NoSuchGoods

  type Stock = map<Id, int>

  /** The first check that fails decides. */
  function Verdict(shop: Shop, stock: Stock, o: Order): Code {
    if o.id <= 0 || o.units <= 0 || o.id !in shop then NoSuchGoods
    else
      var g := shop[o.id];
      if !o.inSellTime then NotInSellTime
      else if g.pileLimit < o.units then OverPileLimit
      else if g.maxBuy > 0 && g.maxBuy < o.units then OverMaxBuy
      else if o.cost > o.cash then NoCash
      else if o.id in stock && o.units > stock[o.id] then NoGoods
      else Success
  }

  function Taken(stock: Stock, id: Id, units: int): Stock {
    if id in stock then stock[id := stock[id] - units] else stock
  }

  function Limited(shop: Shop): set<Id> {
    set id | id in shop && shop[id].count >= 0
  }

  function FullStock(shop: Shop): Stock {
    map id | id in Limited(shop) :: shop[id].count
  }

  type Times = map<Id, int>

  function FirstTimes(shop: Shop, now: int): Times {
    map id | id in shop && (shop[id].rule.PerDay? || shop[id].maxBuy > 0) :: now
  }

  /** The calendar day of a time. */
  type Calendar = int -> int

  predicate Overday(day: Calendar, time: int, now: int) {
    day(time) != day(now)
  }

  /** The goods restocked every day whose last time lies on another day. */
  function DueGoods(shop: Shop, day: Calendar, times: Times, now: int): set<Id> {
    set id | id in times && id in shop && shop[id].rule.PerDay? && Overday(day, times[id], now)
  }

  function Stamped(times: Times, due: set<Id>, now: int): Times {
    map id | id in times :: if id in due then now else times[id]
  }

  function Restocked(shop: Shop, stock: Stock, due: set<Id>): Stock {
    map id | id in stock :: if id in due && id in shop then shop[id].count else stock[id]
  }

  /** `unranked` are purchases not yet in the ranking, `restocks` refreshes not yet carried out. */
  datatype Mall = Mall(stock: Stock, times: Times, ranking: Ranking, unranked: seq<Sale>, restocks: seq<set<Id>>)

  function Opened(shop: Shop, now: int): Mall {
    Mall(FullStock(shop), FirstTimes(shop, now), [], [], [])
  }

  datatype Step = Buy(o: Order) | Rank(turn: nat) | Scan(now: int) | Restock(turn: nat)

  function Next(shop: Shop, day: Calendar, m: Mall, e: Step): Mall {
    match e
    case Buy(o) =>
      if Verdict(shop, m.stock, o) == Success then
        m.(stock := Taken(m.stock, o.id, o.units), unranked := m.unranked + [Sale(o.units, o.id)])
      else m
    case Rank(i) =>
      if i < |m.unranked| then
        m.(ranking := Updated(m.ranking, m.unranked[i].id, m.unranked[i].units), unranked := Without(m.unranked, i))
      else m
    case Scan(now) =>
      var due := DueGoods(shop, day, m.times, now);
      m.(times := Stamped(m.times, due, now), restocks := m.restocks + [due])
    case Restock(i) =>
      if i < |m.restocks| then
        m.(stock := Restocked(shop, m.stock, m.restocks[i]),
           restocks := Without(m.restocks, i))
      else m
  }

  /** A run: the shop, its clock rule, when it opened, and the steps taken. */
  datatype History = History(shop: Shop, day: Calendar, start: int, steps: seq<Step>)

  function After(h: History, n: nat): Mall
    requires n <= |h.steps|
  {
    if n == 0 then Opened(h.shop, h.start) else Next(h.shop, h.day, After(h, n - 1), h.steps[n - 1])
  }

  /** Step n is a purchase of `id` that goes through. */
  predicate Sells(h: History, n: nat, id: Id)
    requires n < |h.steps|
  {
    && h.steps[n].Buy? && h.steps[n].o.id == id
    && Verdict(h.shop, After(h, n).stock, h.steps[n].o) == Success
  }

  predicate Restocks(h: History, n: nat, id: Id)
    requires n < |h.steps|
  {
    && h.steps[n].Restock? && h.steps[n].turn < |After(h, n).restocks|
    && id in After(h, n).restocks[h.steps[n].turn]
  }

  /** Units of a good sold in the first n steps. */
  function UnitsSold(h: History, n: nat, id: Id): (u: int)
    requires n <= |h.steps|
    ensures u >= 0
  {
    if n == 0 then 0
    else UnitsSold(h, n - 1, id) + if Sells(h, n - 1, id) then h.steps[n - 1].o.units else 0
  }

  /** Units of a good sold since it was last restocked. */
  function UnitsSince(h: History, n: nat, id: Id): (u: int)
    requires n <= |h.steps|
    ensures 0 <= u <= UnitsSold(h, n, id)
  {
    if n == 0 || Restocks(h, n - 1, id) then 0
    else UnitsSince(h, n - 1, id) + if Sells(h, n - 1, id) then h.steps[n - 1].o.units else 0
  }

  /**
   Over every run and any interleaving: the stock of a limited good is what the shop
   offers less what was sold since the last restocking, and never less than nothing; so
   no more is ever sold between two restockings than the shop offers.
   */
  lemma {:induction false} StockExactly(h: History, n: nat)
    requires n <= |h.steps|
    ensures After(h, n).stock.Keys == Limited(h.shop)
    ensures forall id :: id in Limited(h.shop) ==>
              && After(h, n).stock[id] == h.shop[id].count - UnitsSince(h, n, id)
              && 0 <= UnitsSince(h, n, id) <= h.shop[id].count
  {
    if n > 0 {
      StockExactly(h, n - 1);
      var m, e := After(h, n - 1), h.steps[n - 1];
      assert After(h, n) == Next(h.shop, h.day, m, e);
      forall id | id in Limited(h.shop)
        ensures After(h, n).stock[id] == h.shop[id].count - UnitsSince(h, n, id)
        ensures 0 <= UnitsSince(h, n, id) <= h.shop[id].count
      {
        StockStep(h, n, m, e, id);
      }
    }
  }

  lemma StockStep(h: History, n: nat, m: Mall, e: Step, id: Id)
    requires 0 < n <= |h.steps| && m == After(h, n - 1) && e == h.steps[n - 1]
    requires id in h.shop && id in m.stock && m.stock[id] == h.shop[id].count - UnitsSince(h, n - 1, id)
    requires m.stock[id] >= 0
    ensures Next(h.shop, h.day, m, e).stock[id] == h.shop[id].count - UnitsSince(h, n, id)
    ensures UnitsSince(h, n, id) <= h.shop[id].count
  {
    assert Sells(h, n - 1, id) <==> e.Buy? && e.o.id == id && Verdict(h.shop, m.stock, e.o) == Success;
    assert Restocks(h, n - 1, id) <==> e.Restock? && e.turn < |m.restocks| && id in m.restocks[e.turn];
  }

  /**
   A purchase of any good, by any thread, goes through exactly if its own checks pass and,
   of a limited good, the units sold since the last restocking leave enough of the offer.
   */
  lemma SellsExactly(h: History, n: nat, o: Order)
    requires n < |h.steps| && h.steps[n] == Buy(o)
    ensures Sells(h, n, o.id) <==>
            && o.id > 0 && o.units > 0 && o.id in h.shop && o.inSellTime && o.cost <= o.cash
            && o.units <= h.shop[o.id].pileLimit && (h.shop[o.id].maxBuy > 0 ==> o.units <= h.shop[o.id].maxBuy)
            && (h.shop[o.id].count >= 0 ==> UnitsSince(h, n, o.id) + o.units <= h.shop[o.id].count)
  {
    StockExactly(h, n);
    assert o.id in h.shop ==> (o.id in After(h, n).stock <==> h.shop[o.id].count >= 0);
  }

  /** And each answer that refuses it says what is wrong first. */
  lemma RefusedExactly(h: History, n: nat, o: Order, code: Code)
    requires n < |h.steps| && h.steps[n] == Buy(o) && code == Verdict(h.shop, After(h, n).stock, o)
    ensures code == NoSuchGoods <==> o.id <= 0 || o.units <= 0 || o.id !in h.shop
    ensures o.id > 0 && o.units > 0 && o.id in h.shop ==>
              var g := h.shop[o.id];
              var over, overMax, poor := o.units > g.pileLimit, 0 < g.maxBuy < o.units, o.cost > o.cash;
              && (code == NotInSellTime <==> !o.inSellTime)
              && (code == OverPileLimit <==> o.inSellTime && over)
              && (code == OverMaxBuy <==> o.inSellTime && !over && overMax)
              && (code == NoCash <==> o.inSellTime && !over && !overMax && poor)
              && (code == NoGoods <==> o.inSellTime && !over && !overMax && !poor &&
                                       g.count >= 0 && UnitsSince(h, n, o.id) + o.units > g.count)
  {
    StockExactly(h, n);
    assert o.id in h.shop ==> (o.id in After(h, n).stock <==> h.shop[o.id].count >= 0);
  }

  // ---- When a good is due ----

  /** The clock reading of the last scan among the first n steps, or of the opening. */
  function LastReading(h: History, n: nat): int
    requires n <= |h.steps|
  {
    if n == 0 then h.start
    else if h.steps[n - 1].Scan? then h.steps[n - 1].now
    else LastReading(h, n - 1)
  }

  /** Every daily good is stamped with a time of the day of the last scan, due then or not. */
  lemma {:induction false} StampedDay(h: History, n: nat, id: Id)
    requires n <= |h.steps| && id in h.shop && h.shop[id].rule.PerDay?
    ensures id in After(h, n).times && h.day(After(h, n).times[id]) == h.day(LastReading(h, n))
  {
    if n > 0 {
      StampedDay(h, n - 1, id);
      assert After(h, n) == Next(h.shop, h.day, After(h, n - 1), h.steps[n - 1]);
    }
  }

  /** Step i was a scan at that time, on another day than the scan before, and no scan since was on another day. */
  ghost predicate StampedAt(h: History, n: nat, time: int, i: nat)
    requires i < n <= |h.steps|
  {
    && h.steps[i] == Scan(time) && h.day(LastReading(h, i)) != h.day(time)
    && forall j :: i < j < n && h.steps[j].Scan? ==> h.day(h.steps[j].now) == h.day(time)
  }

  /**
   The goods with a daily rule or a limit for each player carry a time. It is that of the
   opening, unless a daily good was stamped since: by the first scan of the latest day.
   */
  lemma {:induction false} StampsExactly(h: History, n: nat, id: Id)
    requires n <= |h.steps|
    ensures id in After(h, n).times <==> id in h.shop && (h.shop[id].rule.PerDay? || h.shop[id].maxBuy > 0)
    ensures id in After(h, n).times && !h.shop[id].rule.PerDay? ==> After(h, n).times[id] == h.start
    ensures id in After(h, n).times && h.shop[id].rule.PerDay? ==>
              var time := After(h, n).times[id];
              || (time == h.start && forall j :: 0 <= j < n && h.steps[j].Scan? ==> h.day(h.steps[j].now) == h.day(time))
              || exists i :: 0 <= i < n && StampedAt(h, n, time, i)
  {
    if n > 0 {
      StampsExactly(h, n - 1, id);
      ghost var m: nat := n - 1;
      ghost var was, e := After(h, m), h.steps[m];
      assert After(h, n) == Next(h.shop, h.day, was, e);
      if id in was.times && h.shop[id].rule.PerDay? {
        StampedDay(h, n - 1, id);
        ghost var time := was.times[id];
        if e.Scan? && h.day(time) != h.day(e.now) {
          assert StampedAt(h, n, e.now, m);
        } else if i :| 0 <= i < m && StampedAt(h, m, time, i) {
          assert StampedAt(h, n, time, i);
        }
      }
    }
  }

  /** Whatever the clock does: a scan finds a daily good due exactly if the last scan was on another day. */
  lemma DueExactly(h: History, n: nat, id: Id, now: int)
    requires n <= |h.steps|
    ensures id in DueGoods(h.shop, h.day, After(h, n).times, now) <==>
            id in h.shop && h.shop[id].rule.PerDay? && h.day(LastReading(h, n)) != h.day(now)
  {
    if id in h.shop && h.shop[id].rule.PerDay? {
      StampedDay(h, n, id);
    }
  }

  /** The scans' clock does not go back, and neither does its calendar. */
  ghost predicate Forward(h: History) {
    && (forall a: int, b: int :: a <= b ==> h.day(a) <= h.day(b))
    && (forall i :: 0 <= i < |h.steps| && h.steps[i].Scan? ==> h.start <= h.steps[i].now)
    && (forall i, j :: 0 <= i < j < |h.steps| && h.steps[i].Scan? && h.steps[j].Scan? ==>
          h.steps[i].now <= h.steps[j].now)
  }

  lemma {:induction false} ReadingIsLatest(h: History, n: nat)
    requires n <= |h.steps| && Forward(h)
    ensures h.start <= LastReading(h, n)
    ensures forall i :: 0 <= i < n && h.steps[i].Scan? ==> h.steps[i].now <= LastReading(h, n)
    ensures LastReading(h, n) == h.start || exists i :: 0 <= i < n && h.steps[i] == Scan(LastReading(h, n))
  {
    if n > 0 {
      ReadingIsLatest(h, n - 1);
    }
  }

  /**
   Once a day: with a clock that does not go back, a scan finds a daily good due exactly
   if neither the opening nor any earlier scan was on the same day.
   */
  lemma OncePerDay(h: History, n: nat, id: Id)
    requires n < |h.steps| && h.steps[n].Scan? && Forward(h) && id in h.shop && h.shop[id].rule.PerDay?
    ensures id in DueGoods(h.shop, h.day, After(h, n).times, h.steps[n].now) <==>
            && h.day(h.start) != h.day(h.steps[n].now)
            && forall i :: 0 <= i < n && h.steps[i].Scan? ==> h.day(h.steps[i].now) != h.day(h.steps[n].now)
  {
    ghost var now, last := h.steps[n].now, LastReading(h, n);
    DueExactly(h, n, id, now);
    ReadingIsLatest(h, n);
    assert last <= now;
  }

  // ---- The ranking over whole runs ----

  /** Units of a good in purchases still to be ranked, from position i on. */
  function UnrankedFrom(p: seq<Sale>, i: nat, id: Id): int
    requires i <= |p|
    decreases |p| - i
  {
    if i == |p| then 0 else (if p[i].id == id then p[i].units else 0) + UnrankedFrom(p, i + 1, id)
  }

  lemma {:induction false} UnrankedAppend(p: seq<Sale>, x: Sale, i: nat, id: Id)
    requires i <= |p|
    ensures UnrankedFrom(p + [x], i, id) == UnrankedFrom(p, i, id) + if x.id == id then x.units else 0
    decreases |p| - i
  {
    if i < |p| {
      UnrankedAppend(p, x, i + 1, id);
    } else {
      assert UnrankedFrom(p + [x], i + 1, id) == 0;
    }
  }

  lemma {:induction false} UnrankedTail(p: seq<Sale>, k: nat, j: nat, id: Id)
    requires k <= j < |p|
    ensures UnrankedFrom(Without(p, k), j, id) == UnrankedFrom(p, j + 1, id)
    decreases |p| - j
  {
    if j + 1 < |p| {
      assert Without(p, k)[j] == p[j + 1];
      UnrankedTail(p, k, j + 1, id);
    }
  }

  lemma {:induction false} UnrankedWithout(p: seq<Sale>, k: nat, i: nat, id: Id)
    requires i <= k < |p|
    ensures UnrankedFrom(Without(p, k), i, id) == UnrankedFrom(p, i, id) - if p[k].id == id then p[k].units else 0
    decreases k - i
  {
    if i < k {
      assert Without(p, k)[i] == p[i];
      UnrankedWithout(p, k, i + 1, id);
    } else {
      UnrankedTail(p, k, k, id);
    }
  }

  /** One entry for each good, best first; what is ranked and unranked is what was sold. */
  ghost predicate Ranked(h: History, n: nat, m: Mall)
    requires n <= |h.steps|
  {
    && Descending(m.ranking) && OneEach(m.ranking)
    && (forall i :: 0 <= i < |m.unranked| ==> m.unranked[i].units > 0)
    && (forall id :: Has(m.ranking, id) ==> UnitsOf(m.ranking, id) > 0)
    && (forall id :: UnitsOf(m.ranking, id) + UnrankedFrom(m.unranked, 0, id) == UnitsSold(h, n, id))
  }

  lemma {:induction false} RankingExactly(h: History, n: nat)
    requires n <= |h.steps|
    ensures Ranked(h, n, After(h, n))
  {
    if n > 0 {
      RankingExactly(h, n - 1);
      var m, e := After(h, n - 1), h.steps[n - 1];
      match e
      case Buy(o) => RankedBuy(h, n, m, o);
      case Rank(i) => RankedRank(h, n, m, i);
      case Scan(now) => RankedSame(h, n, m, e);
      case Restock(i) => RankedSame(h, n, m, e);
      assert After(h, n) == Next(h.shop, h.day, m, e);
    }
  }

  lemma RankedBuy(h: History, n: nat, m: Mall, o: Order)
    requires 0 < n <= |h.steps| && m == After(h, n - 1) && h.steps[n - 1] == Buy(o) && Ranked(h, n - 1, m)
    ensures Ranked(h, n, Next(h.shop, h.day, m, Buy(o)))
  {
    forall id ensures UnitsSold(h, n, id) ==
      UnitsSold(h, n - 1, id) + if o.id == id && Verdict(h.shop, m.stock, o) == Success then o.units else 0
    {
      assert Sells(h, n - 1, id) <==> o.id == id && Verdict(h.shop, m.stock, o) == Success;
    }
    if Verdict(h.shop, m.stock, o) == Success {
      forall id ensures UnrankedFrom(m.unranked + [Sale(o.units, o.id)], 0, id) ==
        UnrankedFrom(m.unranked, 0, id) + if o.id == id then o.units else 0
      {
        UnrankedAppend(m.unranked, Sale(o.units, o.id), 0, id);
      }
    }
  }

  lemma RankedRank(h: History, n: nat, m: Mall, i: nat)
    requires 0 < n <= |h.steps| && m == After(h, n - 1) && h.steps[n - 1] == Rank(i) && Ranked(h, n - 1, m)
    ensures Ranked(h, n, Next(h.shop, h.day, m, Rank(i)))
  {
    forall id ensures UnitsSold(h, n, id) == UnitsSold(h, n - 1, id) {
      assert !Sells(h, n - 1, id);
    }
    if i < |m.unranked| {
      ghost var next := Next(h.shop, h.day, m, Rank(i));
      MovedToRanking(m.ranking, m.unranked, i, next.ranking, next.unranked);
      assert Ranked(h, n, next);
    }
  }

  /** A purchase that enters the ranking moves its units there, and no others. */
  lemma MovedToRanking(r: Ranking, p: seq<Sale>, i: nat, ranking: Ranking, unranked: seq<Sale>)
    requires i < |p| && Descending(r) && OneEach(r)
    requires forall j :: 0 <= j < |p| ==> p[j].units > 0
    requires forall id :: Has(r, id) ==> UnitsOf(r, id) > 0
    requires ranking == Updated(r, p[i].id, p[i].units) && unranked == Without(p, i)
    ensures Descending(ranking) && OneEach(ranking)
    ensures forall j :: 0 <= j < |unranked| ==> unranked[j].units > 0
    ensures forall id :: Has(ranking, id) ==> UnitsOf(ranking, id) > 0
    ensures forall id :: UnitsOf(ranking, id) + UnrankedFrom(unranked, 0, id) == UnitsOf(r, id) + UnrankedFrom(p, 0, id)
  {
    ghost var s := p[i];
    forall id
      ensures UnitsOf(ranking, id) + UnrankedFrom(unranked, 0, id) == UnitsOf(r, id) + UnrankedFrom(p, 0, id)
      ensures Has(ranking, id) ==> UnitsOf(ranking, id) > 0
    {
      SaleUnits(r, s.id, s.units, id);
      UnrankedWithout(p, i, 0, id);
    }
    SaleUnits(r, s.id, s.units, s.id);
    LeftPositive(p, i);
  }

  /** What one sale does to the total of one good. */
  lemma SaleUnits(r: Ranking, id: Id, units: int, g: Id)
    requires Descending(r) && OneEach(r) && units > 0 && (Has(r, g) ==> UnitsOf(r, g) > 0)
    ensures Descending(Updated(r, id, units)) && OneEach(Updated(r, id, units))
    ensures UnitsOf(Updated(r, id, units), g) == UnitsOf(r, g) + if g == id then units else 0
    ensures Has(Updated(r, id, units), g) ==> UnitsOf(Updated(r, id, units), g) > 0
  {
    SaleRanked(r, id, units, Updated(r, id, units), g);
  }

  lemma LeftPositive(p: seq<Sale>, i: nat)
    requires i < |p| && forall j :: 0 <= j < |p| ==> p[j].units > 0
    ensures forall j :: 0 <= j < |Without(p, i)| ==> Without(p, i)[j].units > 0
  {
  }

  lemma RankedSame(h: History, n: nat, m: Mall, e: Step)
    requires 0 < n <= |h.steps| && m == After(h, n - 1) && h.steps[n - 1] == e && Ranked(h, n - 1, m)
    requires e.Scan? || e.Restock?
    ensures Ranked(h, n, Next(h.shop, h.day, m, e))
  {
    forall id ensures UnitsSold(h, n, id) == UnitsSold(h, n - 1, id) {
      assert !Sells(h, n - 1, id);
    }
  }

  /**
   Over every run, once no purchase is left to be ranked: every good has exactly its
   lifetime sales as total, a good is in the ranking if and only if it was ever sold, and
   the first five are the best sellers, best first.
   */
  lemma BestSellers(h: History, n: nat, g: Id)
    requires n <= |h.steps| && After(h, n).unranked == []
    ensures var r := After(h, n).ranking;
            && UnitsOf(r, g) == UnitsSold(h, n, g) && (Has(r, g) <==> UnitsSold(h, n, g) > 0)
            && (forall i, j :: 0 <= i < j < |Top(r)| ==>
                  Top(r)[i] != Top(r)[j] && UnitsSold(h, n, Top(r)[i]) >= UnitsSold(h, n, Top(r)[j]))
            && (forall i :: 0 <= i < |Top(r)| ==> UnitsSold(h, n, Top(r)[i]) > 0)
            && (UnitsSold(h, n, g) > 0 && g !in Top(r) ==>
                  |Top(r)| == TOP && forall i :: 0 <= i < TOP ==> UnitsSold(h, n, Top(r)[i]) >= UnitsSold(h, n, g))
  {
    RankingExactly(h, n);
    var r := After(h, n).ranking;
    forall id ensures UnitsOf(r, id) == UnitsSold(h, n, id) {
      assert UnrankedFrom(After(h, n).unranked, 0, id) == 0;
    }
    TopAreBest(r, g);
  }
}
