/**
 How much of a limited good can be sold between two scans: what is in stock and what the
 restockings to come would add, whatever the threads do.
 */
module MallOffers {
  import opened Sequences
  import opened SalesRanking
  import opened MallRuns

  /** What the restockings still to come would add of one good. */
  function RefillsFrom(restocks: seq<set<Id>>, i: nat, id: Id, count: int): (r: int)
    requires i <= |restocks|
    ensures count >= 0 ==> r >= 0
    decreases |restocks| - i
  {
    if i == |restocks| then 0
    else (if id in restocks[i] then count else 0) + RefillsFrom(restocks, i + 1, id, count)
  }

  lemma {:induction false} RefillsTail(p: seq<set<Id>>, k: nat, j: nat, id: Id, count: int)
    requires k <= j < |p|
    ensures RefillsFrom(Without(p, k), j, id, count) == RefillsFrom(p, j + 1, id, count)
    decreases |p| - j
  {
    if j + 1 < |p| {
      RefillsTail(p, k, j + 1, id, count);
    }
  }

  lemma {:induction false} RefillsWithout(p: seq<set<Id>>, k: nat, i: nat, id: Id, count: int)
    requires i <= k < |p|
    ensures RefillsFrom(Without(p, k), i, id, count) == RefillsFrom(p, i, id, count) - if id in p[k] then count else 0
    decreases k - i
  {
    if i < k {
      RefillsWithout(p, k, i + 1, id, count);
    } else {
      RefillsTail(p, k, k, id, count);
    }
  }

  lemma {:induction false} RefillPending(p: seq<set<Id>>, i: nat, id: Id, count: int) returns (k: nat)
    requires i <= |p| && RefillsFrom(p, i, id, count) > 0
    ensures i <= k < |p| && id in p[k]
    decreases |p| - i
  {
    if id in p[i] {
      k := i;
    } else {
      k := RefillPending(p, i + 1, id, count);
    }
  }

  predicate NoScan(steps: seq<Step>) {
    forall i :: 0 <= i < |steps| ==> !steps[i].Scan?
  }

  /** The units of a good that one step sells. */
  function Sold(shop: Shop, m: Mall, e: Step, id: Id): int {
    if e.Buy? && e.o.id == id && Verdict(shop, m.stock, e.o) == Success then e.o.units else 0
  }

  function SoldBy(shop: Shop, day: Calendar, m: Mall, steps: seq<Step>, id: Id): int
    decreases |steps|
  {
    if steps == [] then 0
    else Sold(shop, m, steps[0], id) + SoldBy(shop, day, Next(shop, day, m, steps[0]), steps[1..], id)
  }

  /** What can still be sold of a good before the next scan: the stock and the refills to come. */
  function Allowance(shop: Shop, m: Mall, id: Id): int
    requires id in shop && id in m.stock
  {
    m.stock[id] + RefillsFrom(m.restocks, 0, id, shop[id].count)
  }

  lemma AllowanceStep(shop: Shop, day: Calendar, m: Mall, e: Step, id: Id)
    requires id in shop && id in m.stock && m.stock[id] >= 0 && shop[id].count >= 0 && !e.Scan?
    ensures var m' := Next(shop, day, m, e);
            && id in m'.stock && m'.stock[id] >= 0
            && Sold(shop, m, e, id) + Allowance(shop, m', id) <= Allowance(shop, m, id)
  {
    if e.Restock? && e.turn < |m.restocks| {
      RefillsWithout(m.restocks, e.turn, 0, id, shop[id].count);
    }
  }

  lemma {:induction false} SoldAtMost(shop: Shop, day: Calendar, m: Mall, steps: seq<Step>, id: Id)
    requires id in shop && id in m.stock && m.stock[id] >= 0 && shop[id].count >= 0 && NoScan(steps)
    ensures SoldBy(shop, day, m, steps, id) <= Allowance(shop, m, id)
    decreases |steps|
  {
    if steps != [] {
      AllowanceStep(shop, day, m, steps[0], id);
      SoldAtMost(shop, day, Next(shop, day, m, steps[0]), steps[1..], id);
    }
  }

  /** A good of which single units can be bought. */
  predicate Buyable(shop: Shop, id: Id) {
    id in shop && id > 0 && shop[id].pileLimit >= 1 && shop[id].count > 0
  }

  lemma Prepend(shop: Shop, day: Calendar, m: Mall, e: Step, rest: seq<Step>, id: Id)
    ensures SoldBy(shop, day, m, [e] + rest, id) ==
            Sold(shop, m, e, id) + SoldBy(shop, day, Next(shop, day, m, e), rest, id)
  {
    assert ([e] + rest)[1..] == rest;
  }

  /** And all of it can be sold: one by one, restocking whenever nothing is left. */
  lemma {:induction false} SellOut(shop: Shop, day: Calendar, m: Mall, id: Id) returns (steps: seq<Step>)
    requires Buyable(shop, id) && id in m.stock && m.stock[id] >= 0
    ensures NoScan(steps) && SoldBy(shop, day, m, steps, id) == Allowance(shop, m, id)
    decreases |m.restocks|, m.stock[id]
  {
    if m.stock[id] > 0 {
      ghost var e := Buy(Order(id, 1, true, 0, 0));
      ghost var m' := Next(shop, day, m, e);
      assert Sold(shop, m, e, id) == 1 && m'.stock[id] == m.stock[id] - 1 && m'.restocks == m.restocks;
      var rest := SellOut(shop, day, m', id);
      Prepend(shop, day, m, e, rest, id);
      steps := [e] + rest;
    } else if RefillsFrom(m.restocks, 0, id, shop[id].count) > 0 {
      var k := RefillPending(m.restocks, 0, id, shop[id].count);
      ghost var e := Restock(k);
      ghost var m' := Next(shop, day, m, e);
      RefillsWithout(m.restocks, k, 0, id, shop[id].count);
      var rest := SellOut(shop, day, m', id);
      Prepend(shop, day, m, e, rest, id);
      steps := [e] + rest;
    } else {
      steps := [];
    }
  }

  /**
   No more than the shop offers of a good can be sold before the next scan, whatever the
   threads do, if and only if stock and pending refills together are no more than that.
   */
  lemma OfferExactly(shop: Shop, day: Calendar, m: Mall, id: Id)
    requires Buyable(shop, id) && id in m.stock && m.stock[id] >= 0
    ensures (forall steps :: NoScan(steps) ==> SoldBy(shop, day, m, steps, id) <= shop[id].count) <==>
            Allowance(shop, m, id) <= shop[id].count
  {
    if Allowance(shop, m, id) <= shop[id].count {
      forall steps | NoScan(steps) ensures SoldBy(shop, day, m, steps, id) <= shop[id].count {
        SoldAtMost(shop, day, m, steps, id);
      }
    } else {
      var steps := SellOut(shop, day, m, id);
    }
  }

  /** One due scan: the old stock is bought before the restocking, the new stock after it. */
  lemma OneScanOversells(g: Goods, day: Calendar, id: Id, start: int, now: int) returns (steps: seq<Step>)
    requires g.count > 0 && g.pileLimit >= 1 && g.rule.PerDay? && id > 0 && day(start) != day(now)
    ensures var shop := map[id := g];
            var m := Next(shop, day, Opened(shop, start), Scan(now));
            NoScan(steps) && SoldBy(shop, day, m, steps, id) == 2 * g.count
  {
    ghost var shop := map[id := g];
    ghost var m := Next(shop, day, Opened(shop, start), Scan(now));
    ghost var n := |m.restocks|;
    assert n == 1 && id in m.restocks[n - 1];
    assert RefillsFrom(m.restocks, n - 1, id, g.count) == g.count + RefillsFrom(m.restocks, n, id, g.count);
    steps := SellOut(shop, day, m, id);
  }

  /** Two due scans with no restocking between them: three times the offer can be sold. */
  lemma TwoScansOversell(g: Goods, day: Calendar, id: Id, start: int, first: int, second: int)
    returns (steps: seq<Step>)
    requires g.count > 0 && g.pileLimit >= 1 && g.rule.PerDay? && id > 0
    requires day(start) != day(first) && day(first) != day(second)
    ensures var shop := map[id := g];
            var m := Next(shop, day, Next(shop, day, Opened(shop, start), Scan(first)), Scan(second));
            NoScan(steps) && SoldBy(shop, day, m, steps, id) == 3 * g.count
  {
    ghost var shop := map[id := g];
    ghost var m1 := Next(shop, day, Opened(shop, start), Scan(first));
    ghost var m := Next(shop, day, m1, Scan(second));
    ghost var n := |m.restocks|;
    assert n == 2 && id in m.restocks[n - 2] && id in m.restocks[n - 1];
    assert RefillsFrom(m.restocks, n - 1, id, g.count) == g.count + RefillsFrom(m.restocks, n, id, g.count);
    assert RefillsFrom(m.restocks, n - 2, id, g.count) == g.count + RefillsFrom(m.restocks, n - 1, id, g.count);
    steps := SellOut(shop, day, m, id);
  }

  /** Step n is a scan that finds the good due. */
  predicate FindsDue(h: History, n: nat, id: Id)
    requires n < |h.steps|
  {
    h.steps[n].Scan? && id in DueGoods(h.shop, h.day, After(h, n).times, h.steps[n].now)
  }

  /** Units of a good sold since a scan last found it due. */
  function UnitsSinceDue(h: History, n: nat, id: Id): int
    requires n <= |h.steps|
  {
    if n == 0 || FindsDue(h, n - 1, id) then 0
    else UnitsSinceDue(h, n - 1, id) + if Sells(h, n - 1, id) then h.steps[n - 1].o.units else 0
  }

  predicate AwaitedIn(restocks: seq<set<Id>>, id: Id) {
    exists i :: 0 <= i < |restocks| && id in restocks[i]
  }

  predicate Awaits(m: Mall, id: Id) {
    AwaitedIn(m.restocks, id)
  }

  /** Every due scan is carried out before the good is bought again. */
  ghost predicate Prompt(h: History, n: nat, id: Id)
    requires n <= |h.steps|
  {
    forall i :: 0 <= i < n && Sells(h, i, id) ==> !Awaits(After(h, i), id)
  }

  lemma AwaitedAppend(p: seq<set<Id>>, due: set<Id>, id: Id)
    ensures AwaitedIn(p + [due], id) <==> AwaitedIn(p, id) || id in due
  {
    ghost var q := p + [due];
    assert q[|p|] == due && forall i :: 0 <= i < |p| ==> q[i] == p[i];
  }

  lemma AwaitedWithout(p: seq<set<Id>>, t: nat, id: Id)
    requires t < |p|
    ensures AwaitedIn(Without(p, t), id) ==> AwaitedIn(p, id)
    ensures id in p[t] ==> AwaitedIn(p, id)
    ensures id !in p[t] && AwaitedIn(p, id) ==> AwaitedIn(Without(p, t), id)
  {
    ghost var q := Without(p, t);
    assert forall i :: 0 <= i < |q| ==> q[i] == p[if i < t then i else i + 1];
    assert forall i :: 0 <= i < |p| && i != t ==> p[i] == q[if i < t then i else i - 1];
  }

  lemma AwaitsStep(h: History, n: nat, id: Id)
    requires n < |h.steps|
    ensures FindsDue(h, n, id) ==> Awaits(After(h, n + 1), id)
    ensures Restocks(h, n, id) ==> Awaits(After(h, n), id)
    ensures !FindsDue(h, n, id) && Awaits(After(h, n + 1), id) ==> Awaits(After(h, n), id)
    ensures !Restocks(h, n, id) && Awaits(After(h, n), id) ==> Awaits(After(h, n + 1), id)
  {
    ghost var m, e := After(h, n), h.steps[n];
    assert After(h, n + 1) == Next(h.shop, h.day, m, e);
    match e
    case Scan(now) => AwaitedAppend(m.restocks, DueGoods(h.shop, h.day, m.times, now), id);
    case Restock(t) =>
      if t < |m.restocks| { AwaitedWithout(m.restocks, t, id); }
    case _ =>
  }

  /** Both counts over one more step. */
  lemma CountsStep(h: History, n: nat, id: Id)
    requires n < |h.steps|
    ensures UnitsSinceDue(h, n + 1, id) == if FindsDue(h, n, id) then 0
              else UnitsSinceDue(h, n, id) + if Sells(h, n, id) then h.steps[n].o.units else 0
    ensures UnitsSince(h, n + 1, id) == if Restocks(h, n, id) then 0
              else UnitsSince(h, n, id) + if Sells(h, n, id) then h.steps[n].o.units else 0
  {
  }

  /** The two counts agree while no restocking is awaited, and nothing is sold while one is. */
  ghost predicate Together(h: History, n: nat, id: Id)
    requires n <= |h.steps|
  {
    if Awaits(After(h, n), id) then UnitsSinceDue(h, n, id) == 0
    else UnitsSinceDue(h, n, id) == UnitsSince(h, n, id)
  }

  lemma TogetherStep(h: History, n: nat, id: Id)
    requires n < |h.steps|
    ensures Together(h, n, id) && (Sells(h, n, id) ==> !Awaits(After(h, n), id)) ==> Together(h, n + 1, id)
  {
    CountsStep(h, n, id);
    AwaitsStep(h, n, id);
  }

  lemma {:induction false} TogetherAlways(h: History, n: nat, id: Id)
    requires n <= |h.steps| && Prompt(h, n, id)
    ensures Together(h, n, id)
  {
    if n > 0 {
      TogetherAlways(h, n - 1, id);
      TogetherStep(h, n - 1, id);
    }
  }

  /**
   When every due scan is carried out before the next purchase of a limited good, no
   more of it is sold between two due scans than the shop offers.
   */
  lemma PromptKeepsOffer(h: History, n: nat, id: Id)
    requires n <= |h.steps| && id in Limited(h.shop) && Prompt(h, n, id)
    ensures UnitsSinceDue(h, n, id) <= h.shop[id].count
  {
    TogetherAlways(h, n, id);
    StockExactly(h, n);
  }
}
