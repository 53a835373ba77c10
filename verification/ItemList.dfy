/**
 The item list: its slots and the cached number of free ones. Every method keeps the
 cache exact and the slots good, and does to the slots what its function says.
 */
module ItemList {
  import opened Numbers
  import opened Sequences
  import opened Items
  import opened ItemPiling
  import opened ItemOps
  import opened ItemTidy
  import opened TidyLimits

  class Inventory {
    var slots: seq<Item>
    var emptySlotCount: nat
    const classCount: nat

    /** The cached number of free slots is right. */
    ghost predicate Counted() reads this {
      emptySlotCount == FreeSlots(slots) && classCount == CLASS_COUNT
    }

    ghost predicate Valid() reads this {
      Counted() && AllGood(slots)
    }

    constructor (n: nat)
      ensures Valid() && slots == Cleared(n) && emptySlotCount == n
    {
      slots := seq(n, _ => EMPTY);
      emptySlotCount := n;
      classCount := CLASS_COUNT;
      new;
      ClearedCount(n, n, 0);
    }

    // ---- Queries ----

    method Find(ty: int) returns (i: int)
      requires Valid()
      ensures -1 <= i < |slots|
      ensures i >= 0 ==> Occupied(slots, i) && slots[i].ty == ty
      ensures forall k :: 0 <= k < (if i < 0 then |slots| else i) ==> IsEmpty(slots[k]) || slots[k].ty != ty
    {
      for k := 0 to |slots|
        invariant forall j :: 0 <= j < k ==> IsEmpty(slots[j]) || slots[j].ty != ty
      {
        if !IsEmpty(slots[k]) && slots[k].ty == ty {
          return k;
        }
      }
      return -1;
    }

    method CountItem(ty: int) returns (count: int)
      requires Valid()
      ensures count == Count(slots, ty) && count >= 0
    {
      count := 0;
      for k := 0 to |slots|
        invariant count == CountTo(slots, ty, k)
      {
        if !IsEmpty(slots[k]) && slots[k].ty == ty {
          count := count + slots[k].amount;
        }
      }
      CountMonotone(slots, ty, 0, |slots|);
    }

    method HasSlot(ty: int, count: int) returns (b: bool)
      requires Valid()
      ensures b <==> ItemPiling.HasSlot(slots, ty, count)
    {
      if emptySlotCount > 0 {
        return true;
      }
      var left, i := count, 0;
      while i < |slots| && left > 0
        invariant i <= |slots| && left == count - RoomTo(slots, ty, i)
      {
        if !IsEmpty(slots[i]) && slots[i].ty == ty {
          left := left - (slots[i].limit - slots[i].amount);
        }
        i := i + 1;
      }
      RoomMonotone(slots, ty, i, |slots|);
      return left <= 0;
    }

    // ---- Bookkeeping after an item went in or before it comes out ----

    method OnPutIn()
      requires emptySlotCount > 0
      modifies this`emptySlotCount
      ensures emptySlotCount == old(emptySlotCount) - 1
    {
      emptySlotCount := emptySlotCount - 1;
    }

    method OnTakeOut()
      modifies this`emptySlotCount
      ensures emptySlotCount == old(emptySlotCount) + 1
    {
      emptySlotCount := emptySlotCount + 1;
    }

    // ---- Insertion ----

    /** Piles onto stacks of the type; also finds the first empty slot it passes. */
    method TryPile(ty: int, count: int) returns (left: int, last: int, empty: int)
      requires AllGood(slots) && count > 0
      modifies this`slots
      ensures Pile(slots, left, last) == PileFrom(old(slots), ty, count, 0, -1)
      ensures AllGood(slots) && FreeSlots(slots) == FreeSlots(old(slots))
      ensures left > 0 ==> empty == if FirstEmpty(slots) == |slots| then -1 else FirstEmpty(slots)
    {
      ghost var before := slots;
      PileFromKeeps(before, ty, count, 0, -1, ty);
      left, last, empty := count, -1, -1;
      for i := 0 to |slots|
        invariant |slots| == |before| && left > 0
        invariant forall k :: 0 <= k < |slots| ==> (IsEmpty(slots[k]) <==> IsEmpty(before[k]))
        invariant PileFrom(slots, ty, left, i, last) == PileFrom(before, ty, count, 0, -1)
        invariant if empty == -1 then FirstEmptyFrom(slots, 0) >= i else empty == FirstEmptyFrom(slots, 0) < i
      {
        if IsEmpty(slots[i]) {
          if empty == -1 {
            empty := i;
          }
        } else if slots[i].ty == ty && slots[i].amount < slots[i].limit {
          var d := left;
          if d + slots[i].amount > slots[i].limit {
            d := slots[i].limit - slots[i].amount;
          }
          ghost var was := slots;
          slots := slots[i := slots[i].(amount := slots[i].amount + d)];
          assert slots == Topped(was, left, i);
          left := left - d;
          last := i;
          EmptiesAgree(was, slots, 0);
          if left <= 0 {
            break;
          }
        }
      }
    }

    method FindEmpty() returns (empty: int)
      ensures empty == if FirstEmpty(slots) == |slots| then -1 else FirstEmpty(slots)
    {
      for i := 0 to |slots|
        invariant FirstEmptyFrom(slots, i) == FirstEmpty(slots)
      {
        if IsEmpty(slots[i]) {
          return i;
        }
      }
      return -1;
    }

    /**
     Stack-first insertion of a fresh item; says what is left over and the last slot
     that took some. An offer above the pile limit can overfill the fresh slot.
     */
    method Push(x: Item) returns (all: bool, left: int, last: int)
      requires Valid() && Offer(x)
      modifies this
      ensures Counted()
      ensures Valid() <==> Spill(old(slots), x) <= x.limit || FreeSlots(old(slots)) == 0
      ensures Pushed(slots, left, last, all) == ItemPiling.Push(old(slots), x)
    {
      ghost var before := slots;
      PushGoodExactly(before, x);
      if emptySlotCount == 0 && x.limit == 1 {
        return false, x.amount, -1;
      }
      left, last := x.amount, -1;
      var empty;
      if x.limit > 1 {
        PileFromKeeps(before, x.ty, x.amount, 0, -1, x.ty);
        left, last, empty := TryPile(x.ty, x.amount);
        if left == 0 {
          return true, left, last;
        }
      } else {
        empty := FindEmpty();
      }
      if empty == -1 {
        return false, left, last;
      }
      FreeNone(slots, |slots|);
      Changed(slots, empty, x.(amount := left), x.ty);
      slots := slots[empty := x.(amount := left)];
      OnPutIn();
      return true, 0, empty;
    }

    /**
     Into a given slot, onto an equal stack if all of it fits; never split. `held` says
     whether stacks that were put together have one pile limit, as the source asserts.
     */
    method PushAt(i: nat, x: Item) returns (ok: bool, held: bool)
      requires Valid() && i < |slots| && Offer(x)
      modifies this
      ensures Counted() && Done(slots, ok) == PutAt(old(slots), i, x)
      ensures Valid() <==> !IsEmpty(old(slots)[i]) || x.amount <= x.limit
      ensures held <==> (ok && !IsEmpty(old(slots)[i]) ==> x.limit == old(slots)[i].limit)
      ensures ok <==> IsEmpty(old(slots)[i]) ||
                      (old(slots)[i].ty == x.ty && old(slots)[i].amount + x.amount <= old(slots)[i].limit)
      ensures ok ==> slots[i] == (if IsEmpty(old(slots)[i]) then x else old(slots)[i]).(amount := slots[i].amount)
                     && slots[i].amount == old(slots)[i].amount + x.amount
      ensures forall k :: 0 <= k < |slots| && !(ok && k == i) ==> slots[k] == old(slots)[k]
    {
      assert Good(slots[i]);
      FreeNone(slots, |slots|);
      if IsEmpty(slots[i]) {
        Changed(slots, i, x, x.ty);
        GoodAt(slots, i, x);
        slots := slots[i := x];
        OnPutIn();
        return true, true;
      }
      if slots[i].ty == x.ty && slots[i].limit >= slots[i].amount + x.amount {
        held := x.limit == slots[i].limit;
        var y := slots[i].(amount := slots[i].amount + x.amount);
        Changed(slots, i, y, x.ty);
        slots := slots[i := y];
        return true, held;
      }
      return false, true;
    }

    /** Into the first empty slot from `start` on; a start outside the list finds none. */
    method PushInEmpty(start: int, x: Item) returns (at: int)
      requires Valid() && Offer(x)
      modifies this
      ensures Counted() && Done(slots, at >= 0) == PutInEmpty(old(slots), start, x)
      ensures at >= 0 ==> at == EmptyFrom(old(slots), start)
      ensures at >= 0 <==> exists k :: 0 <= start <= k < |old(slots)| && IsEmpty(old(slots)[k])
      ensures at >= 0 ==> IsEmpty(old(slots)[at]) && slots == old(slots)[at := x] &&
                          forall k :: start <= k < at ==> !IsEmpty(old(slots)[k])
      ensures at < 0 ==> slots == old(slots)
      ensures Valid() <==> at < 0 || x.amount <= x.limit
    {
      if !(0 <= start <= |slots|) {
        return -1;
      }
      FreeNone(slots, |slots|);
      for i := start to |slots|
        invariant slots == old(slots) && emptySlotCount == old(emptySlotCount)
        invariant FirstEmptyFrom(slots, i) == FirstEmptyFrom(slots, start)
      {
        if IsEmpty(slots[i]) {
          Changed(slots, i, x, x.ty);
          GoodAt(slots, i, x);
          slots := slots[i := x];
          OnPutIn();
          return i;
        }
      }
      return -1;
    }

    /**
     Puts `x` at a slot and hands out what was there. Item assignment asserts that there
     is something to assign; `held` says whether it did both times.
     */
    method Exchange(i: nat, x: Item) returns (y: Item, held: bool)
      requires Valid() && i < |slots|
      modifies this
      ensures Counted() && slots == old(slots)[i := x] && y == old(slots[i])
      ensures Valid() <==> Good(x)
      ensures held <==> !IsEmpty(old(slots[i])) && x.amount > 0
    {
      y := slots[i];
      assert Good(y);
      FreeNone(slots, |slots|);
      held := y.amount > 0 && x.amount > 0;
      Changed(slots, i, x, 0);
      GoodAt(slots, i, x);
      if !IsEmpty(slots[i]) {
        OnTakeOut();
      }
      slots := slots[i := x];
      if !IsEmpty(x) {
        OnPutIn();
      }
    }

    // ---- Moving ----

    /** Swaps two slots; `held` says whether the assertion of item assignment held both times. */
    method ExchangeItem(i: int, j: int) returns (ok: bool, held: bool)
      requires Valid()
      modifies this`slots
      ensures Valid() && Done(slots, ok) == Swap(old(slots), i, j)
      ensures held <==> (ok ==> Occupied(old(slots), i) && Occupied(old(slots), j))
      ensures ok <==> i != j && 0 <= i < |old(slots)| && 0 <= j < |old(slots)|
      ensures ok ==> slots[i] == old(slots)[j] && slots[j] == old(slots)[i]
      ensures forall k :: 0 <= k < |slots| && !(ok && (k == i || k == j)) ==> slots[k] == old(slots)[k]
    {
      if i == j || !(0 <= i < |slots|) || !(0 <= j < |slots|) {
        return false, true;
      }
      assert Good(slots[i]) && Good(slots[j]);
      held := slots[i].amount > 0 && slots[j].amount > 0;
      ChangedTwo(slots, i, slots[j], j, slots[i], 0);
      slots := slots[i := slots[j]][j := slots[i]];
      return true, held;
    }

    method MoveItem(dest: int, src: int, count: int) returns (ok: bool)
      requires Valid() && count >= 0
      modifies this
      ensures Valid() && Done(slots, ok) == Move(old(slots), dest, src, count)
      ensures ok <==>
                && src != dest && Occupied(old(slots), src) && 0 <= dest < |old(slots)|
                && 0 < count <= old(slots)[src].amount
                && (!IsEmpty(old(slots)[dest]) ==>
                      old(slots)[dest].ty == old(slots)[src].ty &&
                      old(slots)[dest].amount + count <= old(slots)[dest].limit)
      ensures ok ==>
                && slots[src].amount == old(slots)[src].amount - count
                && slots[dest].amount == old(slots)[dest].amount + count
                && slots[dest] == (if IsEmpty(old(slots)[dest]) then old(slots)[src] else old(slots)[dest])
                                  .(amount := slots[dest].amount)
                && (slots[src].amount > 0 ==> slots[src] == old(slots)[src].(amount := slots[src].amount))
      ensures forall k :: 0 <= k < |slots| && !(ok && (k == src || k == dest)) ==> slots[k] == old(slots)[k]
    {
      assert forall k :: 0 <= k < |slots| ==> Good(slots[k]);
      MoveKeeps(slots, dest, src, count, 0);
      FreeNone(slots, |slots|);
      if src == dest || !(0 <= src < |slots|) || !(0 <= dest < |slots|) {
        return false;
      }
      if count == 0 || IsEmpty(slots[src]) || slots[src].amount < count {
        return false;
      }
      var rest := Less(slots[src], count);
      if IsEmpty(slots[dest]) {
        ChangedTwo(slots, dest, slots[src].(amount := count), src, rest, 0);
        slots := slots[dest := slots[src].(amount := count)][src := rest];
        if rest != EMPTY {
          OnPutIn();
        }
        return true;
      }
      if slots[dest].ty != slots[src].ty || slots[dest].amount + count > slots[dest].limit {
        return false;
      }
      var more := slots[dest].(amount := slots[dest].amount + count);
      ChangedTwo(slots, dest, more, src, rest, 0);
      slots := slots[dest := more][src := rest];
      if rest == EMPTY {
        OnTakeOut();
      }
      return true;
    }

    // ---- Taking out ----

    /** A bad index or an empty slot is answered with false, after failing an assertion. */
    method RemoveAt(i: int) returns (ok: bool, x: Item, held: bool)
      requires Valid()
      modifies this
      ensures Valid() && slots == Remove(old(slots), i)
      ensures ok == held == Occupied(old(slots), i) && (ok ==> x == old(slots)[i] && slots[i] == EMPTY)
      ensures forall k :: 0 <= k < |slots| && !(ok && k == i) ==> slots[k] == old(slots)[k]
    {
      x := EMPTY;
      if !(0 <= i < |slots|) || IsEmpty(slots[i]) {
        return false, x, false;
      }
      OnTakeOut();
      x := slots[i];
      Changed(slots, i, EMPTY, 0);
      slots := slots[i := EMPTY];
      ok, held := true, true;
    }

    /** A bad index or an empty slot is answered with -1, after failing an assertion. */
    method IncAmount(i: int, count: int) returns (delta: int, held: bool)
      requires Valid() && count >= 0
      modifies this`slots
      ensures Valid() && slots == Inc(old(slots), i, count)
      ensures delta == if Occupied(old(slots), i) then Min(count, old(slots)[i].limit - old(slots)[i].amount) else -1
      ensures held <==> Occupied(old(slots), i)
      ensures held ==> slots[i] == old(slots)[i].(amount := old(slots)[i].amount + delta)
      ensures forall k :: 0 <= k < |slots| && !(held && k == i) ==> slots[k] == old(slots)[k]
    {
      TakeKeeps(slots, IncOp(i, count), 0);
      if !(0 <= i < |slots|) || IsEmpty(slots[i]) {
        return -1, false;
      }
      held := true;
      if slots[i].amount >= slots[i].limit {
        assert Good(slots[i]);
        return 0, held;
      }
      delta := slots[i].limit - slots[i].amount;
      if delta > count {
        delta := count;
      }
      var y := slots[i].(amount := slots[i].amount + delta);
      Changed(slots, i, y, 0);
      slots := slots[i := y];
    }

    /**
     Takes `count` items off a stack, or all of it; says how many are left there. A bad
     index or an empty slot is answered with -1, after failing an assertion.
     */
    method DecAmount(i: int, count: int) returns (left: int, held: bool)
      requires Valid() && count >= 0
      modifies this
      ensures Valid() && slots == Dec(old(slots), i, count)
      ensures left == if Occupied(old(slots), i) then slots[i].amount else -1
      ensures held <==> Occupied(old(slots), i)
      ensures held ==> left == Max(0, old(slots)[i].amount - count)
                       && slots[i] == if left == 0 then EMPTY else old(slots)[i].(amount := left)
      ensures forall k :: 0 <= k < |slots| && !(held && k == i) ==> slots[k] == old(slots)[k]
    {
      TakeKeeps(slots, DecOp(i, count), 0);
      if !(0 <= i < |slots|) || IsEmpty(slots[i]) {
        return -1, false;
      }
      held := true;
      var y := if slots[i].amount <= count then EMPTY else slots[i].(amount := slots[i].amount - count);
      Changed(slots, i, y, 0);
      if slots[i].amount <= count {
        OnTakeOut();
      }
      slots := slots[i := y];
      left := slots[i].amount;
    }

    method TakeOutItem(i: nat, ty: int, count: int) returns (ok: bool)
      requires Valid() && count >= 0
      modifies this
      ensures Valid()
      ensures ok <==> i < |old(slots)| && !IsEmpty(old(slots)[i]) &&
                      old(slots)[i].ty == ty && old(slots)[i].amount >= count
      ensures slots == if ok then Dec(old(slots), i, count) else old(slots)
    {
      if i >= |slots| || IsEmpty(slots[i]) || slots[i].ty != ty || slots[i].amount < count {
        return false;
      }
      var left, held := DecAmount(i, count);
      assert held;
      assert Good(slots[i]);
      return left >= 0;
    }

    /** Sells items; the money is the item's price times the count. */
    method SellItem(i: int, count: int) returns (ok: bool, gain: int)
      requires Valid() && count >= 0
      modifies this
      ensures Valid() && Done(slots, ok) == Sell(old(slots), i, count)
      ensures gain == if ok && old(slots)[i].price * count > 0 then old(slots)[i].price * count else 0
      ensures ok <==> Occupied(old(slots), i) && count <= old(slots)[i].amount && old(slots)[i].sellable
      ensures ok ==> slots[i].amount == old(slots)[i].amount - count
                     && (slots[i].amount > 0 ==> slots[i] == old(slots)[i].(amount := slots[i].amount))
      ensures forall k :: 0 <= k < |slots| && !(ok && k == i) ==> slots[k] == old(slots)[k]
    {
      TakeKeeps(slots, SellOp(i, count), 0);
      gain := 0;
      if !(0 <= i < |slots|) || IsEmpty(slots[i]) {
        return false, 0;
      }
      if slots[i].amount < count || !slots[i].sellable {
        return false, 0;
      }
      var total := slots[i].price * count;
      if total > 0 {
        gain := total;
      }
      var rest := Less(slots[i], count);
      Changed(slots, i, rest, 0);
      if rest == EMPTY {
        OnTakeOut();
      }
      slots := slots[i := rest];
      ok := true;
    }

    method Clear()
      requires Valid()
      modifies this
      ensures Valid() && slots == Cleared(|old(slots)|) && emptySlotCount == |slots|
    {
      for i := 0 to |slots|
        invariant |slots| == |old(slots)| && Valid()
        invariant forall k :: 0 <= k < i ==> slots[k] == EMPTY
      {
        if !IsEmpty(slots[i]) {
          Changed(slots, i, EMPTY, 0);
          OnTakeOut();
          slots := slots[i := EMPTY];
        } else {
          assert Good(slots[i]);
        }
      }
      EmptiesCountNothing(slots, |slots|, 0);
    }

    // ---- Tidying ----

    /** Merges or inserts one stack into the list of its class. */
    method InsertItem(list: seq<Item>, it: Item, repaired: bool) returns (r: seq<Item>)
      ensures r == Insert(list, it, repaired)
    {
      r := list;
      var count := it.amount;
      for i := 0 to |list|
        invariant |r| == |list|
        invariant MergeFrom(r, it, count, i, repaired) == MergeFrom(list, it, it.amount, 0, repaired)
      {
        if r[i].ty == it.ty && r[i].amount < r[i].limit {
          if count + r[i].amount > r[i].limit {
            var given := if repaired then r[i].limit - r[i].amount else r[i].limit - it.amount;
            r := r[i := r[i].(amount := r[i].amount + given)];
            count := count - given;
          } else {
            r := r[i := r[i].(amount := r[i].amount + count)];
            return;
          }
        }
      }
      var item := it.(amount := count);
      ghost var merged := r;
      for p := 0 to |r|
        invariant r == merged && PlaceFrom(r, it, p) == PlaceFrom(r, it, 0)
      {
        if !(r[p].ty < it.ty || (r[p].ty == it.ty && r[p].rank >= it.rank)) {
          r := Spliced(r, p, item);
          return;
        }
      }
      r := r + [item];
      assert r == Spliced(merged, |merged|, item);
    }

    method ItemsOfClass(c: int, repaired: bool) returns (items: seq<Item>)
      ensures items == Group(slots, c, |slots|, repaired)
    {
      items := [];
      for i := 0 to |slots|
        invariant items == Group(slots, c, i, repaired)
      {
        if !IsEmpty(slots[i]) && slots[i].cls == c {
          items := InsertItem(items, slots[i], repaired);
        }
      }
    }

    /**
     Rebuilds the bag class by class. The merge as written asserts every stack limit,
     which holds exactly under the guard; the intended merge needs no guard.
     */
    method TidyUp(repaired: bool)
      requires Valid() && ClassesValid(slots) && Kinds(slots)
      requires repaired || TidyGuard(slots, classCount)
      modifies this
      ensures Valid() && |Groups(old(slots), classCount, repaired)| <= |old(slots)|
      ensures slots == Tidied(old(slots), classCount, repaired)
    {
      ghost var before := slots;
      TidyOrdered(before, classCount, repaired);
      TidyLimitsExactly(before, classCount);
      var tmp: seq<Item> := [];
      for c := 0 to classCount
        invariant slots == before && emptySlotCount == old(emptySlotCount)
        invariant tmp == Groups(slots, c, repaired)
      {
        var items := ItemsOfClass(c, repaired);
        tmp := tmp + items;
      }
      Clear();
      for i := 0 to |tmp|
        invariant |slots| == |before| && emptySlotCount == |slots| - i
        invariant forall k :: 0 <= k < |slots| ==> slots[k] == if k < i then tmp[k] else EMPTY
      {
        slots := slots[i := tmp[i]];
        OnPutIn();
      }
      assert slots == Tidied(before, classCount, repaired);
    }
  }
}
