/**
 Stack-first insertion: what TryPile, Push and HasSlot compute, and what they promise
 about one another.
 */
module ItemPiling {
  import opened Numbers
  import opened Items

  /** The slots after piling, what is left of the offer, the last slot that took some. */
  datatype Pile = Pile(slots: seq<Item>, left: int, last: int)

  predicate Takes(x: Item, ty: int) {
    !IsEmpty(x) && x.ty == ty && x.amount < x.limit
  }

  /** How much of `left` the stack in slot `i` takes. */
  function Taken(s: seq<Item>, left: int, i: nat): int
    requires i < |s|
  {
    Min(left, s[i].limit - s[i].amount)
  }

  function Topped(s: seq<Item>, left: int, i: nat): (t: seq<Item>)
    requires i < |s|
    ensures |t| == |s|
  {
    s[i := s[i].(amount := s[i].amount + Taken(s, left, i))]
  }

  /** The piling loop from slot `i` on. */
  function PileFrom(s: seq<Item>, ty: int, left: int, i: nat, last: int): (r: Pile)
    requires i <= |s|
    ensures |r.slots| == |s|
    decreases |s| - i
  {
    if i == |s| then Pile(s, left, last)
    else if !Takes(s[i], ty) then PileFrom(s, ty, left, i + 1, last)
    else if left - Taken(s, left, i) <= 0 then Pile(Topped(s, left, i), left - Taken(s, left, i), i)
    else PileFrom(Topped(s, left, i), ty, left - Taken(s, left, i), i + 1, i)
  }

  function FirstEmptyFrom(s: seq<Item>, i: nat): (e: nat)
    requires i <= |s|
    ensures i <= e <= |s|
    ensures forall k :: i <= k < e ==> !IsEmpty(s[k])
    ensures e < |s| ==> IsEmpty(s[e])
    decreases |s| - i
  {
    if i == |s| || IsEmpty(s[i]) then i else FirstEmptyFrom(s, i + 1)
  }

  /** The first empty slot; |s| when there is none. */
  function FirstEmpty(s: seq<Item>): (e: nat)
    ensures e <= |s|
    ensures forall k :: 0 <= k < e ==> !IsEmpty(s[k])
    ensures e < |s| ==> IsEmpty(s[e])
  {
    FirstEmptyFrom(s, 0)
  }

  datatype Pushed = Pushed(slots: seq<Item>, left: int, last: int, all: bool)

  /** Push of a fresh item; `x.amount` is the offer. */
  function Push(s: seq<Item>, x: Item): (r: Pushed)
    ensures |r.slots| == |s|
  {
    if FreeSlots(s) == 0 && x.limit == 1 then Pushed(s, x.amount, -1, false)
    else
      var p := if x.limit > 1 then PileFrom(s, x.ty, x.amount, 0, -1) else Pile(s, x.amount, -1);
      if p.left == 0 then Pushed(p.slots, 0, p.last, true)
      else
        var e := FirstEmpty(p.slots);
        if e == |s| then Pushed(p.slots, p.left, p.last, false)
        else Pushed(p.slots[e := x.(amount := p.left)], 0, e, true)
  }

  /** An offer as the source demands it: a real type, at least one item, a real limit. */
  predicate Offer(x: Item) {
    !IsEmpty(x) && x.amount >= 1 && x.limit >= 1
  }

  /** Every stack of this type has the limit that the type's template gives. */
  ghost predicate SameKind(s: seq<Item>, ty: int, limit: int) {
    forall i :: 0 <= i < |s| && !IsEmpty(s[i]) && s[i].ty == ty ==> s[i].limit == limit
  }

  lemma ToppedSums(s: seq<Item>, ty: int, left: int, i: nat, other: int)
    requires i < |s| && Takes(s[i], ty)
    ensures var t, d := Topped(s, left, i), Taken(s, left, i);
            && Count(t, other) == Count(s, other) + (if other == ty then d else 0)
            && RoomFor(t, ty) == RoomFor(s, ty) - d
            && FreeSlots(t) == FreeSlots(s)
  {
    var x := s[i].(amount := s[i].amount + Taken(s, left, i));
    Changed(s, i, x, other);
    Changed(s, i, x, ty);
  }

  /**
   Piling conserves every type, keeps slots good, and takes exactly as much as the
   stacks of the type from slot `i` on have room for.
   */
  lemma {:induction false} PileFromKeeps(s: seq<Item>, ty: int, left: int, i: nat, last: int, other: int)
    requires AllGood(s) && left > 0 && i <= |s|
    ensures var r := PileFrom(s, ty, left, i, last);
            && AllGood(r.slots) && 0 <= r.left <= left
            && Count(r.slots, other) == Count(s, other) + (if other == ty then left - r.left else 0)
            && RoomFor(r.slots, ty) == RoomFor(s, ty) - (left - r.left)
            && FreeSlots(r.slots) == FreeSlots(s)
    decreases |s| - i
  {
    if i < |s| {
      if !Takes(s[i], ty) {
        PileFromKeeps(s, ty, left, i + 1, last, other);
      } else {
        var t, d := Topped(s, left, i), Taken(s, left, i);
        assert Good(s[i]);
        ToppedSums(s, ty, left, i, other);
        if left - d > 0 {
          PileFromKeeps(t, ty, left - d, i + 1, i, other);
        }
      }
    }
  }

  ghost predicate NoneTakes(s: seq<Item>, ty: int) {
    forall k :: 0 <= k < |s| ==> !Takes(s[k], ty)
  }

  /** If something is left over, no stack of the type has room any more. */
  lemma {:induction false} PileFromFills(s: seq<Item>, ty: int, left: int, i: nat, last: int)
    requires AllGood(s) && left > 0 && i <= |s|
    requires forall k :: 0 <= k < i ==> !Takes(s[k], ty)
    ensures var r := PileFrom(s, ty, left, i, last);
            r.left > 0 ==> NoneTakes(r.slots, ty)
    decreases |s| - i
  {
    if i < |s| {
      if !Takes(s[i], ty) {
        PileFromFills(s, ty, left, i + 1, last);
      } else {
        var t, d := Topped(s, left, i), Taken(s, left, i);
        assert Good(s[i]);
        if left - d > 0 {
          PileFromFills(t, ty, left - d, i + 1, i);
        }
      }
    }
  }

  /** Piling touches only amounts, and only of stacks of the type. */
  lemma {:induction false} PileFromLeaves(s: seq<Item>, ty: int, left: int, i: nat, last: int)
    requires i <= |s|
    ensures var r := PileFrom(s, ty, left, i, last);
            forall k :: 0 <= k < |s| ==>
              r.slots[k] == (if Takes(s[k], ty) then s[k].(amount := r.slots[k].amount) else s[k])
    decreases |s| - i
  {
    if i < |s| {
      if !Takes(s[i], ty) {
        PileFromLeaves(s, ty, left, i + 1, last);
      } else if left - Taken(s, left, i) > 0 {
        PileFromLeaves(Topped(s, left, i), ty, left - Taken(s, left, i), i + 1, i);
      }
    }
  }

  lemma {:induction false} NoRoomLeft(s: seq<Item>, ty: int, n: nat)
    requires n <= |s| && AllGood(s) && forall k :: 0 <= k < n ==> !Takes(s[k], ty)
    ensures RoomTo(s, ty, n) == 0
  {
    if n > 0 {
      assert Good(s[n - 1]);
      NoRoomLeft(s, ty, n - 1);
    }
  }

  /** What piling leaves over is the part of the offer that exceeds the room. */
  lemma PiledExactly(s: seq<Item>, ty: int, offer: int)
    requires AllGood(s) && offer > 0
    ensures PileFrom(s, ty, offer, 0, -1).left ==
            if offer <= RoomFor(s, ty) then 0 else offer - RoomFor(s, ty)
  {
    var r := PileFrom(s, ty, offer, 0, -1);
    PileFromKeeps(s, ty, offer, 0, -1, ty);
    PileFromFills(s, ty, offer, 0, -1);
    RoomMonotone(r.slots, ty, 0, |s|);
    if r.left > 0 {
      NoRoomLeft(r.slots, ty, |s|);
    }
  }

  predicate HasSlot(s: seq<Item>, ty: int, count: int) {
    FreeSlots(s) > 0 || count <= RoomFor(s, ty)
  }

  lemma EmptyExactly(s: seq<Item>)
    ensures FirstEmpty(s) == |s| <==> FreeSlots(s) == 0
  {
    FreeNone(s, |s|);
  }

  /** HasSlot predicts Push exactly. */
  lemma HasSlotExactly(s: seq<Item>, x: Item)
    requires AllGood(s) && Offer(x) && SameKind(s, x.ty, x.limit)
    ensures HasSlot(s, x.ty, x.amount) <==> Push(s, x).all
  {
    EmptyExactly(s);
    if x.limit > 1 {
      PiledExactly(s, x.ty, x.amount);
      PileFromKeeps(s, x.ty, x.amount, 0, -1, x.ty);
      EmptyExactly(PileFrom(s, x.ty, x.amount, 0, -1).slots);
    } else {
      SingleHasNoRoom(s, x.ty, |s|);
    }
  }

  lemma {:induction false} SingleHasNoRoom(s: seq<Item>, ty: int, n: nat)
    requires n <= |s| && AllGood(s) && SameKind(s, ty, 1)
    ensures RoomTo(s, ty, n) == 0
  {
    if n > 0 {
      assert Good(s[n - 1]);
      SingleHasNoRoom(s, ty, n - 1);
    }
  }

  /** Nothing is lost or made: stored plus left over is what was stored plus the offer. */
  lemma PushConserves(s: seq<Item>, x: Item, ty: int)
    requires AllGood(s) && Offer(x)
    ensures var r := Push(s, x);
            && Count(r.slots, ty) == Count(s, ty) + (if ty == x.ty then x.amount - r.left else 0)
            && 0 <= r.left <= x.amount && (r.all <==> r.left == 0)
  {
    if !(FreeSlots(s) == 0 && x.limit == 1) {
      var p := if x.limit > 1 then PileFrom(s, x.ty, x.amount, 0, -1) else Pile(s, x.amount, -1);
      if x.limit > 1 {
        PileFromKeeps(s, x.ty, x.amount, 0, -1, ty);
      }
      var e := FirstEmpty(p.slots);
      if p.left != 0 && e < |s| {
        Changed(p.slots, e, x.(amount := p.left), ty);
      }
    }
  }

  /** What Push puts into a fresh slot: 0 when the stacks take it all. */
  function Spill(s: seq<Item>, x: Item): int {
    if x.limit == 1 then x.amount else x.amount - RoomFor(s, x.ty)
  }

  /**
   Push keeps every slot good exactly when what spills into a fresh slot fits one
   stack, or there is no fresh slot. An offer of at most the pile limit always does.
   */
  lemma PushGoodExactly(s: seq<Item>, x: Item)
    requires AllGood(s) && Offer(x)
    ensures AllGood(Push(s, x).slots) <==> Spill(s, x) <= x.limit || FreeSlots(s) == 0
    ensures x.amount <= x.limit ==> AllGood(Push(s, x).slots)
  {
    EmptyExactly(s);
    RoomMonotone(s, x.ty, 0, |s|);
    if x.limit > 1 {
      PiledExactly(s, x.ty, x.amount);
      PileFromKeeps(s, x.ty, x.amount, 0, -1, x.ty);
      EmptyExactly(PileFrom(s, x.ty, x.amount, 0, -1).slots);
    }
    var r := Push(s, x);
    if r.all && FreeSlots(s) > 0 && Spill(s, x) > 0 {
      assert r.slots[r.last].amount == Spill(s, x);
    }
  }

  lemma {:induction false} EmptiesAgree(s: seq<Item>, t: seq<Item>, i: nat)
    requires |s| == |t| && i <= |s| && forall k :: 0 <= k < |s| ==> (IsEmpty(s[k]) <==> IsEmpty(t[k]))
    ensures FirstEmptyFrom(s, i) == FirstEmptyFrom(t, i)
    decreases |s| - i
  {
    if i < |s| && !IsEmpty(s[i]) {
      EmptiesAgree(s, t, i + 1);
    }
  }

  /**
   A fresh slot is used only when every stack of the type is full; it is the first
   empty one, it holds what the stacks did not take, and the other empty slots stay.
   */
  lemma PushStacksFirst(s: seq<Item>, x: Item)
    requires AllGood(s) && Offer(x) && x.limit > 1
    ensures var r := Push(s, x);
            FreeSlots(r.slots) < FreeSlots(s) ==>
              && (forall i :: 0 <= i < |s| && !IsEmpty(s[i]) && s[i].ty == x.ty ==>
                    r.slots[i].amount == r.slots[i].limit)
              && r.last == FirstEmpty(s) < |s|
              && r.slots[r.last] == x.(amount := x.amount - RoomFor(s, x.ty))
              && forall i :: 0 <= i < |s| && i != r.last ==> (IsEmpty(r.slots[i]) <==> IsEmpty(s[i]))
  {
    PileFromFills(s, x.ty, x.amount, 0, -1);
    PileFromKeeps(s, x.ty, x.amount, 0, -1, x.ty);
    PileFromLeaves(s, x.ty, x.amount, 0, -1);
    PiledExactly(s, x.ty, x.amount);
    var p := PileFrom(s, x.ty, x.amount, 0, -1);
    EmptiesAgree(p.slots, s, 0);
    assert forall i :: 0 <= i < |s| ==> Good(p.slots[i]);
  }

  // ---- Slot by slot ----

  /** What slot `k` is given of an offer that is piled from slot `i` on. */
  function Quota(s: seq<Item>, ty: int, offer: int, i: nat, k: nat): int
    requires i <= k < |s|
  {
    Min(Room(s[k], ty), Max(0, offer - (RoomTo(s, ty, k) - RoomTo(s, ty, i))))
  }

  lemma ToppedGiven(s: seq<Item>, ty: int, left: int, i: nat, k: nat)
    requires AllGood(s) && i < k < |s| && Takes(s[i], ty) && left > s[i].limit - s[i].amount
    ensures var t := Topped(s, left, i);
            AllGood(t) && t[k] == s[k] && Quota(t, ty, left - Taken(s, left, i), i + 1, k) == Quota(s, ty, left, i, k)
  {
    assert Good(s[i]);
    var x := s[i].(amount := s[i].amount + Taken(s, left, i));
    SlotChanged(s, i, x, k, ty);
    SlotChanged(s, i, x, i + 1, ty);
  }

  lemma NoneGiven(s: seq<Item>, ty: int, left: int, i: nat, k: nat)
    requires AllGood(s) && i < k < |s| && Takes(s[i], ty) && left <= s[i].limit - s[i].amount
    ensures Quota(s, ty, left, i, k) == 0
  {
    assert Good(s[k]);
    RoomMonotone(s, ty, i + 1, k);
  }

  /** The slots before `i` are left alone; from there on each is filled before the next. */
  lemma {:induction false} PileSlot(s: seq<Item>, ty: int, left: int, i: nat, last: int, k: nat)
    requires AllGood(s) && left > 0 && i <= |s| && k < |s|
    ensures PileFrom(s, ty, left, i, last).slots[k] ==
            if k < i then s[k] else s[k].(amount := s[k].amount + Quota(s, ty, left, i, k))
    decreases |s| - i
  {
    if i < |s| {
      assert Good(s[i]) && Good(s[k]);
      var d := Taken(s, left, i);
      if !Takes(s[i], ty) {
        PileSlot(s, ty, left, i + 1, last, k);
      } else if left - d > 0 {
        if i < k { ToppedGiven(s, ty, left, i, k); }
        assert AllGood(Topped(s, left, i));
        PileSlot(Topped(s, left, i), ty, left - d, i + 1, i, k);
      } else if i < k {
        NoneGiven(s, ty, left, i, k);
      }
    }
  }

  /** The slot reported is the last one that was given something. */
  lemma {:induction false} PileLast(s: seq<Item>, ty: int, left: int, i: nat, last: int)
    requires i <= |s| && last < i && left > 0
    ensures var r := PileFrom(s, ty, left, i, last);
            && (r.last == last || (i <= r.last < |s| && r.slots[r.last].amount > s[r.last].amount))
            && forall k :: i <= k < |s| && r.last < k ==> r.slots[k] == s[k]
    decreases |s| - i
  {
    if i < |s| {
      var d := Taken(s, left, i);
      if !Takes(s[i], ty) {
        PileLast(s, ty, left, i + 1, last);
        PileFromBefore(s, ty, left, i + 1, last, i);
      } else if left - d > 0 {
        PileLast(Topped(s, left, i), ty, left - d, i + 1, i);
        PileFromBefore(Topped(s, left, i), ty, left - d, i + 1, i, i);
      }
    }
  }

  lemma {:induction false} PileFromBefore(s: seq<Item>, ty: int, left: int, i: nat, last: int, k: nat)
    requires k < i <= |s|
    ensures PileFrom(s, ty, left, i, last).slots[k] == s[k]
    decreases |s| - i
  {
    if i < |s| {
      if !Takes(s[i], ty) {
        PileFromBefore(s, ty, left, i + 1, last, k);
      } else if left - Taken(s, left, i) > 0 {
        PileFromBefore(Topped(s, left, i), ty, left - Taken(s, left, i), i + 1, i, k);
      }
    }
  }

  lemma PushStacks(s: seq<Item>, x: Item, k: nat)
    requires AllGood(s) && Offer(x) && x.limit > 1 && k < |s|
    ensures Push(s, x).slots[k] ==
            if k == FirstEmpty(s) && Spill(s, x) > 0 then x.(amount := Spill(s, x))
            else s[k].(amount := s[k].amount + Quota(s, x.ty, x.amount, 0, k))
    ensures Push(s, x).left == if FirstEmpty(s) == |s| then Max(0, Spill(s, x)) else 0
  {
    var p := PileFrom(s, x.ty, x.amount, 0, -1);
    PileSlot(s, x.ty, x.amount, 0, -1, k);
    PileFromLeaves(s, x.ty, x.amount, 0, -1);
    PiledExactly(s, x.ty, x.amount);
    EmptiesAgree(p.slots, s, 0);
  }

  /**
   Push slot by slot: in order, each stack of the type is given what it has room for of
   what the stacks before it left; what all of them leave goes into the first empty slot,
   or is left over if there is none. Items with pile limit 1 go there at once.
   */
  lemma PushSlotBySlot(s: seq<Item>, x: Item, k: nat)
    requires AllGood(s) && Offer(x) && k < |s|
    ensures var r, e := Push(s, x), FirstEmpty(s);
            var spill := if x.limit == 1 then x.amount else x.amount - RoomFor(s, x.ty);
            && r.slots[k] == (if k == e && spill > 0 then x.(amount := spill)
                              else if x.limit == 1 then s[k]
                              else s[k].(amount := s[k].amount +
                                         Min(Room(s[k], x.ty), Max(0, x.amount - RoomTo(s, x.ty, k)))))
            && r.left == (if e == |s| then Max(0, spill) else 0) && (r.all <==> r.left == 0)
  {
    EmptyExactly(s);
    PushConserves(s, x, x.ty);
    if x.limit > 1 {
      PushStacks(s, x, k);
    }
  }

  /** The slot reported is the fresh one if one was used, and otherwise the last that was given something. */
  lemma PushLast(s: seq<Item>, x: Item)
    requires AllGood(s) && Offer(x)
    ensures var r := Push(s, x);
            if FreeSlots(r.slots) < FreeSlots(s) then r.last == FirstEmpty(s)
            else (r.last == -1 || (0 <= r.last < |s| && r.slots[r.last].amount > s[r.last].amount))
                 && forall k :: 0 <= k < |s| && r.last < k ==> r.slots[k] == s[k]
  {
    EmptyExactly(s);
    var p := if x.limit > 1 then PileFrom(s, x.ty, x.amount, 0, -1) else Pile(s, x.amount, -1);
    if x.limit > 1 {
      PileLast(s, x.ty, x.amount, 0, -1);
      PileFromKeeps(s, x.ty, x.amount, 0, -1, x.ty);
      PileFromLeaves(s, x.ty, x.amount, 0, -1);
      EmptiesAgree(p.slots, s, 0);
    }
    var e := FirstEmpty(s);
    if p.left > 0 && e < |s| {
      Changed(p.slots, e, x.(amount := p.left), x.ty);
    }
  }
}
