/**
 Inventory slots as values: what a slot holds, how much of a type is stored, how many
 slots are free, and how single-slot updates change those sums.
 */
module Items {

  /** `rank` orders stacks of one type when the list is tidied; `cls` is the item class. */
  datatype Item = Item(ty: int, amount: int, limit: int, cls: int, rank: int, price: int, sellable: bool)

  const NO_TYPE := -1
  const EMPTY := Item(NO_TYPE, 0, 0, 0, -1, 0, true)

  predicate IsEmpty(x: Item) {
    x.ty == NO_TYPE
  }

  /** A cleared slot, or a stack of at least one item within its pile limit. */
  predicate Good(x: Item) {
    if IsEmpty(x) then x == EMPTY else 1 <= x.amount <= x.limit
  }

  ghost predicate AllGood(s: seq<Item>) {
    forall i :: 0 <= i < |s| ==> Good(s[i])
  }

  function Amount(x: Item, ty: int): int {
    if !IsEmpty(x) && x.ty == ty then x.amount else 0
  }

  function Room(x: Item, ty: int): int {
    if !IsEmpty(x) && x.ty == ty then x.limit - x.amount else 0
  }

  function Free(x: Item): nat {
    if IsEmpty(x) then 1 else 0
  }

  /** The number of items of a type in the first `n` slots. */
  function CountTo(s: seq<Item>, ty: int, n: nat): int
    requires n <= |s|
  {
    if n == 0 then 0 else CountTo(s, ty, n - 1) + Amount(s[n - 1], ty)
  }

  function RoomTo(s: seq<Item>, ty: int, n: nat): int
    requires n <= |s|
  {
    if n == 0 then 0 else RoomTo(s, ty, n - 1) + Room(s[n - 1], ty)
  }

  function FreeTo(s: seq<Item>, n: nat): nat
    requires n <= |s|
  {
    if n == 0 then 0 else FreeTo(s, n - 1) + Free(s[n - 1])
  }

  function Count(s: seq<Item>, ty: int): int {
    CountTo(s, ty, |s|)
  }

  function RoomFor(s: seq<Item>, ty: int): int {
    RoomTo(s, ty, |s|)
  }

  function FreeSlots(s: seq<Item>): nat {
    FreeTo(s, |s|)
  }

  lemma {:induction false} SumsAgree(s: seq<Item>, t: seq<Item>, n: nat, ty: int)
    requires n <= |s| && n <= |t| && forall i :: 0 <= i < n ==> s[i] == t[i]
    ensures CountTo(s, ty, n) == CountTo(t, ty, n)
    ensures RoomTo(s, ty, n) == RoomTo(t, ty, n)
    ensures FreeTo(s, n) == FreeTo(t, n)
  {
    if n > 0 {
      SumsAgree(s, t, n - 1, ty);
    }
  }

  /** Changing one slot changes each sum by the difference at that slot. */
  lemma {:induction false} SlotChanged(s: seq<Item>, i: nat, x: Item, n: nat, ty: int)
    requires i < n <= |s|
    ensures CountTo(s[i := x], ty, n) == CountTo(s, ty, n) - Amount(s[i], ty) + Amount(x, ty)
    ensures RoomTo(s[i := x], ty, n) == RoomTo(s, ty, n) - Room(s[i], ty) + Room(x, ty)
    ensures FreeTo(s[i := x], n) == FreeTo(s, n) - Free(s[i]) + Free(x)
  {
    if n == i + 1 {
      SumsAgree(s, s[i := x], i, ty);
    } else {
      SlotChanged(s, i, x, n - 1, ty);
    }
  }

  lemma Changed(s: seq<Item>, i: nat, x: Item, ty: int)
    requires i < |s|
    ensures Count(s[i := x], ty) == Count(s, ty) - Amount(s[i], ty) + Amount(x, ty)
    ensures RoomFor(s[i := x], ty) == RoomFor(s, ty) - Room(s[i], ty) + Room(x, ty)
    ensures FreeSlots(s[i := x]) == FreeSlots(s) - Free(s[i]) + Free(x)
  {
    SlotChanged(s, i, x, |s|, ty);
  }

  lemma GoodAt(s: seq<Item>, i: nat, x: Item)
    requires AllGood(s) && i < |s|
    ensures AllGood(s[i := x]) <==> Good(x)
  {
    assert s[i := x][i] == x;
  }

  lemma {:induction false} FreeNone(s: seq<Item>, n: nat)
    requires n <= |s|
    ensures FreeTo(s, n) == 0 <==> forall i :: 0 <= i < n ==> !IsEmpty(s[i])
    ensures FreeTo(s, n) <= n
  {
    if n > 0 {
      FreeNone(s, n - 1);
    }
  }

  lemma {:induction false} RoomMonotone(s: seq<Item>, ty: int, m: nat, n: nat)
    requires m <= n <= |s| && AllGood(s)
    ensures 0 <= RoomTo(s, ty, m) <= RoomTo(s, ty, n)
    decreases n
  {
    if n > 0 {
      assert Good(s[n - 1]);
      RoomMonotone(s, ty, if m == n then n - 1 else m, n - 1);
    }
  }

  lemma {:induction false} CountMonotone(s: seq<Item>, ty: int, m: nat, n: nat)
    requires m <= n <= |s| && AllGood(s)
    ensures 0 <= CountTo(s, ty, m) <= CountTo(s, ty, n)
    decreases n
  {
    if n > 0 {
      assert Good(s[n - 1]);
      CountMonotone(s, ty, if m == n then n - 1 else m, n - 1);
    }
  }
}
