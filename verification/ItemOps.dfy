/**
 The other operations on the slots, each as a function of the slots, and what every
 run of them keeps: good slots, the number of slots, and a ledger for each item type.
 */
module ItemOps {
  import opened Numbers
  import opened Items
  import opened ItemPiling

  datatype Done = Done(slots: seq<Item>, ok: bool)

  predicate Occupied(s: seq<Item>, i: int) {
    0 <= i < |s| && !IsEmpty(s[i])
  }

  /** A stack with `n` items fewer; an empty stack is a cleared slot. */
  function Less(x: Item, n: int): Item {
    if x.amount - n == 0 then EMPTY else x.(amount := x.amount - n)
  }

  /** Moving `count` items from slot `src` to slot `dest`. */
  function Move(s: seq<Item>, dest: int, src: int, count: int): (r: Done)
    ensures |r.slots| == |s|
  {
    if src == dest || !(0 <= src < |s|) || !(0 <= dest < |s|) || count == 0 then Done(s, false)
    else if IsEmpty(s[src]) || s[src].amount < count then Done(s, false)
    else if IsEmpty(s[dest]) then
      Done(s[dest := s[src].(amount := count)][src := Less(s[src], count)], true)
    else if s[dest].ty != s[src].ty || s[dest].amount + count > s[dest].limit then Done(s, false)
    else
      Done(s[dest := s[dest].(amount := s[dest].amount + count)][src := Less(s[src], count)], true)
  }

  /** Putting a whole stack at a given slot, onto an equal stack if it fits. */
  function PutAt(s: seq<Item>, i: nat, x: Item): (r: Done)
    requires i < |s|
    ensures |r.slots| == |s|
  {
    if IsEmpty(s[i]) then Done(s[i := x], true)
    else if s[i].ty == x.ty && s[i].limit >= s[i].amount + x.amount then
      Done(s[i := s[i].(amount := s[i].amount + x.amount)], true)
    else Done(s, false)
  }

  /** The first empty slot from `start` on; |s| when there is none. */
  function EmptyFrom(s: seq<Item>, start: int): (e: nat)
    ensures e <= |s| && (e < |s| ==> 0 <= start <= e && IsEmpty(s[e]))
    ensures forall k :: 0 <= start <= k < e ==> !IsEmpty(s[k])
  {
    if 0 <= start <= |s| then FirstEmptyFrom(s, start) else |s|
  }

  /** Putting a whole stack into the first empty slot from `start` on. */
  function PutInEmpty(s: seq<Item>, start: int, x: Item): (r: Done)
    ensures |r.slots| == |s|
  {
    var e := EmptyFrom(s, start);
    if e == |s| then Done(s, false) else Done(s[e := x], true)
  }

  function Dec(s: seq<Item>, i: int, count: int): (r: seq<Item>)
    ensures |r| == |s|
  {
    if !Occupied(s, i) then s
    else if s[i].amount <= count then s[i := EMPTY]
    else s[i := s[i].(amount := s[i].amount - count)]
  }

  function Inc(s: seq<Item>, i: int, count: int): (r: seq<Item>)
    ensures |r| == |s|
  {
    if !Occupied(s, i) || s[i].amount >= s[i].limit then s
    else s[i := s[i].(amount := s[i].amount + Min(count, s[i].limit - s[i].amount))]
  }

  function Remove(s: seq<Item>, i: int): (r: seq<Item>)
    ensures |r| == |s|
  {
    if Occupied(s, i) then s[i := EMPTY] else s
  }

  function Sell(s: seq<Item>, i: int, count: int): (r: Done)
    ensures |r.slots| == |s|
  {
    if !Occupied(s, i) || s[i].amount < count || !s[i].sellable then Done(s, false)
    else Done(s[i := Less(s[i], count)], true)
  }

  function Swap(s: seq<Item>, i: int, j: int): (r: Done)
    ensures |r.slots| == |s|
  {
    if i == j || !(0 <= i < |s|) || !(0 <= j < |s|) then Done(s, false)
    else Done(s[i := s[j]][j := s[i]], true)
  }

  function Cleared(n: nat): (r: seq<Item>)
    ensures |r| == n
  {
    seq(n, _ => EMPTY)
  }

  datatype Op =
    | PushOp(x: Item)
    | PutAtOp(at: nat, x: Item)
    | PutInEmptyOp(start: int, x: Item)
    | MoveOp(dest: int, src: int, count: int)
    | DecOp(i: int, count: int)
    | IncOp(i: int, count: int)
    | RemoveOp(i: int)
    | SellOp(i: int, count: int)
    | SwapOp(i: int, j: int)
    | ClearOp

  /** What the source demands of the arguments. */
  ghost predicate Legal(n: nat, op: Op) {
    match op
    case PushOp(x) => Offer(x) && x.amount <= x.limit
    case PutAtOp(i, x) => i < n && Offer(x) && x.amount <= x.limit
    case PutInEmptyOp(_, x) => Offer(x) && x.amount <= x.limit
    case MoveOp(_, _, count) => count >= 0
    case DecOp(_, count) => count >= 0
    case IncOp(_, count) => count >= 0
    case SellOp(_, count) => count >= 0
    case _ => true
  }

  function Do(s: seq<Item>, op: Op): (r: seq<Item>)
    ensures |r| == |s|
  {
    match op
    case PushOp(x) => Push(s, x).slots
    case PutAtOp(i, x) => if i < |s| then PutAt(s, i, x).slots else s
    case PutInEmptyOp(start, x) => PutInEmpty(s, start, x).slots
    case MoveOp(dest, src, count) => Move(s, dest, src, count).slots
    case DecOp(i, count) => Dec(s, i, count)
    case IncOp(i, count) => Inc(s, i, count)
    case RemoveOp(i) => Remove(s, i)
    case SellOp(i, count) => Sell(s, i, count).slots
    case SwapOp(i, j) => Swap(s, i, j).slots
    case ClearOp => Cleared(|s|)
  }

  /** The entry an operation makes in the ledger of type `ty`, from what it reports. */
  function Booked(s: seq<Item>, op: Op, ty: int): int {
    match op
    case PushOp(x) => if x.ty == ty then x.amount - Push(s, x).left else 0
    case PutAtOp(i, x) => if i < |s| && PutAt(s, i, x).ok then Amount(x, ty) else 0
    case PutInEmptyOp(start, x) => if PutInEmpty(s, start, x).ok then Amount(x, ty) else 0
    case MoveOp(_, _, _) => 0
    case DecOp(i, count) => if Occupied(s, i) && s[i].ty == ty then -Min(count, s[i].amount) else 0
    case IncOp(i, count) => if Occupied(s, i) && s[i].ty == ty then Min(count, s[i].limit - s[i].amount) else 0
    case RemoveOp(i) => if Occupied(s, i) then -Amount(s[i], ty) else 0
    case SellOp(i, count) => if Occupied(s, i) && s[i].ty == ty && Sell(s, i, count).ok then -count else 0
    case SwapOp(_, _) => 0
    case ClearOp => -Count(s, ty)
  }

  /** Two different slots changed. */
  lemma ChangedTwo(s: seq<Item>, i: nat, x: Item, j: nat, y: Item, ty: int)
    requires i < |s| && j < |s| && i != j
    ensures var t := s[i := x][j := y];
            && Count(t, ty) == Count(s, ty) - Amount(s[i], ty) + Amount(x, ty) - Amount(s[j], ty) + Amount(y, ty)
            && FreeSlots(t) == FreeSlots(s) - Free(s[i]) + Free(x) - Free(s[j]) + Free(y)
  {
    Changed(s, i, x, ty);
    Changed(s[i := x], j, y, ty);
  }

  /** Moving items changes no type's total. */
  lemma MoveKeeps(s: seq<Item>, dest: int, src: int, count: int, ty: int)
    requires AllGood(s) && count >= 0
    ensures AllGood(Move(s, dest, src, count).slots)
    ensures Count(Move(s, dest, src, count).slots, ty) == Count(s, ty)
  {
    if Move(s, dest, src, count).ok {
      assert Good(s[src]) && Good(s[dest]);
      var x := if IsEmpty(s[dest]) then s[src].(amount := count)
               else s[dest].(amount := s[dest].amount + count);
      ChangedTwo(s, dest, x, src, Less(s[src], count), ty);
    }
  }

  lemma {:induction false} ClearedCount(n: nat, m: nat, ty: int)
    requires m <= n
    ensures CountTo(Cleared(n), ty, m) == 0 && FreeTo(Cleared(n), m) == m
  {
    if m > 0 {
      ClearedCount(n, m - 1, ty);
    }
  }

  lemma PutKeeps(s: seq<Item>, op: Op, ty: int)
    requires AllGood(s) && Legal(|s|, op) && (op.PutAtOp? || op.PutInEmptyOp?)
    ensures AllGood(Do(s, op)) && Count(Do(s, op), ty) == Count(s, ty) + Booked(s, op, ty)
  {
    if op.PutAtOp? {
      var was := s[op.at];
      assert Good(was);
      Changed(s, op.at, if IsEmpty(was) then op.x else was.(amount := was.amount + op.x.amount), ty);
    } else {
      var e := EmptyFrom(s, op.start);
      if e < |s| {
        Changed(s, e, op.x, ty);
      }
    }
  }

  lemma TakeKeeps(s: seq<Item>, op: Op, ty: int)
    requires AllGood(s) && Legal(|s|, op) && (op.DecOp? || op.IncOp? || op.RemoveOp? || op.SellOp?)
    ensures AllGood(Do(s, op)) && Count(Do(s, op), ty) == Count(s, ty) + Booked(s, op, ty)
  {
    if Occupied(s, op.i) {
      assert Good(s[op.i]);
      var t := Do(s, op);
      assert t == s[op.i := t[op.i]];
      Changed(s, op.i, t[op.i], ty);
    }
  }

  /** Every operation keeps the slots good and books what it does. */
  lemma DoKeeps(s: seq<Item>, op: Op, ty: int)
    requires AllGood(s) && Legal(|s|, op)
    ensures AllGood(Do(s, op))
    ensures Count(Do(s, op), ty) == Count(s, ty) + Booked(s, op, ty)
  {
    match op
    case PushOp(x) =>
      PushGoodExactly(s, x);
      PushConserves(s, x, ty);
    case PutAtOp(_, _) => PutKeeps(s, op, ty);
    case PutInEmptyOp(_, _) => PutKeeps(s, op, ty);
    case MoveOp(dest, src, count) => MoveKeeps(s, dest, src, count, ty);
    case SwapOp(i, j) =>
      if Swap(s, i, j).ok {
        ChangedTwo(s, i, s[j], j, s[i], ty);
      }
    case ClearOp => ClearedCount(|s|, |s|, ty);
    case _ => TakeKeeps(s, op, ty);
  }

  function DoAll(s: seq<Item>, ops: seq<Op>): (r: seq<Item>)
    ensures |r| == |s|
    decreases |ops|
  {
    if ops == [] then s else DoAll(Do(s, ops[0]), ops[1..])
  }

  function Ledger(s: seq<Item>, ops: seq<Op>, ty: int): int
    decreases |ops|
  {
    if ops == [] then 0 else Booked(s, ops[0], ty) + Ledger(Do(s, ops[0]), ops[1..], ty)
  }

  /**
   Over every run: each slot is cleared or holds between one item and its pile limit,
   and the stored count of every type is the old count plus the run's ledger.
   */
  lemma {:induction false} RunKeeps(s: seq<Item>, ops: seq<Op>, ty: int)
    requires AllGood(s) && forall k :: 0 <= k < |ops| ==> Legal(|s|, ops[k])
    ensures AllGood(DoAll(s, ops))
    ensures Count(DoAll(s, ops), ty) == Count(s, ty) + Ledger(s, ops, ty)
    ensures 0 <= Count(DoAll(s, ops), ty)
    decreases |ops|
  {
    if ops == [] {
      CountMonotone(s, ty, 0, |s|);
    } else {
      DoKeeps(s, ops[0], ty);
      RunKeeps(Do(s, ops[0]), ops[1..], ty);
    }
  }

  /** Moving all of it there and back again changes nothing. */
  lemma MoveBack(s: seq<Item>, dest: int, src: int, count: int)
    requires AllGood(s) && Move(s, dest, src, count).ok && count > 0
    requires IsEmpty(s[dest]) || Less(s[src], count) != EMPTY
    ensures Move(Move(s, dest, src, count).slots, src, dest, count).ok
    ensures Move(Move(s, dest, src, count).slots, src, dest, count).slots == s
  {
    assert Good(s[src]) && Good(s[dest]);
  }
}
