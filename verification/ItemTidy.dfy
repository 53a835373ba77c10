/**
 Tidying: stacks are grouped by class, merged with stacks of their type and kept in
 order inside each group. `repaired` selects how much a partly absorbed stack gives:
 the room of the receiving stack, as intended, or what the code computes, which is
 the limit less the amount of the stack being inserted.
 */
module ItemTidy {
  import opened Sequences
  import opened Items
  import opened ItemPiling

  const CLASS_COUNT := 10

  datatype Merge = Merge(list: seq<Item>, left: int, absorbed: bool)

  predicate Partial(x: Item) {
    x.amount < x.limit
  }

  /** What stack `x` is given when it cannot take all that is left of `it`. */
  function Given(x: Item, it: Item, repaired: bool): int {
    if repaired then x.limit - x.amount else x.limit - it.amount
  }

  /** The merging loop over the stacks from `i` on. */
  function MergeFrom(list: seq<Item>, it: Item, left: int, i: nat, repaired: bool): (r: Merge)
    requires i <= |list|
    ensures |r.list| == |list|
    decreases |list| - i
  {
    if i == |list| then Merge(list, left, false)
    else if list[i].ty == it.ty && Partial(list[i]) then
      if left + list[i].amount > list[i].limit then
        var g := Given(list[i], it, repaired);
        MergeFrom(list[i := list[i].(amount := list[i].amount + g)], it, left - g, i + 1, repaired)
      else Merge(list[i := list[i].(amount := list[i].amount + left)], left, true)
    else MergeFrom(list, it, left, i + 1, repaired)
  }

  /** The intended merge is piling: what it gives to which stack, and what it leaves. */
  lemma {:induction false} MergeIsPiling(list: seq<Item>, it: Item, left: int, i: nat, last: int)
    requires i <= |list| && left > 0 && !IsEmpty(it)
    ensures var m, p := MergeFrom(list, it, left, i, true), PileFrom(list, it.ty, left, i, last);
            m.list == p.slots && (m.absorbed <==> p.left <= 0) && (!m.absorbed ==> m.left == p.left)
    decreases |list| - i
  {
    if i < |list| {
      if !Takes(list[i], it.ty) {
        MergeIsPiling(list, it, left, i + 1, last);
      } else if left + list[i].amount > list[i].limit {
        MergeIsPiling(Topped(list, left, i), it, left - Taken(list, left, i), i + 1, i);
      }
    }
  }

  /** `x` may stay in front of `it`: lower type, or the same type and no lower rank. */
  predicate Before(x: Item, it: Item) {
    x.ty < it.ty || (x.ty == it.ty && x.rank >= it.rank)
  }

  function PlaceFrom(list: seq<Item>, it: Item, i: nat): (p: nat)
    requires i <= |list|
    ensures i <= p <= |list|
    ensures forall k :: i <= k < p ==> Before(list[k], it)
    ensures p < |list| ==> !Before(list[p], it)
    decreases |list| - i
  {
    if i == |list| || !Before(list[i], it) then i else PlaceFrom(list, it, i + 1)
  }

  function Insert(list: seq<Item>, it: Item, repaired: bool): (r: seq<Item>)
    ensures |list| <= |r| <= |list| + 1
  {
    var m := MergeFrom(list, it, it.amount, 0, repaired);
    if m.absorbed then m.list
    else Spliced(m.list, PlaceFrom(m.list, it, 0), it.(amount := m.left))
  }

  predicate InClass(x: Item, c: int) {
    !IsEmpty(x) && x.cls == c
  }

  /** The list of class `c` after the first `n` slots. */
  function Group(s: seq<Item>, c: int, n: nat, repaired: bool): seq<Item>
    requires n <= |s|
  {
    if n == 0 then []
    else
      var g := Group(s, c, n - 1, repaired);
      if InClass(s[n - 1], c) then Insert(g, s[n - 1], repaired) else g
  }

  /** The lists of the first `m` classes one after the other. */
  function Groups(s: seq<Item>, m: nat, repaired: bool): seq<Item> {
    if m == 0 then [] else Groups(s, m - 1, repaired) + Group(s, m - 1, |s|, repaired)
  }

  ghost predicate ClassesValid(s: seq<Item>) {
    forall i :: 0 <= i < |s| && !IsEmpty(s[i]) ==> 0 <= s[i].cls < CLASS_COUNT
  }

  // ---- Never more slots than before ----

  function InClassTo(s: seq<Item>, c: int, n: nat): nat
    requires n <= |s|
  {
    if n == 0 then 0 else InClassTo(s, c, n - 1) + if InClass(s[n - 1], c) then 1 else 0
  }

  function BelowTo(s: seq<Item>, m: int, n: nat): nat
    requires n <= |s|
  {
    if n == 0 then 0
    else BelowTo(s, m, n - 1) + if !IsEmpty(s[n - 1]) && 0 <= s[n - 1].cls < m then 1 else 0
  }

  lemma {:induction false} GroupLength(s: seq<Item>, c: int, n: nat, repaired: bool)
    requires n <= |s|
    ensures |Group(s, c, n, repaired)| <= InClassTo(s, c, n)
  {
    if n > 0 {
      GroupLength(s, c, n - 1, repaired);
    }
  }

  lemma {:induction false} BelowStep(s: seq<Item>, m: nat, n: nat)
    requires n <= |s|
    ensures BelowTo(s, m + 1, n) == BelowTo(s, m, n) + InClassTo(s, m, n)
  {
    if n > 0 {
      BelowStep(s, m, n - 1);
    }
  }

  lemma {:induction false} BelowNone(s: seq<Item>, n: nat)
    requires n <= |s|
    ensures BelowTo(s, 0, n) == 0
  {
    if n > 0 {
      BelowNone(s, n - 1);
    }
  }

  lemma {:induction false} BelowAll(s: seq<Item>, n: nat)
    requires n <= |s| && ClassesValid(s)
    ensures BelowTo(s, CLASS_COUNT, n) == n - FreeTo(s, n)
  {
    if n > 0 {
      BelowAll(s, n - 1);
    }
  }

  lemma {:induction false} GroupsLength(s: seq<Item>, m: nat, repaired: bool)
    ensures |Groups(s, m, repaired)| <= BelowTo(s, m, |s|)
  {
    if m == 0 {
      BelowNone(s, |s|);
    } else {
      GroupsLength(s, m - 1, repaired);
      GroupLength(s, m - 1, |s|, repaired);
      BelowStep(s, m - 1, |s|);
    }
  }

  /** The tidied stacks never need more slots than were occupied. */
  lemma TidyFits(s: seq<Item>, m: nat, repaired: bool)
    requires ClassesValid(s) && m == CLASS_COUNT
    ensures |Groups(s, m, repaired)| <= |s| - FreeSlots(s)
  {
    GroupsLength(s, m, repaired);
    BelowAll(s, |s|);
  }

  // ---- Conservation ----

  lemma {:induction false} CountJoin(a: seq<Item>, b: seq<Item>, n: nat, ty: int)
    requires n <= |b|
    ensures CountTo(a + b, ty, |a| + n) == Count(a, ty) + CountTo(b, ty, n)
  {
    if n == 0 {
      SumsAgree(a, a + b, |a|, ty);
    } else {
      CountJoin(a, b, n - 1, ty);
      assert (a + b)[|a| + n - 1] == b[n - 1];
    }
  }

  lemma JoinCount(a: seq<Item>, b: seq<Item>, ty: int)
    ensures Count(a + b, ty) == Count(a, ty) + Count(b, ty)
  {
    CountJoin(a, b, |b|, ty);
  }

  lemma SplicedCount(list: seq<Item>, p: nat, x: Item, ty: int)
    requires p <= |list|
    ensures Count(Spliced(list, p, x), ty) == Count(list, ty) + Amount(x, ty)
  {
    var a, b := list[..p], list[p..];
    assert list == a + b && Spliced(list, p, x) == a + ([x] + b);
    JoinCount(a, b, ty);
    JoinCount([x], b, ty);
    JoinCount(a, [x] + b, ty);
    assert CountTo([x], ty, 1) == CountTo([x], ty, 0) + Amount(x, ty);
  }

  ghost predicate NoneEmpty(list: seq<Item>) {
    forall i :: 0 <= i < |list| ==> !IsEmpty(list[i])
  }

  lemma {:induction false} MergeCount(list: seq<Item>, it: Item, left: int, i: nat, repaired: bool, ty: int)
    requires i <= |list| && NoneEmpty(list) && !IsEmpty(it)
    ensures var m := MergeFrom(list, it, left, i, repaired);
            && NoneEmpty(m.list)
            && Count(m.list, ty) == Count(list, ty) +
               (if ty != it.ty then 0 else if m.absorbed then left else left - m.left)
    decreases |list| - i
  {
    if i < |list| {
      if list[i].ty == it.ty && Partial(list[i]) {
        var g := if left + list[i].amount > list[i].limit then Given(list[i], it, repaired) else left;
        Changed(list, i, list[i].(amount := list[i].amount + g), ty);
        if left + list[i].amount > list[i].limit {
          MergeCount(list[i := list[i].(amount := list[i].amount + g)], it, left - g, i + 1, repaired, ty);
        }
      } else {
        MergeCount(list, it, left, i + 1, repaired, ty);
      }
    }
  }

  lemma InsertCount(list: seq<Item>, it: Item, repaired: bool, ty: int)
    requires NoneEmpty(list) && !IsEmpty(it)
    ensures NoneEmpty(Insert(list, it, repaired))
    ensures Count(Insert(list, it, repaired), ty) == Count(list, ty) + Amount(it, ty)
  {
    var m := MergeFrom(list, it, it.amount, 0, repaired);
    MergeCount(list, it, it.amount, 0, repaired, ty);
    if !m.absorbed {
      SplicedCount(m.list, PlaceFrom(m.list, it, 0), it.(amount := m.left), ty);
    }
  }

  function ClassCountTo(s: seq<Item>, ty: int, c: int, n: nat): int
    requires n <= |s|
  {
    if n == 0 then 0 else ClassCountTo(s, ty, c, n - 1) + if InClass(s[n - 1], c) then Amount(s[n - 1], ty) else 0
  }

  function BelowCountTo(s: seq<Item>, ty: int, m: int, n: nat): int
    requires n <= |s|
  {
    if n == 0 then 0
    else BelowCountTo(s, ty, m, n - 1) + if 0 <= s[n - 1].cls < m then Amount(s[n - 1], ty) else 0
  }

  lemma {:induction false} GroupCount(s: seq<Item>, c: int, n: nat, repaired: bool, ty: int)
    requires n <= |s|
    ensures NoneEmpty(Group(s, c, n, repaired))
    ensures Count(Group(s, c, n, repaired), ty) == ClassCountTo(s, ty, c, n)
  {
    if n > 0 {
      GroupCount(s, c, n - 1, repaired, ty);
      if InClass(s[n - 1], c) {
        InsertCount(Group(s, c, n - 1, repaired), s[n - 1], repaired, ty);
      }
    }
  }

  lemma {:induction false} BelowCountStep(s: seq<Item>, ty: int, m: nat, n: nat)
    requires n <= |s|
    ensures BelowCountTo(s, ty, m + 1, n) == BelowCountTo(s, ty, m, n) + ClassCountTo(s, ty, m, n)
    ensures BelowCountTo(s, ty, 0, n) == 0
  {
    if n > 0 {
      BelowCountStep(s, ty, m, n - 1);
    }
  }

  lemma {:induction false} BelowCountAll(s: seq<Item>, ty: int, n: nat)
    requires n <= |s| && ClassesValid(s)
    ensures BelowCountTo(s, ty, CLASS_COUNT, n) == CountTo(s, ty, n)
  {
    if n > 0 {
      BelowCountAll(s, ty, n - 1);
    }
  }

  lemma {:induction false} GroupsCount(s: seq<Item>, m: nat, repaired: bool, ty: int)
    ensures NoneEmpty(Groups(s, m, repaired))
    ensures Count(Groups(s, m, repaired), ty) == BelowCountTo(s, ty, m, |s|)
  {
    if m == 0 {
      BelowCountStep(s, ty, 0, |s|);
    } else {
      var c := m - 1;
      var a, b := Groups(s, c, repaired), Group(s, c, |s|, repaired);
      assert NoneEmpty(a) && Count(a, ty) == BelowCountTo(s, ty, c, |s|) by {
        GroupsCount(s, c, repaired, ty);
      }
      assert NoneEmpty(b) && Count(b, ty) == ClassCountTo(s, ty, c, |s|) by {
        GroupCount(s, c, |s|, repaired, ty);
      }
      BelowCountStep(s, ty, c, |s|);
      JoinCount(a, b, ty);
    }
  }

  /** The bag after tidying: the stacks of all classes, then cleared slots. */
  function Tidied(s: seq<Item>, m: nat, repaired: bool): (t: seq<Item>)
    requires |Groups(s, m, repaired)| <= |s|
    ensures |t| == |s|
  {
    var g := Groups(s, m, repaired);
    g + seq(|s| - |g|, _ => EMPTY)
  }

  lemma {:induction false} EmptiesCountNothing(s: seq<Item>, n: nat, ty: int)
    requires n <= |s| && forall i :: 0 <= i < n ==> s[i] == EMPTY
    ensures CountTo(s, ty, n) == 0 && FreeTo(s, n) == n
  {
    if n > 0 {
      EmptiesCountNothing(s, n - 1, ty);
    }
  }

  /** Tidying preserves the total of every type, with either way of merging. */
  lemma TidyConserves(s: seq<Item>, m: nat, repaired: bool, ty: int)
    requires ClassesValid(s) && m == CLASS_COUNT
    ensures |Groups(s, m, repaired)| <= |s|
    ensures Count(Tidied(s, m, repaired), ty) == Count(s, ty)
  {
    TidyFits(s, m, repaired);
    var g := Groups(s, m, repaired);
    var rest := seq(|s| - |g|, _ => EMPTY);
    GroupsCount(s, m, repaired, ty);
    BelowCountAll(s, ty, |s|);
    CountJoin(g, rest, |rest|, ty);
    EmptiesCountNothing(rest, |rest|, ty);
  }

  // ---- Order ----

  /** Types ascending, and ranks descending within a type. */
  ghost predicate Ordered(list: seq<Item>) {
    forall i, j :: 0 <= i < j < |list| ==> Before(list[i], list[j])
  }

  ghost predicate AllInClass(list: seq<Item>, c: int) {
    forall i :: 0 <= i < |list| ==> InClass(list[i], c)
  }

  /** Merging changes amounts only. */
  lemma {:induction false} MergeKeepsKeys(list: seq<Item>, it: Item, left: int, i: nat, repaired: bool)
    requires i <= |list|
    ensures var m := MergeFrom(list, it, left, i, repaired);
            forall k :: 0 <= k < |list| ==> m.list[k] == list[k].(amount := m.list[k].amount)
    decreases |list| - i
  {
    if i < |list| {
      if list[i].ty == it.ty && Partial(list[i]) {
        if left + list[i].amount > list[i].limit {
          var g := Given(list[i], it, repaired);
          MergeKeepsKeys(list[i := list[i].(amount := list[i].amount + g)], it, left - g, i + 1, repaired);
        }
      } else {
        MergeKeepsKeys(list, it, left, i + 1, repaired);
      }
    }
  }

  lemma SplicedOrdered(list: seq<Item>, it: Item, x: Item)
    requires Ordered(list) && x.ty == it.ty && x.rank == it.rank
    ensures Ordered(Spliced(list, PlaceFrom(list, it, 0), x))
  {
    var p := PlaceFrom(list, it, 0);
    var t := Spliced(list, p, x);
    forall i, j | 0 <= i < j < |t| ensures Before(t[i], t[j]) {
      if i == p && p < j - 1 {
        assert Before(list[p], list[j - 1]);
      }
    }
  }

  lemma InsertOrdered(list: seq<Item>, it: Item, repaired: bool, c: int)
    requires Ordered(list) && AllInClass(list, c) && InClass(it, c)
    ensures Ordered(Insert(list, it, repaired)) && AllInClass(Insert(list, it, repaired), c)
  {
    var m := MergeFrom(list, it, it.amount, 0, repaired);
    MergeKeepsKeys(list, it, it.amount, 0, repaired);
    forall i, j | 0 <= i < j < |list| ensures Before(m.list[i], m.list[j]) {
      assert Before(list[i], list[j]);
    }
    assert AllInClass(m.list, c);
    if !m.absorbed {
      SplicedOrdered(m.list, it, it.(amount := m.left));
    }
  }

  lemma {:induction false} GroupOrdered(s: seq<Item>, c: int, n: nat, repaired: bool)
    requires n <= |s|
    ensures Ordered(Group(s, c, n, repaired)) && AllInClass(Group(s, c, n, repaired), c)
  {
    if n > 0 {
      GroupOrdered(s, c, n - 1, repaired);
      if InClass(s[n - 1], c) {
        InsertOrdered(Group(s, c, n - 1, repaired), s[n - 1], repaired, c);
      }
    }
  }

  /** Class ascending, then type ascending, then rank descending. */
  predicate Precedes(x: Item, y: Item) {
    x.cls < y.cls || (x.cls == y.cls && Before(x, y))
  }

  ghost predicate InOrder(g: seq<Item>, m: int) {
    && (forall i, j :: 0 <= i < j < |g| ==> Precedes(g[i], g[j]))
    && (forall i :: 0 <= i < |g| ==> !IsEmpty(g[i]) && 0 <= g[i].cls < m)
  }

  lemma {:induction false} GroupsOrdered(s: seq<Item>, m: nat, repaired: bool)
    ensures InOrder(Groups(s, m, repaired), m)
  {
    if m > 0 {
      GroupsOrdered(s, m - 1, repaired);
      GroupOrdered(s, m - 1, |s|, repaired);
    }
  }

  /**
   The occupied slots come first, and there are no more of them than before. They stand by
   class, within a class by type, and within a type by rank, the highest first.
   */
  lemma TidyOrdered(s: seq<Item>, m: nat, repaired: bool)
    requires ClassesValid(s) && m == CLASS_COUNT
    ensures |Groups(s, m, repaired)| <= |s| - FreeSlots(s)
    ensures var n, t := |Groups(s, m, repaired)|, Tidied(s, m, repaired);
            && (forall i :: 0 <= i < |t| ==> (IsEmpty(t[i]) <==> n <= i))
            && (forall i, j :: 0 <= i < j < n ==> t[i].cls <= t[j].cls)
            && (forall i, j :: 0 <= i < j < n && t[i].cls == t[j].cls ==> t[i].ty <= t[j].ty)
            && (forall i, j :: 0 <= i < j < n && t[i].cls == t[j].cls && t[i].ty == t[j].ty ==> t[i].rank >= t[j].rank)
            && FreeSlots(t) == |s| - n
  {
    TidyFits(s, m, repaired);
    GroupsOrdered(s, m, repaired);
    var g, t := Groups(s, m, repaired), Tidied(s, m, repaired);
    assert forall i :: 0 <= i < |g| ==> t[i] == g[i];
    forall i, j | 0 <= i < j < |g| ensures Precedes(t[i], t[j]) { assert Precedes(g[i], g[j]); }
    FreeFromHere(t, |g|, |t|);
  }

  lemma {:induction false} FreeFromHere(s: seq<Item>, p: nat, n: nat)
    requires p <= n <= |s| && forall i :: 0 <= i < n ==> (IsEmpty(s[i]) <==> p <= i)
    ensures FreeTo(s, n) == n - p
  {
    if n > 0 {
      if p < n {
        FreeFromHere(s, p, n - 1);
      } else {
        FreeFromHere(s, p - 1, n - 1);
      }
    }
  }
}
