/**
 Tidying with the intended merge uses as few slots as there can be: no bag with the same
 totals and the same limits occupies fewer.
 */
module TidyFewest {
  import opened Numbers
  import opened Sequences
  import opened Items
  import opened ItemPiling
  import opened ItemTidy
  import opened TidyLimits

  /** Every type is of one class, as its template says. */
  ghost predicate ClassByType(s: seq<Item>) {
    forall i, j :: 0 <= i < |s| && 0 <= j < |s| && !IsEmpty(s[i]) && !IsEmpty(s[j]) && s[i].ty == s[j].ty ==>
      s[i].cls == s[j].cls
  }

  /** The intended list of all classes has at most one stack of a type with room. */
  lemma {:induction false} GroupsCompact(s: seq<Item>, m: nat)
    requires AllGood(s) && Kinds(s) && ClassByType(s)
    ensures Compact(Groups(s, m, true)) && From(Groups(s, m, true), s)
  {
    if m > 0 {
      ghost var a, b := Groups(s, m - 1, true), Group(s, m - 1, |s|, true);
      GroupsCompact(s, m - 1);
      GroupCompact(s, m - 1, |s|);
      GroupFrom(s, m - 1, |s|, true);
      GroupsOrdered(s, m - 1, true);
      GroupOrdered(s, m - 1, |s|, true);
    }
  }

  // ---- Stacks of one type ----

  function StacksTo(s: seq<Item>, ty: int, n: nat): nat
    requires n <= |s|
  {
    if n == 0 then 0 else StacksTo(s, ty, n - 1) + if !IsEmpty(s[n - 1]) && s[n - 1].ty == ty then 1 else 0
  }

  /** Stacks within a limit hold no more than the limit times their number. */
  lemma {:induction false} AtMostFull(s: seq<Item>, ty: int, limit: int, n: nat)
    requires n <= |s| && AllGood(s) && SameKind(s, ty, limit)
    ensures CountTo(s, ty, n) <= limit * StacksTo(s, ty, n)
  {
    if n > 0 {
      AtMostFull(s, ty, limit, n - 1);
      assert Good(s[n - 1]);
    }
  }

  lemma OneFull(limit: int, n: int)
    ensures limit * (n + 1) == limit * n + limit
  {
  }

  lemma {:induction false} AllFull(s: seq<Item>, ty: int, limit: int, n: nat)
    requires n <= |s| && GoodList(s) && SameKind(s, ty, limit)
    requires forall k :: 0 <= k < n && s[k].ty == ty ==> !Partial(s[k])
    ensures CountTo(s, ty, n) == limit * StacksTo(s, ty, n)
  {
    if n > 0 {
      AllFull(s, ty, limit, n - 1);
      assert Good(s[n - 1]);
      OneFull(limit, StacksTo(s, ty, n - 1));
    }
  }

  /** With at most one stack that has room, more than the limit times all but one of them. */
  lemma {:induction false} AllButOneFull(s: seq<Item>, ty: int, limit: int, n: nat)
    requires n <= |s| && GoodList(s) && SameKind(s, ty, limit) && Compact(s)
    ensures StacksTo(s, ty, n) > 0 ==> limit * (StacksTo(s, ty, n) - 1) < CountTo(s, ty, n)
  {
    if n > 0 {
      AllButOneFull(s, ty, limit, n - 1);
      assert Good(s[n - 1]);
      CountMonotone(s, ty, 0, n - 1);
      if s[n - 1].ty == ty {
        if Partial(s[n - 1]) {
          AllFull(s, ty, limit, n - 1);
        } else {
          OneFull(limit, StacksTo(s, ty, n - 1) - 1);
        }
      }
    }
  }

  lemma FewerStacks(g: seq<Item>, u: seq<Item>, ty: int, limit: int)
    requires GoodList(g) && Compact(g) && AllGood(u) && SameKind(g, ty, limit) && SameKind(u, ty, limit)
    requires Count(g, ty) == Count(u, ty) && limit >= 0
    ensures StacksTo(g, ty, |g|) <= StacksTo(u, ty, |u|)
  {
    ghost var a, b := StacksTo(g, ty, |g|), StacksTo(u, ty, |u|);
    AllButOneFull(g, ty, limit, |g|);
    AtMostFull(u, ty, limit, |u|);
    if a > b {
      TimesMonotone(limit, b, a - 1);
    }
  }

  // ---- All types together ----

  /** Occupied slots whose type is in the set. */
  function OccupiedTo(s: seq<Item>, types: set<int>, n: nat): nat
    requires n <= |s|
  {
    if n == 0 then 0
    else OccupiedTo(s, types, n - 1) + if !IsEmpty(s[n - 1]) && s[n - 1].ty in types then 1 else 0
  }

  lemma {:induction false} OneMoreType(s: seq<Item>, types: set<int>, ty: int, n: nat)
    requires n <= |s| && ty in types
    ensures OccupiedTo(s, types, n) == OccupiedTo(s, types - {ty}, n) + StacksTo(s, ty, n)
  {
    if n > 0 {
      OneMoreType(s, types, ty, n - 1);
    }
  }

  lemma {:induction false} NoTypes(s: seq<Item>, n: nat)
    requires n <= |s|
    ensures OccupiedTo(s, {}, n) == 0
  {
    if n > 0 {
      NoTypes(s, n - 1);
    }
  }

  lemma {:induction false} OccupiedAtMost(s: seq<Item>, types: set<int>, n: nat)
    requires n <= |s|
    ensures OccupiedTo(s, types, n) <= n - FreeTo(s, n)
  {
    if n > 0 {
      OccupiedAtMost(s, types, n - 1);
    }
  }

  lemma {:induction false} OccupiedAll(s: seq<Item>, types: set<int>, n: nat)
    requires n <= |s| && NoneEmpty(s) && forall i :: 0 <= i < n ==> s[i].ty in types
    ensures OccupiedTo(s, types, n) == n
  {
    if n > 0 {
      OccupiedAll(s, types, n - 1);
    }
  }

  ghost predicate SameStock(g: seq<Item>, u: seq<Item>) {
    forall ty :: Count(g, ty) == Count(u, ty)
  }

  /** Two bags whose stacks of one type have one limit. */
  ghost predicate SameLimits(g: seq<Item>, u: seq<Item>) {
    && Kinds(g) && Kinds(u)
    && forall i, j :: 0 <= i < |g| && 0 <= j < |u| && !IsEmpty(g[i]) && !IsEmpty(u[j]) && g[i].ty == u[j].ty ==>
         g[i].limit == u[j].limit
  }

  lemma {:induction false} FewerOccupied(g: seq<Item>, u: seq<Item>, types: set<int>)
    requires GoodList(g) && Compact(g) && AllGood(u) && SameStock(g, u) && SameLimits(g, u)
    requires forall ty :: ty in types ==> exists k :: 0 <= k < |g| && g[k].ty == ty
    ensures OccupiedTo(g, types, |g|) <= OccupiedTo(u, types, |u|)
    decreases |types|
  {
    if types == {} {
      NoTypes(g, |g|);
    } else {
      var ty := SomeElement(types);
      var k :| 0 <= k < |g| && g[k].ty == ty;
      assert Good(g[k]) && !IsEmpty(g[k]);
      FewerStacks(g, u, ty, g[k].limit);
      FewerOccupied(g, u, types - {ty});
      OneMoreType(g, types, ty, |g|);
      OneMoreType(u, types, ty, |u|);
    }
  }

  lemma CompactIsFewest(g: seq<Item>, u: seq<Item>)
    requires GoodList(g) && Compact(g) && AllGood(u) && SameStock(g, u) && SameLimits(g, u)
    ensures |g| <= |u| - FreeSlots(u)
  {
    ghost var types := set k | 0 <= k < |g| :: g[k].ty;
    FewerOccupied(g, u, types);
    OccupiedAll(g, types, |g|);
    OccupiedAtMost(u, types, |u|);
  }

  /**
   Tidying with the intended merge leaves the fewest occupied slots there can be: every
   bag of good stacks with the same totals and limits occupies at least as many.
   */
  lemma TidyIsFewest(s: seq<Item>, u: seq<Item>, m: nat)
    requires AllGood(s) && ClassesValid(s) && ClassByType(s) && m == CLASS_COUNT
    requires AllGood(u) && SameStock(s, u) && SameLimits(s, u)
    ensures |Groups(s, m, true)| <= |s|
    ensures var t := Tidied(s, m, true); |t| - FreeSlots(t) <= |u| - FreeSlots(u)
  {
    ghost var g := Groups(s, m, true);
    TidyOrdered(s, m, true);
    GroupsGood(s, m, true);
    GroupsCompact(s, m);
    forall ty ensures Count(g, ty) == Count(u, ty) {
      GroupsCount(s, m, true, ty);
      BelowCountAll(s, ty, |s|);
    }
    CompactIsFewest(g, u);
  }
}
