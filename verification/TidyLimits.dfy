/**
 Stack limits under tidying. With the intended merge every stack stays within its
 limit and at most one stack of a type is not full. The merge as written exceeds a
 limit exactly when a stack that cannot take everything holds more than the stack
 being inserted.
 */
module TidyLimits {
  import opened Sequences
  import opened Items
  import opened ItemPiling
  import opened ItemTidy

  ghost predicate GoodList(list: seq<Item>) {
    NoneEmpty(list) && AllGood(list)
  }

  ghost predicate Overfull(list: seq<Item>) {
    exists i :: 0 <= i < |list| && list[i].amount > list[i].limit
  }

  /** The test that the merge as written lacks, along the stacks it visits. */
  predicate GuardFrom(list: seq<Item>, it: Item, left: int, i: nat)
    requires i <= |list|
    decreases |list| - i
  {
    if i == |list| then true
    else if list[i].ty == it.ty && Partial(list[i]) then
      if left + list[i].amount > list[i].limit then
        list[i].amount <= it.amount && GuardFrom(list, it, left - Given(list[i], it, false), i + 1)
      else true
    else GuardFrom(list, it, left, i + 1)
  }

  predicate Guard(list: seq<Item>, it: Item) {
    GuardFrom(list, it, it.amount, 0)
  }

  /** The guard only looks ahead, so giving to an earlier stack does not change it. */
  lemma {:induction false} GuardLooksAhead(list: seq<Item>, list': seq<Item>, it: Item, left: int, i: nat)
    requires |list'| == |list| && i <= |list| && forall k :: i <= k < |list| ==> list'[k] == list[k]
    ensures GuardFrom(list', it, left, i) == GuardFrom(list, it, left, i)
    decreases |list| - i
  {
    if i < |list| {
      GuardLooksAhead(list, list', it, left, i + 1);
      GuardLooksAhead(list, list', it, left - Given(list[i], it, false), i + 1);
    }
  }

  lemma {:induction false} OverfullStays(list: seq<Item>, it: Item, left: int, i: nat, repaired: bool)
    requires i <= |list| && Overfull(list)
    ensures Overfull(MergeFrom(list, it, left, i, repaired).list)
    decreases |list| - i
  {
    if i < |list| {
      if list[i].ty == it.ty && Partial(list[i]) {
        var bad :| 0 <= bad < |list| && list[bad].amount > list[bad].limit;
        var g := if left + list[i].amount > list[i].limit then Given(list[i], it, repaired) else left;
        var list' := list[i := list[i].(amount := list[i].amount + g)];
        assert list'[bad] == list[bad];
        if left + list[i].amount > list[i].limit {
          OverfullStays(list', it, left - g, i + 1, repaired);
        }
      } else {
        OverfullStays(list, it, left, i + 1, repaired);
      }
    }
  }

  lemma InsertOverfull(list: seq<Item>, it: Item, repaired: bool)
    requires Overfull(list)
    ensures Overfull(Insert(list, it, repaired))
  {
    OverfullStays(list, it, it.amount, 0, repaired);
    var m := MergeFrom(list, it, it.amount, 0, repaired);
    if !m.absorbed {
      var bad :| 0 <= bad < |m.list| && m.list[bad].amount > m.list[bad].limit;
      var p := PlaceFrom(m.list, it, 0);
      assert Insert(list, it, repaired)[if bad < p then bad else bad + 1] == m.list[bad];
    }
  }

  /** A stack as it is inserted: occupied, good, and of the kind of its type. */
  ghost predicate Fits(list: seq<Item>, it: Item) {
    !IsEmpty(it) && Good(it) && SameKind(list, it.ty, it.limit)
  }

  /** While the guard holds, merging keeps the list good and something to insert. */
  lemma {:induction false} MergeGood(list: seq<Item>, it: Item, left: int, i: nat, repaired: bool)
    requires i <= |list| && GoodList(list) && Fits(list, it) && 1 <= left <= it.amount
    requires repaired || GuardFrom(list, it, left, i)
    ensures var m := MergeFrom(list, it, left, i, repaired);
            GoodList(m.list) && (!m.absorbed ==> 1 <= m.left <= it.amount)
    decreases |list| - i
  {
    if i < |list| {
      assert Good(list[i]);
      if list[i].ty == it.ty && Partial(list[i]) {
        if left + list[i].amount > list[i].limit {
          var g := Given(list[i], it, repaired);
          var list' := list[i := list[i].(amount := list[i].amount + g)];
          GuardLooksAhead(list, list', it, left - g, i + 1);
          MergeGood(list', it, left - g, i + 1, repaired);
        }
      } else {
        MergeGood(list, it, left, i + 1, repaired);
      }
    }
  }

  /** Where the guard fails, a stack ends up above its limit. */
  lemma {:induction false} MergeOverfull(list: seq<Item>, it: Item, left: int, i: nat)
    requires i <= |list| && GoodList(list) && Fits(list, it) && 1 <= left <= it.amount
    requires !GuardFrom(list, it, left, i)
    ensures Overfull(MergeFrom(list, it, left, i, false).list)
    decreases |list| - i
  {
    assert Good(list[i]);
    if list[i].ty == it.ty && Partial(list[i]) {
      var g := Given(list[i], it, false);
      var list' := list[i := list[i].(amount := list[i].amount + g)];
      if list[i].amount > it.amount {
        assert list'[i].amount > list'[i].limit;
        OverfullStays(list', it, left - g, i + 1, false);
      } else {
        GuardLooksAhead(list, list', it, left - g, i + 1);
        MergeOverfull(list', it, left - g, i + 1);
      }
    } else {
      MergeOverfull(list, it, left, i + 1);
    }
  }

  /** Inserting with the intended merge keeps every limit. */
  lemma InsertGood(list: seq<Item>, it: Item, repaired: bool)
    requires GoodList(list) && Fits(list, it) && (repaired || Guard(list, it))
    ensures GoodList(Insert(list, it, repaired))
  {
    MergeGood(list, it, it.amount, 0, repaired);
  }

  /** The merge as written keeps the limits exactly when its guard holds. */
  lemma InsertAsWrittenExactly(list: seq<Item>, it: Item)
    requires GoodList(list) && Fits(list, it)
    ensures GoodList(Insert(list, it, false)) <==> Guard(list, it)
    ensures !Guard(list, it) ==> Overfull(Insert(list, it, false))
  {
    if Guard(list, it) {
      InsertGood(list, it, false);
    } else {
      MergeOverfull(list, it, it.amount, 0);
      var m := MergeFrom(list, it, it.amount, 0, false);
      if !m.absorbed {
        var bad :| 0 <= bad < |m.list| && m.list[bad].amount > m.list[bad].limit;
        var p := PlaceFrom(m.list, it, 0);
        assert Insert(list, it, false)[if bad < p then bad else bad + 1] == m.list[bad];
      }
    }
  }

  /** For two stacks: the second merges safely if all fits, or if it is no smaller than the first. */
  lemma TwoStacks(x: Item, it: Item)
    requires GoodList([x]) && Fits([x], it) && x.ty == it.ty && Partial(x)
    ensures Guard([x], it) <==> x.amount + it.amount <= x.limit || x.amount <= it.amount
  {
    assert [x][0] == x;
    assert GuardFrom([x], it, it.amount - Given(x, it, false), 1);
  }

  /**
   What the merge makes of two stacks of one type that do not fit one. As intended, the
   first is filled and the second keeps the rest; as written, the first is given its limit
   less what the second holds.
   */
  lemma TwoMerged(x: Item, it: Item)
    requires GoodList([x]) && Fits([x], it) && x.ty == it.ty && x.rank >= it.rank && Partial(x)
    requires x.amount + it.amount > x.limit
    ensures Insert([x], it, true) == [x.(amount := x.limit), it.(amount := x.amount + it.amount - x.limit)]
    ensures Insert([x], it, false) ==
            [x.(amount := x.amount + x.limit - it.amount), it.(amount := 2 * it.amount - x.limit)]
  {
    assert [x][0] == x;
    var bad, fine := [x.(amount := x.amount + x.limit - it.amount)], [x.(amount := x.limit)];
    assert [x][0 := bad[0]] == bad && [x][0 := fine[0]] == fine;
    assert MergeFrom(bad, it, 2 * it.amount - x.limit, 1, false) == Merge(bad, 2 * it.amount - x.limit, false);
    assert MergeFrom(fine, it, x.amount + it.amount - x.limit, 1, true) ==
           Merge(fine, x.amount + it.amount - x.limit, false);
    assert PlaceFrom(bad, it, 1) == 1 && PlaceFrom(fine, it, 1) == 1;
    assert PlaceFrom(bad, it, 0) == 1 && PlaceFrom(fine, it, 0) == 1;
  }

  /** Nine of at most ten and then three: the code makes a stack of sixteen and one of minus four. */
  lemma AsWrittenExample()
    ensures var x, it := Item(1, 9, 10, 1, -1, 0, true), Item(1, 3, 10, 1, -1, 0, true);
            && GoodList([x]) && Fits([x], it) && !Guard([x], it)
            && Insert([x], it, false) == [x.(amount := 16), it.(amount := -4)]
            && Insert([x], it, true) == [x.(amount := 10), it.(amount := 2)]
  {
    ghost var x, it := Item(1, 9, 10, 1, -1, 0, true), Item(1, 3, 10, 1, -1, 0, true);
    TwoStacks(x, it);
    TwoMerged(x, it);
  }

  /** All stacks of one type have the limit of its template. */
  ghost predicate Kinds(s: seq<Item>) {
    forall i, j :: 0 <= i < |s| && 0 <= j < |s| && !IsEmpty(s[i]) && !IsEmpty(s[j]) && s[i].ty == s[j].ty ==>
      s[i].limit == s[j].limit
  }

  /** A slot holds a stack that differs from `x` in its amount at most. */
  predicate KindAt(s: seq<Item>, i: int, x: Item) {
    0 <= i < |s| && !IsEmpty(s[i]) && s[i] == x.(amount := s[i].amount)
  }

  ghost predicate HasKind(s: seq<Item>, x: Item) {
    exists i :: KindAt(s, i, x)
  }

  /** Every stack of the list is of the kind of some slot. */
  ghost predicate From(list: seq<Item>, s: seq<Item>) {
    forall k :: 0 <= k < |list| ==> HasKind(s, list[k])
  }

  lemma {:induction false} GroupFrom(s: seq<Item>, c: int, n: nat, repaired: bool)
    requires n <= |s|
    ensures From(Group(s, c, n, repaired), s)
  {
    if n > 0 {
      GroupFrom(s, c, n - 1, repaired);
      if InClass(s[n - 1], c) {
        InsertFrom(Group(s, c, n - 1, repaired), s[n - 1], repaired, s, n - 1);
      }
    }
  }

  lemma InsertFrom(list: seq<Item>, it: Item, repaired: bool, s: seq<Item>, n: nat)
    requires From(list, s) && n < |s| && s[n] == it && !IsEmpty(it)
    ensures From(Insert(list, it, repaired), s)
  {
    var m := MergeFrom(list, it, it.amount, 0, repaired);
    MergeKeepsKeys(list, it, it.amount, 0, repaired);
    forall k | 0 <= k < |m.list| ensures HasKind(s, m.list[k]) {
      assert HasKind(s, list[k]);
      var i :| KindAt(s, i, list[k]);
      assert KindAt(s, i, m.list[k]);
    }
    if !m.absorbed {
      assert KindAt(s, n, it.(amount := m.left));
    }
  }

  lemma {:induction false} GroupsFrom(s: seq<Item>, m: nat, repaired: bool)
    ensures From(Groups(s, m, repaired), s)
  {
    if m > 0 {
      GroupsFrom(s, m - 1, repaired);
      GroupFrom(s, m - 1, |s|, repaired);
    }
  }

  /** Tidying moves items between stacks, and changes nothing else about any stack. */
  lemma TidyKeepsKinds(s: seq<Item>, m: nat, repaired: bool, k: nat) returns (i: nat)
    requires ClassesValid(s) && m == CLASS_COUNT && k < |Groups(s, m, repaired)|
    ensures k < |s| && |Groups(s, m, repaired)| <= |s|
    ensures i < |s| && !IsEmpty(s[i]) && Tidied(s, m, repaired)[k] == s[i].(amount := Tidied(s, m, repaired)[k].amount)
  {
    ghost var g := Groups(s, m, repaired);
    TidyFits(s, m, repaired);
    GroupsFrom(s, m, repaired);
    assert HasKind(s, g[k]);
    var j :| KindAt(s, j, g[k]);
    i := j;
    assert Tidied(s, m, repaired)[k] == g[k];
  }

  /** The guards of the insertions that build the list of class `c`. */
  predicate GroupGuard(s: seq<Item>, c: int, n: nat)
    requires n <= |s|
  {
    n == 0 ||
    (GroupGuard(s, c, n - 1) && (InClass(s[n - 1], c) ==> Guard(Group(s, c, n - 1, false), s[n - 1])))
  }

  lemma {:induction false} GroupGood(s: seq<Item>, c: int, n: nat, repaired: bool)
    requires n <= |s| && AllGood(s) && Kinds(s)
    requires repaired || GroupGuard(s, c, n)
    ensures GoodList(Group(s, c, n, repaired))
  {
    if n > 0 {
      GroupGood(s, c, n - 1, repaired);
      if InClass(s[n - 1], c) {
        GroupFrom(s, c, n - 1, repaired);
        InsertGood(Group(s, c, n - 1, repaired), s[n - 1], repaired);
      }
    }
  }

  lemma {:induction false} GroupOverfull(s: seq<Item>, c: int, n: nat)
    requires n <= |s| && AllGood(s) && Kinds(s) && !GroupGuard(s, c, n)
    ensures Overfull(Group(s, c, n, false))
  {
    if GroupGuard(s, c, n - 1) {
      GroupGood(s, c, n - 1, false);
      GroupFrom(s, c, n - 1, false);
      InsertAsWrittenExactly(Group(s, c, n - 1, false), s[n - 1]);
    } else {
      GroupOverfull(s, c, n - 1);
      if InClass(s[n - 1], c) {
        InsertOverfull(Group(s, c, n - 1, false), s[n - 1], false);
      }
    }
  }

  /** Tidying as written is safe for a bag when the guard holds at each insertion. */
  predicate TidyGuard(s: seq<Item>, m: nat) {
    m == 0 || (TidyGuard(s, m - 1) && GroupGuard(s, m - 1, |s|))
  }

  lemma {:induction false} GroupsGood(s: seq<Item>, m: nat, repaired: bool)
    requires AllGood(s) && Kinds(s) && (repaired || TidyGuard(s, m))
    ensures GoodList(Groups(s, m, repaired))
  {
    if m > 0 {
      GroupsGood(s, m - 1, repaired);
      GroupGood(s, m - 1, |s|, repaired);
    }
  }

  lemma {:induction false} GroupsOverfull(s: seq<Item>, m: nat)
    requires AllGood(s) && Kinds(s) && !TidyGuard(s, m)
    ensures Overfull(Groups(s, m, false))
  {
    var a, b := Groups(s, m - 1, false), Group(s, m - 1, |s|, false);
    if TidyGuard(s, m - 1) {
      GroupOverfull(s, m - 1, |s|);
      var bad :| 0 <= bad < |b| && b[bad].amount > b[bad].limit;
      assert (a + b)[|a| + bad] == b[bad];
    } else {
      GroupsOverfull(s, m - 1);
      var bad :| 0 <= bad < |a| && a[bad].amount > a[bad].limit;
      assert (a + b)[bad] == a[bad];
    }
  }

  /**
   Limits after tidying a bag of good slots: always kept by the intended merge; kept
   by the merge as written exactly when the guard holds at every insertion.
   */
  lemma TidyLimitsExactly(s: seq<Item>, m: nat)
    requires AllGood(s) && Kinds(s) && ClassesValid(s) && m == CLASS_COUNT
    ensures |Groups(s, m, true)| <= |s| && |Groups(s, m, false)| <= |s|
    ensures AllGood(Tidied(s, m, true))
    ensures AllGood(Tidied(s, m, false)) <==> TidyGuard(s, m)
  {
    TidyFits(s, m, true);
    TidyFits(s, m, false);
    GroupsGood(s, m, true);
    var g, t := Groups(s, m, false), Tidied(s, m, false);
    if TidyGuard(s, m) {
      GroupsGood(s, m, false);
    } else {
      GroupsOverfull(s, m);
      GroupsCount(s, m, false, 0);
      var bad :| 0 <= bad < |g| && g[bad].amount > g[bad].limit;
      assert t[bad] == g[bad] && !Good(t[bad]);
    }
  }

  // ---- Nothing left to merge ----

  /** At most one stack of each type is not full. */
  ghost predicate Compact(list: seq<Item>) {
    forall i, j :: 0 <= i < j < |list| && list[i].ty == list[j].ty ==> !Partial(list[i]) || !Partial(list[j])
  }

  /** The intended merge fills the one stack with room, or ends with everything absorbed. */
  lemma {:induction false} MergeCompact(list: seq<Item>, it: Item, left: int, i: nat)
    requires i <= |list| && GoodList(list) && Fits(list, it) && 1 <= left <= it.amount && Compact(list)
    requires forall k :: 0 <= k < i && list[k].ty == it.ty ==> !Partial(list[k])
    ensures var m := MergeFrom(list, it, left, i, true);
            && Compact(m.list)
            && (!m.absorbed ==> forall k :: 0 <= k < |list| && m.list[k].ty == it.ty ==> !Partial(m.list[k]))
    decreases |list| - i
  {
    if i < |list| {
      assert Good(list[i]);
      if list[i].ty == it.ty && Partial(list[i]) {
        if left + list[i].amount > list[i].limit {
          var g := Given(list[i], it, true);
          MergeCompact(list[i := list[i].(amount := list[i].amount + g)], it, left - g, i + 1);
        }
      } else {
        MergeCompact(list, it, left, i + 1);
      }
    }
  }

  lemma SplicedCompact(list: seq<Item>, p: nat, x: Item)
    requires p <= |list| && Compact(list)
    requires forall k :: 0 <= k < |list| && list[k].ty == x.ty ==> !Partial(list[k])
    ensures Compact(Spliced(list, p, x))
  {
  }

  lemma {:induction false} GroupCompact(s: seq<Item>, c: int, n: nat)
    requires n <= |s| && AllGood(s) && Kinds(s)
    ensures Compact(Group(s, c, n, true))
  {
    if n > 0 {
      var g := Group(s, c, n - 1, true);
      GroupCompact(s, c, n - 1);
      if InClass(s[n - 1], c) {
        var it := s[n - 1];
        GroupGood(s, c, n - 1, true);
        GroupFrom(s, c, n - 1, true);
        MergeCompact(g, it, it.amount, 0);
        var m := MergeFrom(g, it, it.amount, 0, true);
        if !m.absorbed {
          SplicedCompact(m.list, PlaceFrom(m.list, it, 0), it.(amount := m.left));
        }
      }
    }
  }

  // ---- A closed condition for the merge as written ----

  /** At most one stack of each type in the bag has room. */
  predicate OneOpen(s: seq<Item>) {
    forall i, j :: 0 <= i < j < |s| && !IsEmpty(s[i]) && !IsEmpty(s[j]) && s[i].ty == s[j].ty ==>
      !Partial(s[i]) || !Partial(s[j])
  }

  /** Only a full stack is inserted while a stack of its type has room. */
  ghost predicate Idle(list: seq<Item>, it: Item) {
    forall k :: 0 <= k < |list| && list[k].ty == it.ty && Partial(list[k]) ==> it.amount == it.limit
  }

  /** Then the merge as written gives nothing, and so does no harm. */
  lemma {:induction false} IdleMerge(list: seq<Item>, it: Item, i: nat)
    requires i <= |list| && GoodList(list) && Fits(list, it) && Idle(list, it)
    ensures GuardFrom(list, it, it.amount, i)
    ensures MergeFrom(list, it, it.amount, i, false) == Merge(list, it.amount, false)
    decreases |list| - i
  {
    if i < |list| {
      assert Good(list[i]);
      assert list[i := list[i].(amount := list[i].amount)] == list;
      IdleMerge(list, it, i + 1);
    }
  }

  lemma IdleInsert(list: seq<Item>, it: Item)
    requires GoodList(list) && Fits(list, it) && Idle(list, it)
    ensures Guard(list, it) && Insert(list, it, false) == Spliced(list, PlaceFrom(list, it, 0), it)
  {
    IdleMerge(list, it, 0);
    assert it.(amount := it.amount) == it;
  }

  /** Whatever has room in the list has room in the bag. */
  ghost predicate OpenIn(list: seq<Item>, s: seq<Item>, n: nat)
    requires n <= |s|
  {
    forall k :: 0 <= k < |list| && Partial(list[k]) ==>
      exists i :: 0 <= i < n && !IsEmpty(s[i]) && s[i].ty == list[k].ty && Partial(s[i])
  }

  lemma OpenInNext(list: seq<Item>, s: seq<Item>, n: nat, p: nat)
    requires n < |s| && OpenIn(list, s, n) && !IsEmpty(s[n]) && p <= |list|
    ensures OpenIn(list, s, n + 1) && OpenIn(Spliced(list, p, s[n]), s, n + 1)
  {
    ghost var t := Spliced(list, p, s[n]);
    forall k | 0 <= k < |t| && Partial(t[k])
      ensures exists i :: 0 <= i < n + 1 && !IsEmpty(s[i]) && s[i].ty == t[k].ty && Partial(s[i])
    {
      if k != p {
        ghost var j := if k < p then k else k - 1;
        assert t[k] == list[j];
        var i :| 0 <= i < n && !IsEmpty(s[i]) && s[i].ty == list[j].ty && Partial(s[i]);
      }
    }
  }

  lemma {:induction false} GroupIdle(s: seq<Item>, c: int, n: nat)
    requires n <= |s| && AllGood(s) && Kinds(s) && OneOpen(s)
    ensures GroupGuard(s, c, n) && OpenIn(Group(s, c, n, false), s, n)
  {
    if n > 0 {
      GroupIdle(s, c, n - 1);
      if InClass(s[n - 1], c) {
        ghost var g, it := Group(s, c, n - 1, false), s[n - 1];
        GroupGood(s, c, n - 1, false);
        GroupFrom(s, c, n - 1, false);
        IdleInsert(g, it);
        OpenInNext(g, s, n - 1, PlaceFrom(g, it, 0));
      }
    }
  }

  lemma {:induction false} GroupsIdle(s: seq<Item>, m: nat)
    requires AllGood(s) && Kinds(s) && OneOpen(s)
    ensures TidyGuard(s, m)
  {
    if m > 0 {
      GroupsIdle(s, m - 1);
      GroupIdle(s, m - 1, |s|);
    }
  }

  /** Tidying as written is safe for every bag in which at most one stack of a type has room. */
  lemma OneOpenIsSafe(s: seq<Item>, m: nat)
    requires AllGood(s) && Kinds(s) && ClassesValid(s) && m == CLASS_COUNT && OneOpen(s)
    ensures |Groups(s, m, false)| <= |s| && AllGood(Tidied(s, m, false))
  {
    GroupsIdle(s, m);
    TidyLimitsExactly(s, m);
  }
}
