/**
 Tidying a team's battle positions: as long as members are left, the member and the
 free position with the greatest class weight (ties: the greater combat value, then
 the first found) are matched.
 */
module TeamPos {

  datatype Member = Member(roleid: int, cls: int, combat: int)

  const TEAM_SIZE := 4
  const CLASS_COUNT := 16
  const NOBODY := Member(0, 0, 0)

  /** One row per class, in the order of the class enumeration; one column per position. */
  const WEIGHTS: seq<seq<int>> := [
    [6, 5, 2, 7],   // newbie
    [8, 6, 4, 2],   // primary warrior
    [6, 5, 2, 7],   // junior attack warrior
    [6, 5, 2, 7],   // senior attack warrior
    [9, 7, 5, 3],   // junior defense warrior
    [10, 8, 6, 4],  // senior defense warrior
    [2, 4, 6, 8],   // primary mage
    [2, 4, 6, 8],   // junior damage mage
    [2, 4, 6, 8],   // senior damage mage
    [3, 5, 7, 9],   // junior heal mage
    [4, 6, 8, 10],  // senior heal mage
    [2, 4, 6, 8],   // primary archer
    [2, 4, 6, 8],   // junior snipe archer
    [2, 4, 6, 8],   // senior snipe archer
    [6, 5, 2, 7],   // junior rake archer
    [6, 5, 2, 7]    // senior rake archer
  ]

  predicate ValidClass(cls: int) {
    0 <= cls < CLASS_COUNT
  }

  function Weight(cls: int, pos: nat): (w: int)
    requires ValidClass(cls) && pos < TEAM_SIZE
    ensures 2 <= w <= 10
  {
    WEIGHTS[cls][pos]
  }

  type Team = s: seq<Member> | |s| == TEAM_SIZE witness [NOBODY, NOBODY, NOBODY, NOBODY]

  ghost predicate ClassesValid(t: Team) {
    forall i :: 0 <= i < TEAM_SIZE ==> ValidClass(t[i].cls)
  }

  predicate Taken(m: Member) {
    m.roleid > 0
  }

  function One(m: Member): nat {
    if Taken(m) then 1 else 0
  }

  /** How many entries hold somebody. */
  function Count(t: Team): nat {
    One(t[0]) + One(t[1]) + One(t[2]) + One(t[3])
  }

  /** A member still to place and a position still free. */
  predicate Open(members: Team, pos: Team, i: nat, k: nat) {
    i < TEAM_SIZE && k < TEAM_SIZE && Taken(members[i]) && !Taken(pos[k])
  }

  /** Pair (i, k) is strictly preferred to (j, l) by weight, then by combat value. */
  predicate Prefers(members: Team, i: nat, k: nat, j: nat, l: nat)
    requires ClassesValid(members) && i < TEAM_SIZE && k < TEAM_SIZE && j < TEAM_SIZE && l < TEAM_SIZE
  {
    var w, v := Weight(members[i].cls, k), Weight(members[j].cls, l);
    v < w || (v == w && members[j].combat < members[i].combat)
  }

  datatype Pick = NoPick | Pick(i: nat, k: nat)

  /** The pick so far against pair (i, k): only a strictly preferred open pair replaces it. */
  function Better(members: Team, pos: Team, r: Pick, i: nat, k: nat): Pick
    requires ClassesValid(members) && i < TEAM_SIZE && k < TEAM_SIZE
    requires r.Pick? ==> r.i < TEAM_SIZE && r.k < TEAM_SIZE
  {
    if !Open(members, pos, i, k) then r
    else if r.NoPick? || Prefers(members, i, k, r.i, r.k) then Pick(i, k)
    else r
  }

  /** The scan over pairs in order, member by member, up to pair number `c`. */
  function Best(members: Team, pos: Team, c: nat): (r: Pick)
    requires ClassesValid(members) && c <= TEAM_SIZE * TEAM_SIZE
    ensures r.Pick? ==> Open(members, pos, r.i, r.k)
  {
    if c == 0 then NoPick
    else Better(members, pos, Best(members, pos, c - 1), (c - 1) / TEAM_SIZE, (c - 1) % TEAM_SIZE)
  }

  /**
   The scan finds the first among the most preferred open pairs, and nothing only when
   no pair is open.
   */
  lemma {:induction false} BestIsFirstPreferred(members: Team, pos: Team, c: nat)
    requires ClassesValid(members) && c <= TEAM_SIZE * TEAM_SIZE
    ensures Best(members, pos, c).Pick? ==> TEAM_SIZE * Best(members, pos, c).i + Best(members, pos, c).k < c
    ensures var r := Best(members, pos, c);
            forall i: nat, k: nat :: TEAM_SIZE * i + k < c && Open(members, pos, i, k) ==>
              && r.Pick? && !Prefers(members, i, k, r.i, r.k)
              && (TEAM_SIZE * i + k < TEAM_SIZE * r.i + r.k ==> Prefers(members, r.i, r.k, i, k))
    decreases c
  {
    if c > 0 {
      BestIsFirstPreferred(members, pos, c - 1);
      var r := Best(members, pos, c);
      forall i: nat, k: nat | TEAM_SIZE * i + k < c && Open(members, pos, i, k)
        ensures r.Pick? && !Prefers(members, i, k, r.i, r.k)
        ensures TEAM_SIZE * i + k < TEAM_SIZE * r.i + r.k ==> Prefers(members, r.i, r.k, i, k)
      {
        if TEAM_SIZE * i + k == c - 1 {
          assert i == (c - 1) / TEAM_SIZE && k == (c - 1) % TEAM_SIZE;
        }
      }
    }
  }

  /** Written out: the pick weighs most; of those its combat value is greatest; and it is the first of those. */
  lemma BestInNumbers(members: Team, pos: Team, i: nat, k: nat)
    requires ClassesValid(members) && i < TEAM_SIZE && k < TEAM_SIZE
    requires members[i].roleid > 0 && pos[k].roleid <= 0
    ensures var r := Choice(members, pos);
            && r.Pick? && r.i < TEAM_SIZE && r.k < TEAM_SIZE && members[r.i].roleid > 0 && pos[r.k].roleid <= 0
            && var v, w := Weight(members[i].cls, k), Weight(members[r.i].cls, r.k);
               || v < w
               || (v == w && members[i].combat < members[r.i].combat)
               || (v == w && members[i].combat == members[r.i].combat && (r.i < i || (r.i == i && r.k <= k)))
  {
    ChoiceIsBest(members, pos, i, k);
  }

  function Choice(members: Team, pos: Team): Pick
    requires ClassesValid(members)
  {
    Best(members, pos, TEAM_SIZE * TEAM_SIZE)
  }

  lemma ChoiceIsBest(members: Team, pos: Team, i: nat, k: nat)
    requires ClassesValid(members) && Open(members, pos, i, k)
    ensures var r := Choice(members, pos);
            && r.Pick? && !Prefers(members, i, k, r.i, r.k)
            && (TEAM_SIZE * i + k < TEAM_SIZE * r.i + r.k ==> Prefers(members, r.i, r.k, i, k))
  {
    BestIsFirstPreferred(members, pos, TEAM_SIZE * TEAM_SIZE);
  }

  /** The positions after all members have been placed. */
  function Tidied(members: Team, pos: Team): Team
    requires ClassesValid(members)
    decreases Count(members)
  {
    var c := Choice(members, pos);
    if c.NoPick? then pos
    else Tidied(members[c.i := NOBODY], pos[c.k := members[c.i]])
  }

  /** Which position each member got; -1 for entries without a member. */
  function Places(members: Team, pos: Team): (p: seq<int>)
    requires ClassesValid(members)
    ensures |p| == TEAM_SIZE
    decreases Count(members)
  {
    var c := Choice(members, pos);
    if c.NoPick? then [-1, -1, -1, -1]
    else Places(members[c.i := NOBODY], pos[c.k := members[c.i]])[c.i := c.k]
  }

  /** Members that no free position is left for: the loop would never get past them. */
  function Stranded(members: Team, pos: Team): nat
    requires ClassesValid(members)
    decreases Count(members)
  {
    var c := Choice(members, pos);
    if c.NoPick? then Count(members)
    else Stranded(members[c.i := NOBODY], pos[c.k := members[c.i]])
  }

  lemma {:induction false} StrandedCount(members: Team, pos: Team)
    requires ClassesValid(members)
    ensures Stranded(members, pos) == if Count(members) + Count(pos) <= TEAM_SIZE then 0
              else Count(members) + Count(pos) - TEAM_SIZE
    decreases Count(members)
  {
    var c := Choice(members, pos);
    if c.NoPick? {
      NoPickMeans(members, pos);
    } else {
      StrandedCount(members[c.i := NOBODY], pos[c.k := members[c.i]]);
    }
  }

  lemma NoPickMeans(members: Team, pos: Team)
    requires ClassesValid(members) && Choice(members, pos).NoPick?
    ensures Count(members) == 0 || Count(pos) == TEAM_SIZE
  {
    if Count(members) > 0 && Count(pos) < TEAM_SIZE {
      var i: nat :| i < TEAM_SIZE && Taken(members[i]);
      var k: nat :| k < TEAM_SIZE && !Taken(pos[k]);
      ChoiceIsBest(members, pos, i, k);
    }
  }

  /** The loop ends exactly when there is a free position for every member. */
  lemma EndsExactly(members: Team, pos: Team)
    requires ClassesValid(members)
    ensures Stranded(members, pos) == 0 <==> Count(members) + Count(pos) <= TEAM_SIZE
  {
    StrandedCount(members, pos);
  }

  /** A placement of some members on positions that are free, at most one on each. */
  ghost predicate Placement(members: Team, pos: Team, p: seq<int>) {
    && |p| == TEAM_SIZE
    && (forall i :: 0 <= i < TEAM_SIZE && p[i] != -1 ==>
          0 <= p[i] < TEAM_SIZE && Taken(members[i]) && !Taken(pos[p[i]]))
    && (forall i, j :: 0 <= i < j < TEAM_SIZE && p[i] != -1 ==> p[i] != p[j])
  }

  /** The tidied positions hold exactly the members placed there, and what was there before. */
  ghost predicate Holds(members: Team, pos: Team, p: seq<int>, result: Team)
    requires Placement(members, pos, p)
  {
    && (forall i :: 0 <= i < TEAM_SIZE && p[i] != -1 ==> result[p[i]] == members[i])
    && (forall k :: 0 <= k < TEAM_SIZE && k !in p ==> result[k] == pos[k])
  }

  /** One more pair in front of a placement of the others. */
  lemma PlacementStep(members: Team, pos: Team, i: nat, k: nat, p: seq<int>)
    requires Open(members, pos, i, k) && Placement(members[i := NOBODY], pos[k := members[i]], p)
    ensures p[i] == -1 && k !in p && Placement(members, pos, p[i := k])
  {
  }

  lemma HoldsStep(members: Team, pos: Team, i: nat, k: nat, p: seq<int>, result: Team)
    requires Open(members, pos, i, k) && Placement(members[i := NOBODY], pos[k := members[i]], p)
    requires Holds(members[i := NOBODY], pos[k := members[i]], p, result) && Placement(members, pos, p[i := k])
    ensures Holds(members, pos, p[i := k], result)
  {
    PlacementStep(members, pos, i, k, p);
    ghost var q := p[i := k];
    forall l | 0 <= l < TEAM_SIZE && l !in q ensures result[l] == pos[l] {
      assert q[i] == k && forall j :: 0 <= j < TEAM_SIZE && j != i ==> q[j] == p[j];
    }
  }

  lemma {:induction false} PlacesHold(members: Team, pos: Team)
    requires ClassesValid(members)
    ensures Placement(members, pos, Places(members, pos))
    ensures Holds(members, pos, Places(members, pos), Tidied(members, pos))
    decreases Count(members)
  {
    var c := Choice(members, pos);
    if c.Pick? {
      var members', pos' := members[c.i := NOBODY], pos[c.k := members[c.i]];
      PlacesHold(members', pos');
      PlacementStep(members, pos, c.i, c.k, Places(members', pos'));
      HoldsStep(members, pos, c.i, c.k, Places(members', pos'), Tidied(members', pos'));
    }
  }

  lemma {:induction false} EveryoneOnce(members: Team, pos: Team)
    requires ClassesValid(members) && Count(members) + Count(pos) <= TEAM_SIZE
    ensures forall i :: 0 <= i < TEAM_SIZE ==> (members[i].roleid > 0 <==> Places(members, pos)[i] != -1)
    decreases Count(members)
  {
    var c := Choice(members, pos);
    if c.NoPick? {
      NoPickMeans(members, pos);
    } else {
      EveryoneOnce(members[c.i := NOBODY], pos[c.k := members[c.i]]);
    }
  }

  /**
   Somebody at least as good as `i` stands on `k`: heavier there, or as heavy with the
   greater combat value, or equal in both and found no later.
   */
  ghost predicate WellHeld(members: Team, p: seq<int>, i: nat, k: nat)
    requires ClassesValid(members) && i < TEAM_SIZE && k < TEAM_SIZE && |p| == TEAM_SIZE
  {
    exists j: nat :: j < TEAM_SIZE && p[j] == k &&
      var v, w := Weight(members[j].cls, k), Weight(members[i].cls, k);
      v > w || (v == w && (members[j].combat > members[i].combat ||
                           (members[j].combat == members[i].combat && j <= i)))
  }

  lemma HeldBy(members: Team, p: seq<int>, i: nat, k: nat, j: nat)
    requires ClassesValid(members) && i < TEAM_SIZE && |p| == TEAM_SIZE && j < TEAM_SIZE && k < TEAM_SIZE && p[j] == k
    requires !Prefers(members, i, k, j, k) && (i < j ==> Prefers(members, j, k, i, k))
    ensures WellHeld(members, p, i, k)
  {
  }

  /**
   Stability: for every member and every position that was free, either the member's
   own place weighs at least as much, or the position went to someone at least as good
   on it, by weight, then by combat value, then by the order of the team.
   */
  lemma {:induction false} Stable(members: Team, pos: Team, i: nat, k: nat)
    requires ClassesValid(members) && Open(members, pos, i, k)
    ensures var p := Places(members, pos);
            || (0 <= p[i] < TEAM_SIZE && Weight(members[i].cls, k) <= Weight(members[i].cls, p[i]))
            || WellHeld(members, p, i, k)
    decreases Count(members)
  {
    var c := Choice(members, pos);
    var p := Places(members, pos);
    ChoiceIsBest(members, pos, i, k);
    assert p[c.i] == c.k;
    if k == c.k {
      HeldBy(members, p, i, k, c.i);
    } else if i != c.i {
      var members', pos' := members[c.i := NOBODY], pos[c.k := members[c.i]];
      Stable(members', pos', i, k);
      PlacesHold(members', pos');
      var p' := Places(members', pos');
      if WellHeld(members', p', i, k) {
        var j: nat :| j < TEAM_SIZE && p'[j] == k &&
          var v, w := Weight(members'[j].cls, k), Weight(members'[i].cls, k);
          v > w || (v == w && (members'[j].combat > members'[i].combat ||
                               (members'[j].combat == members'[i].combat && j <= i)));
        assert p[j] == k && members'[j] == members[j] && members'[i] == members[i];
      }
    }
  }

  /**
   Of two members of one class the one with the greater combat value, or the first of two
   equal ones, is served first: when the other gets a position, it gets one as well, and
   one that weighs at least as much.
   */
  lemma StrongerFirst(members: Team, pos: Team, i: nat, j: nat)
    requires ClassesValid(members) && i < TEAM_SIZE && j < TEAM_SIZE
    requires members[i].roleid > 0 && members[j].roleid > 0 && members[i].cls == members[j].cls
    requires members[i].combat > members[j].combat || (members[i].combat == members[j].combat && i < j)
    ensures var p := Places(members, pos);
            p[j] != -1 ==>
              && 0 <= p[i] < TEAM_SIZE && 0 <= p[j] < TEAM_SIZE
              && Weight(members[i].cls, p[i]) >= Weight(members[j].cls, p[j])
  {
    var p := Places(members, pos);
    PlacesHold(members, pos);
    if p[j] != -1 {
      Stable(members, pos, i, p[j]);
    }
  }

  function Term(members: Team, p: seq<int>, i: nat): int
    requires ClassesValid(members) && |p| == TEAM_SIZE && i < TEAM_SIZE
  {
    if 0 <= p[i] < TEAM_SIZE then Weight(members[i].cls, p[i]) else 0
  }

  /** The total weight of a placement. */
  function TotalWeight(members: Team, p: seq<int>): int
    requires ClassesValid(members) && |p| == TEAM_SIZE
  {
    Term(members, p, 0) + Term(members, p, 1) + Term(members, p, 2) + Term(members, p, 3)
  }

  /** A placement without member `i` and without whoever stands on `k`. */
  function Cleared(q: seq<int>, i: nat, k: nat): (r: seq<int>)
    requires |q| == TEAM_SIZE
    ensures |r| == TEAM_SIZE
    ensures forall j :: 0 <= j < TEAM_SIZE ==> r[j] == if j == i || q[j] == k then -1 else q[j]
  {
    seq(TEAM_SIZE, j requires 0 <= j < TEAM_SIZE => if j == i || q[j] == k then -1 else q[j])
  }

  /** The greedy pick pays, with twice its weight, for what it takes away from any placement. */
  lemma PickPays(members: Team, pos: Team, q: seq<int>)
    requires ClassesValid(members) && Placement(members, pos, q) && Choice(members, pos).Pick?
    ensures var c := Choice(members, pos);
            TotalWeight(members, q) <=
            TotalWeight(members[c.i := NOBODY], Cleared(q, c.i, c.k)) + 2 * Weight(members[c.i].cls, c.k)
  {
    var c := Choice(members, pos);
    var w, r := Weight(members[c.i].cls, c.k), Cleared(q, c.i, c.k);
    var members' := members[c.i := NOBODY];
    forall j: nat | j < TEAM_SIZE && q[j] != -1 ensures Term(members, q, j) <= w {
      ChoiceIsBest(members, pos, j, q[j]);
    }
    forall j: nat | j < TEAM_SIZE && j != c.i && q[j] != c.k
      ensures Term(members, q, j) == Term(members', r, j)
    {
    }
  }

  /** The greedy placement weighs at least half of any other placement of the members. */
  lemma {:induction false} TwiceAnyPlacement(members: Team, pos: Team, q: seq<int>)
    requires ClassesValid(members) && Placement(members, pos, q)
    ensures TotalWeight(members, q) <= 2 * TotalWeight(members, Places(members, pos))
    decreases Count(members)
  {
    var c := Choice(members, pos);
    if c.NoPick? {
      forall j: nat | j < TEAM_SIZE ensures q[j] == -1 {
        if q[j] != -1 {
          ChoiceIsBest(members, pos, j, q[j]);
        }
      }
    } else {
      var members', pos' := members[c.i := NOBODY], pos[c.k := members[c.i]];
      PickPays(members, pos, q);
      PlacesHold(members', pos');
      TwiceAnyPlacement(members', pos', Cleared(q, c.i, c.k));
      var p, p' := Places(members, pos), Places(members', pos');
      assert p'[c.i] == -1;
      assert forall j :: 0 <= j < TEAM_SIZE && j != c.i ==> Term(members, p, j) == Term(members', p', j);
    }
  }

  /** One round whose pick is (i, k): better than every pair before it, no worse than any. */
  lemma PlaceBest(members: Team, pos: Team, i: nat, k: nat) returns (members': Team, pos': Team)
    requires ClassesValid(members) && Open(members, pos, i, k)
    requires forall j: nat, l: nat :: Open(members, pos, j, l) ==> !Prefers(members, j, l, i, k)
    requires forall j: nat, l: nat :: Open(members, pos, j, l) && TEAM_SIZE * j + l < TEAM_SIZE * i + k ==>
               Prefers(members, i, k, j, l)
    ensures Choice(members, pos) == Pick(i, k)
    ensures members' == members[i := NOBODY] && pos' == pos[k := members[i]]
    ensures Places(members, pos) == Places(members', pos')[i := k]
  {
    members', pos' := members[i := NOBODY], pos[k := members[i]];
    ChoiceIsBest(members, pos, i, k);
  }

  /** Three newbies and a junior damage mage, with the first `n` newbies or the mage placed. */
  function Newbies(first: nat, mage: bool): Team
    requires first <= 3
  {
    [if first <= 0 then Member(1, 0, 0) else NOBODY, if first <= 1 then Member(2, 0, 0) else NOBODY,
     if first <= 2 then Member(3, 0, 0) else NOBODY, if mage then Member(4, 7, 0) else NOBODY]
  }

  const FREE: Team := [NOBODY, NOBODY, NOBODY, NOBODY]

  /** A full team with one position already taken: one member is left over for good. */
  lemma CrowdedTeam(taken: Member)
    requires Taken(taken)
    ensures ClassesValid(Newbies(0, true)) && Stranded(Newbies(0, true), FREE[0 := taken]) == 1
  {
    StrandedCount(Newbies(0, true), FREE[0 := taken]);
  }

  lemma MageFirst()
    ensures Choice(Newbies(0, true), FREE) == Pick(3, 3)
  {
    var m, p := PlaceBest(Newbies(0, true), FREE, 3, 3);
  }

  lemma ThenNewbies(pos: Team, n: nat)
    requires n < 3 && forall k :: 0 <= k < TEAM_SIZE ==> (Taken(pos[k]) <==> k < n || k == 3)
    ensures Choice(Newbies(n, false), pos) == Pick(n, n)
  {
    var m, p := PlaceBest(Newbies(n, false), pos, n, n);
  }

  lemma GreedyPlaces()
    ensures Places(Newbies(0, true), FREE) == [0, 1, 2, 3]
  {
    MageFirst();
    var p1 := FREE[3 := Member(4, 7, 0)];
    assert Newbies(0, true)[3 := NOBODY] == Newbies(0, false);
    ThenNewbies(p1, 0);
    var p2 := p1[0 := Member(1, 0, 0)];
    assert Newbies(0, false)[0 := NOBODY] == Newbies(1, false);
    ThenNewbies(p2, 1);
    var p3 := p2[1 := Member(2, 0, 0)];
    assert Newbies(1, false)[1 := NOBODY] == Newbies(2, false);
    ThenNewbies(p3, 2);
    var p4 := p3[2 := Member(3, 0, 0)];
    assert Newbies(2, false)[2 := NOBODY] == FREE;
    assert Places(FREE, p4) == [-1, -1, -1, -1];
    assert Places(Newbies(2, false), p3) == [-1, -1, 2, -1];
    assert Places(Newbies(1, false), p2) == [-1, 1, 2, -1];
    assert Places(Newbies(0, false), p1) == [0, 1, 2, -1];
    assert Places(Newbies(0, true), FREE) == [0, 1, 2, 3];
  }

  /** The greedy tidying of that team weighs 21; putting the mage third would weigh 24. */
  lemma GreedyIsNotOptimal()
    ensures var members := Newbies(0, true);
            && ClassesValid(members) && Placement(members, FREE, [0, 1, 3, 2])
            && TotalWeight(members, Places(members, FREE)) == 21
            && TotalWeight(members, [0, 1, 3, 2]) == 24
  {
    GreedyPlaces();
  }

  lemma BestNext(members: Team, pos: Team, i: nat, k: nat)
    requires ClassesValid(members) && i < TEAM_SIZE && k < TEAM_SIZE
    ensures Best(members, pos, TEAM_SIZE * i + k + 1) ==
            Better(members, pos, Best(members, pos, TEAM_SIZE * i + k), i, k)
  {
    assert (TEAM_SIZE * i + k) / TEAM_SIZE == i && (TEAM_SIZE * i + k) % TEAM_SIZE == k;
  }

  lemma BestSkips(members: Team, pos: Team, i: nat)
    requires ClassesValid(members) && i < TEAM_SIZE && !Taken(members[i])
    ensures Best(members, pos, TEAM_SIZE * i + TEAM_SIZE) == Best(members, pos, TEAM_SIZE * i)
  {
    BestStays(members, pos, i, TEAM_SIZE);
  }

  lemma {:induction false} BestStays(members: Team, pos: Team, i: nat, k: nat)
    requires ClassesValid(members) && i < TEAM_SIZE && k <= TEAM_SIZE && !Taken(members[i])
    ensures Best(members, pos, TEAM_SIZE * i + k) == Best(members, pos, TEAM_SIZE * i)
  {
    if k > 0 {
      BestStays(members, pos, i, k - 1);
      BestNext(members, pos, i, k - 1);
    }
  }

  /** The scan's variables stand for the pick `r`. */
  ghost predicate Found(members: Team, r: Pick, i: int, k: int, weight: int, combat: int)
    requires ClassesValid(members)
  {
    if r.NoPick? then i == k == weight == combat == -1
    else r.i < TEAM_SIZE && r.k < TEAM_SIZE && i == r.i && k == r.k
         && weight == Weight(members[r.i].cls, r.k) && combat == members[r.i].combat
  }

  /** What the scan's tests make of one more pair. */
  lemma PairScanned(members: Team, pos: Team, r: Pick, i: nat, k: nat, i0: int, k0: int, weight: int, combat: int)
    requires ClassesValid(members) && i < TEAM_SIZE && k < TEAM_SIZE && Taken(members[i])
    requires Found(members, r, i0, k0, weight, combat)
    ensures var w := Weight(members[i].cls, k);
            Better(members, pos, r, i, k) ==
            if !Taken(pos[k]) && (weight < w || (weight == w && combat < members[i].combat)) then Pick(i, k) else r
  {
  }

  /** The scan over the positions for one member. */
  method ScanMember(member: array<Member>, pos: array<Member>, i: nat, i0: int, k0: int, w0: int, c0: int)
    returns (memI: int, posK: int, maxWeight: int, combat: int)
    requires member.Length == pos.Length == TEAM_SIZE && i < TEAM_SIZE && ClassesValid(member[..])
    requires Taken(member[i])
    requires Found(member[..], Best(member[..], pos[..], TEAM_SIZE * i), i0, k0, w0, c0)
    ensures Found(member[..], Best(member[..], pos[..], TEAM_SIZE * i + TEAM_SIZE), memI, posK, maxWeight, combat)
  {
    ghost var ms, ps := member[..], pos[..];
    ghost var r := Best(ms, ps, TEAM_SIZE * i);
    memI, posK, maxWeight, combat := i0, k0, w0, c0;
    for k := 0 to TEAM_SIZE
      invariant r == Best(ms, ps, TEAM_SIZE * i + k)
      invariant Found(ms, r, memI, posK, maxWeight, combat)
    {
      BestNext(ms, ps, i, k);
      PairScanned(ms, ps, r, i, k, memI, posK, maxWeight, combat);
      r := Better(ms, ps, r, i, k);
      if Taken(pos[k]) {
        continue;
      }
      var weight := Weight(member[i].cls, k);
      if maxWeight <= weight {
        if maxWeight == weight && combat >= member[i].combat {
          continue;
        }
        maxWeight, combat := weight, member[i].combat;
        memI, posK := i, k;
      }
    }
  }

  /** The scan of one round. Negative indexes mean that no pair is open. */
  method FindBest(member: array<Member>, pos: array<Member>) returns (memI: int, posK: int)
    requires member.Length == pos.Length == TEAM_SIZE && ClassesValid(member[..])
    ensures var c := Choice(member[..], pos[..]);
            if c.NoPick? then memI == posK == -1 else memI == c.i && posK == c.k
  {
    memI, posK := -1, -1;
    var maxWeight, combat := -1, -1;
    ghost var ms, ps := member[..], pos[..];
    ghost var r := Best(ms, ps, 0);
    for i := 0 to TEAM_SIZE
      invariant r == Best(ms, ps, TEAM_SIZE * i)
      invariant Found(ms, r, memI, posK, maxWeight, combat)
    {
      r := Best(ms, ps, TEAM_SIZE * i + TEAM_SIZE);
      if !Taken(member[i]) {
        BestSkips(ms, ps, i);
        continue;
      }
      memI, posK, maxWeight, combat := ScanMember(member, pos, i, memI, posK, maxWeight, combat);
    }
  }

  function CountTo(t: Team, n: nat): nat
    requires n <= TEAM_SIZE
  {
    (if n > 0 then One(t[0]) else 0) + (if n > 1 then One(t[1]) else 0) +
    (if n > 2 then One(t[2]) else 0) + (if n > 3 then One(t[3]) else 0)
  }

  method CountMembers(raw: array<Member>) returns (count: nat, valid: bool)
    requires raw.Length == TEAM_SIZE
    ensures valid <==> ClassesValid(raw[..])
    ensures valid ==> count == Count(raw[..])
  {
    ghost var ms: Team := raw[..];
    count := 0;
    for i := 0 to TEAM_SIZE
      invariant count == CountTo(ms, i)
      invariant forall j :: 0 <= j < i ==> ValidClass(ms[j].cls)
    {
      if Taken(raw[i]) {
        count := count + 1;
      }
      if !ValidClass(raw[i].cls) {
        return count, false;
      }
    }
    valid := true;
  }

  lemma RoundTidies(members: Team, pos: Team)
    requires ClassesValid(members) && Choice(members, pos).Pick?
    ensures var c := Choice(members, pos);
            && c.i < TEAM_SIZE && c.k < TEAM_SIZE
            && var m, p := members[c.i := NOBODY], pos[c.k := members[c.i]];
               && ClassesValid(m) && Count(m) == Count(members) - 1
               && Tidied(m, p) == Tidied(members, pos) && Stranded(m, p) == Stranded(members, pos)
  {
  }

  lemma NothingOpen(members: Team, pos: Team)
    requires ClassesValid(members) && Choice(members, pos).NoPick?
    ensures Tidied(members, pos) == pos && Stranded(members, pos) == Count(members)
  {
  }

  lemma NothingLeft(members: Team, pos: Team)
    requires ClassesValid(members) && Count(members) == 0
    ensures Choice(members, pos).NoPick?
  {
  }

  /**
   The rounds of the loop: one pair is matched in each. When no pair is open although
   members are left, the source's loop goes round for good without changing anything;
   `ends` is false there.
   */
  method PlaceAll(member: array<Member>, pos: array<Member>, members: nat) returns (ends: bool)
    requires member.Length == pos.Length == TEAM_SIZE && member != pos && ClassesValid(member[..])
    requires members == Count(member[..])
    modifies member, pos
    ensures pos[..] == Tidied(old(member[..]), old(pos[..]))
    ensures ends <==> Stranded(old(member[..]), old(pos[..])) == 0
  {
    var count := members;
    ghost var m: Team, p: Team := member[..], pos[..];
    ghost var result, stranded := Tidied(m, p), Stranded(m, p);
    while count > 0
      invariant m == member[..] && p == pos[..] && ClassesValid(m) && count == Count(m)
      invariant Tidied(m, p) == result && Stranded(m, p) == stranded
      decreases count
    {
      var i, k := FindBest(member, pos);
      if i < 0 {
        NothingOpen(m, p);
        return false;
      }
      RoundTidies(m, p);
      pos[k] := member[i];
      member[i] := NOBODY;
      m, p := m[i := NOBODY], p[k := m[i]];
      assert member[..] == m && pos[..] == p;
      count := count - 1;
    }
    NothingLeft(m, p);
    NothingOpen(m, p);
    ends := true;
  }

  /**
   Tidies the members of `raw` onto the free positions of `pos` and says whether
   anybody's position changed. An invalid class or an empty team changes nothing. It
   returns unless there are more members than free positions.
   */
  method TidyTeamPos(raw: array<Member>, pos: array<Member>) returns (moved: bool, ends: bool)
    requires raw.Length == pos.Length == TEAM_SIZE && raw != pos
    modifies pos
    ensures !ClassesValid(raw[..]) || Count(raw[..]) == 0 ==> ends && !moved && pos[..] == old(pos[..])
    ensures ClassesValid(raw[..]) && Count(raw[..]) > 0 ==>
              && (ends <==> Count(raw[..]) + Count(old(pos[..])) <= TEAM_SIZE)
              && pos[..] == Tidied(raw[..], old(pos[..]))
              && (ends ==> (moved <==> exists i :: 0 <= i < TEAM_SIZE && raw[i].roleid != pos[i].roleid))
  {
    var count, valid := CountMembers(raw);
    if !valid || count <= 0 {
      return false, true;
    }
    EndsExactly(raw[..], pos[..]);
    var member := new Member[TEAM_SIZE](i requires 0 <= i < raw.Length reads raw => raw[i]);
    assert member[..] == raw[..];
    ends := PlaceAll(member, pos, count);
    if !ends {
      return false, false;
    }
    ghost var result := pos[..];
    for i := 0 to TEAM_SIZE
      invariant pos[..] == result
      invariant forall j :: 0 <= j < i ==> raw[j].roleid == pos[j].roleid
    {
      if raw[i].roleid != pos[i].roleid {
        return true, true;
      }
    }
    return false, true;
  }
}
