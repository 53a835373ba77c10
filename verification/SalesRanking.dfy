/**
 The sales ranking: a multimap from units sold to goods, in descending order. Its
 comparison also holds between equal keys, so a new entry goes before all entries that
 have sold as much or less.
 */
module SalesRanking {
  import opened Sequences

  type Id = int

  datatype Sale = Sale(units: int, id: Id)

  type Ranking = seq<Sale>

  predicate Descending(r: Ranking) {
    forall i, j :: 0 <= i < j < |r| ==> r[i].units >= r[j].units
  }

  predicate OneEach(r: Ranking) {
    forall i, j :: 0 <= i < j < |r| ==> r[i].id != r[j].id
  }

  /** The first entry of a good from i on, or the end. */
  function IndexFrom(r: Ranking, id: Id, i: nat): (k: nat)
    requires i <= |r|
    ensures i <= k <= |r| && (k < |r| ==> r[k].id == id)
    ensures forall j :: i <= j < k ==> r[j].id != id
    decreases |r| - i
  {
    if i == |r| || r[i].id == id then i else IndexFrom(r, id, i + 1)
  }

  /** Where a new entry goes: before the first that has sold no more. */
  function PlaceFrom(r: Ranking, units: int, i: nat): (k: nat)
    requires i <= |r|
    ensures i <= k <= |r| && (k < |r| ==> r[k].units <= units)
    ensures forall j :: i <= j < k ==> r[j].units > units
    decreases |r| - i
  {
    if i == |r| || r[i].units <= units then i else PlaceFrom(r, units, i + 1)
  }

  function Put(r: Ranking, e: Sale): Ranking {
    Spliced(r, PlaceFrom(r, e.units, 0), e)
  }

  predicate Has(r: Ranking, id: Id) {
    IndexFrom(r, id, 0) < |r|
  }

  function UnitsOf(r: Ranking, id: Id): int {
    var k := IndexFrom(r, id, 0);
    if k < |r| then r[k].units else 0
  }

  /** The entry of a good is taken out and put back with its new total. */
  function Updated(r: Ranking, id: Id, units: int): Ranking {
    var k := IndexFrom(r, id, 0);
    if k < |r| then Put(Without(r, k), Sale(r[k].units + units, id)) else Put(r, Sale(units, id))
  }

  /** The ranking without a good. */
  function Others(r: Ranking, id: Id): Ranking {
    var k := IndexFrom(r, id, 0);
    if k < |r| then Without(r, k) else r
  }

  lemma UnitsAt(r: Ranking, k: nat)
    requires OneEach(r) && k < |r|
    ensures IndexFrom(r, r[k].id, 0) == k && UnitsOf(r, r[k].id) == r[k].units && Has(r, r[k].id)
  {
  }

  /** `s` is `r` with `e` put in at k; and so `r` is `s` with position k left out. */
  ghost predicate Widened(r: Ranking, e: Sale, k: nat, s: Ranking) {
    && k <= |r| && |s| == |r| + 1 && s[k] == e
    && (forall j :: 0 <= j < k ==> s[j] == r[j])
    && (forall j :: k <= j < |r| ==> s[j + 1] == r[j])
  }

  lemma WidenedUnits(r: Ranking, e: Sale, k: nat, s: Ranking, g: Id)
    requires Widened(r, e, k, s) && OneEach(s)
    ensures UnitsOf(s, g) == if g == e.id then e.units else UnitsOf(r, g)
    ensures Has(s, g) <==> Has(r, g) || g == e.id
    ensures !Has(r, e.id)
  {
    forall t | 0 <= t < |s| && t != k ensures s[t] == r[if t < k then t else t - 1] {
      assert t < k || s[(t - 1) + 1] == r[t - 1];
    }
    assert forall j :: 0 <= j < |r| ==> r[j].id != e.id;
    var i := IndexFrom(r, g, 0);
    if g == e.id {
      UnitsAt(s, k);
    } else if i < |r| {
      UnitsAt(s, if i < k then i else i + 1);
    }
  }

  lemma WithoutOne(r: Ranking, k: nat)
    requires Descending(r) && OneEach(r) && k < |r|
    ensures Descending(Without(r, k)) && OneEach(Without(r, k))
    ensures Widened(Without(r, k), r[k], k, r)
  {
    var s := Without(r, k);
    assert forall j :: 0 <= j < |s| ==> s[j] == r[if j < k then j else j + 1];
  }

  lemma PutDescends(r: Ranking, e: Sale, k: nat, s: Ranking)
    requires Widened(r, e, k, s) && Descending(r) && k == PlaceFrom(r, e.units, 0)
    ensures Descending(s)
    ensures forall j :: 0 <= j < |s| && s[j].units == e.units ==> k <= j
  {
    forall j | k < j < |s| ensures s[j] == r[j - 1] && s[j].units <= e.units {
      assert s[(j - 1) + 1] == r[j - 1];
      assert j - 1 == k || r[k].units >= r[j - 1].units;
    }
    forall i, j | 0 <= i < j < |s| ensures s[i].units >= s[j].units {
      if j < k { assert r[i].units >= r[j].units; }
      else if j == k {}
      else if i == k {}
      else { assert r[if i < k then i else i - 1].units >= r[j - 1].units || i == k; }
    }
  }

  lemma PutOneEach(r: Ranking, e: Sale, k: nat, s: Ranking)
    requires Widened(r, e, k, s) && OneEach(r) && !Has(r, e.id)
    ensures OneEach(s)
  {
    forall j | k < j < |s| ensures s[j] == r[j - 1] { assert s[(j - 1) + 1] == r[j - 1]; }
    assert forall j :: 0 <= j < |r| ==> r[j].id != e.id;
  }

  lemma PutOne(r: Ranking, e: Sale)
    requires Descending(r) && OneEach(r) && !Has(r, e.id)
    ensures var s, k := Put(r, e), PlaceFrom(r, e.units, 0);
            && Descending(s) && OneEach(s) && Widened(r, e, k, s) && Others(s, e.id) == r
            && forall j :: 0 <= j < |s| && s[j].units == e.units ==> IndexFrom(s, e.id, 0) <= j
  {
    var s, k := Put(r, e), PlaceFrom(r, e.units, 0);
    PutDescends(r, e, k, s);
    PutOneEach(r, e, k, s);
    UnitsAt(s, k);
  }

  /**
   A sale adds to the total of one good and of no other; the ranking stays in order with
   one entry for each good; the other goods keep their places among themselves; and the
   good just sold comes first among those that have sold as much.
   */
  lemma SaleRanked(r: Ranking, id: Id, units: int, s: Ranking, g: Id)
    requires Descending(r) && OneEach(r) && s == Updated(r, id, units)
    ensures Descending(s) && OneEach(s) && Others(s, id) == Others(r, id)
    ensures UnitsOf(s, g) == UnitsOf(r, g) + if g == id then units else 0
    ensures Has(s, g) <==> Has(r, g) || g == id
    ensures forall j :: 0 <= j < |s| && s[j].units == UnitsOf(r, id) + units ==> IndexFrom(s, id, 0) <= j
  {
    var k, rest, e := IndexFrom(r, id, 0), Others(r, id), Sale(UnitsOf(r, id) + units, id);
    OthersLack(r, id);
    if k < |r| {
      WithoutOne(r, k);
    }
    PutOne(rest, e);
    assert s == Put(rest, e);
    WidenedUnits(rest, e, PlaceFrom(rest, e.units, 0), s, g);
    if k < |r| {
      WidenedUnits(rest, r[k], k, r, g);
    }
  }

  lemma OthersLack(r: Ranking, id: Id)
    requires Descending(r) && OneEach(r)
    ensures !Has(Others(r, id), id)
  {
    var k := IndexFrom(r, id, 0);
    if k < |r| {
      WithoutOne(r, k);
      WidenedUnits(Without(r, k), r[k], k, r, id);
    }
  }

  const TOP := 5

  function Top(r: Ranking): seq<Id> {
    seq(if |r| < TOP then |r| else TOP, i requires 0 <= i < |r| => r[i].id)
  }

  /** The listed goods are distinct, best first, and no good left out has sold more than one listed. */
  lemma TopAreBest(r: Ranking, g: Id)
    requires Descending(r) && OneEach(r)
    ensures forall i, j :: 0 <= i < j < |Top(r)| ==>
              Top(r)[i] != Top(r)[j] && UnitsOf(r, Top(r)[i]) >= UnitsOf(r, Top(r)[j])
    ensures forall i :: 0 <= i < |Top(r)| ==> Has(r, Top(r)[i])
    ensures Has(r, g) && g !in Top(r) ==>
              |Top(r)| == TOP && forall i :: 0 <= i < TOP ==> UnitsOf(r, Top(r)[i]) >= UnitsOf(r, g)
  {
    forall k | 0 <= k < |r| ensures UnitsOf(r, r[k].id) == r[k].units && Has(r, r[k].id) {
      UnitsAt(r, k);
    }
    var k := IndexFrom(r, g, 0);
    if k < |Top(r)| {
      assert Top(r)[k] == g;
    }
  }
}
