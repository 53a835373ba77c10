/**
 Monster drops: repeated weighted draws from a table in which a row may be marked
 to drop only once. A drawn row that passes the uniqueness test leaves the two
 parallel arrays of weights and row numbers, and the rest is renormalised. The test
 reads the table at the *position* drawn, not at the row drawn; the two differ as
 soon as a row has left.
 */
module DropTable {
  import opened Numbers
  import opened Sequences
  import opened RandomSelect

  const MAX_PROB_SIZE := 256
  const MAX_ROWS := 64

  datatype Row = Row(item: int, count: int, prob: int, unique: bool)
  datatype Template = Template(table: seq<Row>, times: int)
  datatype Drop = Drop(item: int, count: int)
  datatype Option<T> = None | Some(value: T)

  /** The data check a template passes when it is loaded. */
  ghost predicate ValidTemplate(t: Template) {
    && t.times > 0
    && |t.table| <= MAX_ROWS
    && (forall i :: 0 <= i < |t.table| ==>
          t.table[i].item > 0 && t.table[i].count > 0 && 0 < t.table[i].prob <= TEN_THOUSAND)
    && ((forall i :: 0 <= i < |t.table| ==> t.table[i].unique) ==> t.times <= |t.table|)
    && (t.table != [] ==> WeightsSum(t.table))
  }

  function Weights(table: seq<Row>): (w: seq<int>)
    ensures |w| == |table|
  {
    seq(|table|, i requires 0 <= i < |table| => table[i].prob)
  }

  ghost predicate WeightsSum(table: seq<Row>) {
    Total(Weights(table)) == TEN_THOUSAND
  }

  ghost predicate ValidTable(table: seq<Row>) {
    table != [] && Positive(Weights(table)) && WeightsSum(table)
  }

  /** What is left to draw from: weights and, beside each, the row it belongs to. */
  datatype Pool = Pool(values: seq<int>, rows: seq<nat>)

  ghost predicate Ok(n: nat, p: Pool) {
    && |p.values| == |p.rows| <= n
    && Positive(p.values)
    && (p.rows != [] ==> Total(p.values) == TEN_THOUSAND)
    && (forall i, j :: 0 <= i < j < |p.rows| ==> p.rows[i] < p.rows[j])
    && (forall i :: 0 <= i < |p.rows| ==> i <= p.rows[i] < n)
  }

  function Start(table: seq<Row>): Pool {
    Pool(Weights(table), seq(|table|, i => i))
  }

  lemma StartOk(table: seq<Row>)
    requires ValidTable(table)
    ensures Ok(|table|, Start(table))
  {
  }

  /** Taking position `i` out keeps the pool valid, whichever row stood there. */
  function Removed(ghost n: nat, p: Pool, i: nat, short: (int, int) -> bool): (q: Pool)
    requires Ok(n, p) && i < |p.rows|
    ensures Ok(n, q)
    ensures q.rows == Without(p.rows, i)
    ensures q.rows != [] ==>
              Total(Without(p.values, i)) > 0 && q.values == Normalized(Without(p.values, i), short)
  {
    var values, rows := Without(p.values, i), Without(p.rows, i);
    if rows == [] then Pool(values, rows) else
      RenormalisedAfterRemoval(p.values, i, short);
      Pool(Normalized(values, short), rows)
  }

  /**
   What one draw leaves. With `byRow` the uniqueness test reads the row that was
   drawn, as the data promises; without it, it reads the position, as the code does.
   */
  function Next(table: seq<Row>, p: Pool, draw: int, short: (int, int) -> bool, byRow: bool): (q: Pool)
    requires Ok(|table|, p) && p.rows != []
    ensures Ok(|table|, q)
  {
    var i := Select(p.values, draw);
    if table[if byRow then p.rows[i] else i].unique then Removed(|table|, p, i, short) else p
  }

  function Drawn(p: Pool, draw: int): (row: nat)
    requires |p.values| == |p.rows| > 0
  {
    p.rows[Select(p.values, draw)]
  }

  /** The rows dropped for a sequence of draws. */
  function Run(table: seq<Row>, p: Pool, draws: seq<int>, short: (int, int) -> bool, byRow: bool): (out: seq<nat>)
    requires Ok(|table|, p)
    ensures forall k :: 0 <= k < |out| ==> out[k] < |table|
    decreases |draws|
  {
    if draws == [] || p.rows == [] then [] else
      var rest := Run(table, Next(table, p, draws[0], short, byRow), draws[1..], short, byRow);
      [Drawn(p, draws[0])] + rest
  }

  lemma {:induction false} RunWithin(table: seq<Row>, p: Pool, draws: seq<int>,
                                     short: (int, int) -> bool, byRow: bool, row: nat)
    requires Ok(|table|, p) && row in Run(table, p, draws, short, byRow)
    ensures row in p.rows
    decreases |draws|
  {
    if row != Drawn(p, draws[0]) {
      var q := Next(table, p, draws[0], short, byRow);
      RunWithin(table, q, draws[1..], short, byRow, row);
      assert row in q.rows;
    }
  }

  predicate InRange(draws: seq<int>) {
    forall i :: 0 <= i < |draws| ==> 1 <= draws[i] <= TEN_THOUSAND
  }

  function Drops(table: seq<Row>, draws: seq<int>, short: (int, int) -> bool): seq<nat>
    requires ValidTable(table)
  {
    Run(table, Start(table), draws, short, false)
  }

  function Promised(table: seq<Row>, draws: seq<int>, short: (int, int) -> bool): seq<nat>
    requires ValidTable(table)
  {
    Run(table, Start(table), draws, short, true)
  }

  // ---- How likely a row is ----

  /** Out of the 10000 draws exactly its current weight drop a row that is still there. */
  lemma RowDraws(n: nat, p: Pool, k: nat)
    requires Ok(n, p) && k < |p.rows|
    ensures |set d | 1 <= d <= TEN_THOUSAND && Drawn(p, d) == p.rows[k]| == p.values[k]
  {
    DrawsSelectingCount(p.values, k);
    assert (set d | 1 <= d <= TEN_THOUSAND && Drawn(p, d) == p.rows[k]) == DrawsSelecting(p.values, k);
  }

  /** At first that is the probability in the data. */
  lemma FirstDraws(table: seq<Row>, row: nat)
    requires ValidTable(table) && row < |table|
    ensures |set d | 1 <= d <= TEN_THOUSAND && Drawn(Start(table), d) == row| == table[row].prob
  {
    StartOk(table);
    RowDraws(|table|, Start(table), row);
  }

  /**
   When a row leaves, the others keep their order and, up to rounding, the proportions of
   their weights.
   */
  lemma SharesAfterRemoval(n: nat, p: Pool, i: nat, short: (int, int) -> bool, k: nat)
    requires Ok(n, p) && i < |p.rows| && k < |p.rows| - 1
    ensures var q, j := Removed(n, p, i, short), if k < i then k else k + 1;
            var total, x := TEN_THOUSAND - p.values[i], p.values[j] * TEN_THOUSAND;
            && |q.rows| == |q.values| == |p.rows| - 1 && q.rows[k] == p.rows[j]
            && x - total <= total * q.values[k] <= x + (|q.rows| - 1) * total
  {
    ghost var v, q := Without(p.values, i), Removed(n, p, i, short);
    PrefixWithout(p.values, i, |p.values|);
    assert Total(v) == TEN_THOUSAND - p.values[i] && q.values == Normalized(v, short);
    SharesKept(v, short, k);
    assert v[k] == p.values[if k < i then k else k + 1];
  }

  /** No row that is marked unique occurs twice. */
  ghost predicate UniqueOnce(table: seq<Row>, out: seq<nat>) {
    forall a, b :: 0 <= a < b < |out| && out[a] == out[b] ==>
      out[a] < |table| && !table[out[a]].unique
  }

  /** The unique rows stand in one block. */
  predicate UniqueContiguous(table: seq<Row>) {
    forall i, j, k :: 0 <= i < j < k < |table| && table[i].unique && table[k].unique ==> table[j].unique
  }

  /** No unique row stands before one that is not. */
  predicate UniqueLast(table: seq<Row>) {
    forall i, j :: 0 <= i < j < |table| && table[i].unique ==> table[j].unique
  }

  ghost predicate NoneUnique(table: seq<Row>, r: nat) {
    r < |table| && forall q :: 0 <= q <= r ==> !table[q].unique
  }

  /** The rows before the first unique one are still at their places. */
  ghost predicate FrontKept(table: seq<Row>, p: Pool) {
    forall r: nat :: NoneUnique(table, r) ==> r < |p.rows| && p.rows[r] == r
  }

  lemma FrontSurvives(table: seq<Row>, p: Pool, i: nat, short: (int, int) -> bool)
    requires Ok(|table|, p) && FrontKept(table, p) && i < |p.rows| && table[i].unique
    ensures FrontKept(table, Removed(|table|, p, i, short))
  {
    forall r: nat | NoneUnique(table, r)
      ensures r < |p.rows| - 1 && Without(p.rows, i)[r] == r
    {
      assert r < i;
    }
  }

  /** With the unique rows in one block the test never misses a unique row. */
  lemma TestCatchesUnique(table: seq<Row>, p: Pool, i: nat)
    requires Ok(|table|, p) && FrontKept(table, p) && UniqueContiguous(table)
    requires i < |p.rows| && table[p.rows[i]].unique
    ensures table[i].unique
  {
    if NoneUnique(table, i) {
      assert p.rows[i] == i;
    }
  }

  lemma UniqueOnceCons(table: seq<Row>, row: nat, rest: seq<nat>)
    requires row < |table| && UniqueOnce(table, rest)
    requires table[row].unique ==> row !in rest
    ensures UniqueOnce(table, [row] + rest)
  {
  }

  lemma ContiguousStep(table: seq<Row>, p: Pool, draw: int, short: (int, int) -> bool)
    requires Ok(|table|, p) && FrontKept(table, p) && UniqueContiguous(table) && p.rows != []
    ensures var q := Next(table, p, draw, short, false);
            FrontKept(table, q) && (table[Drawn(p, draw)].unique ==> Drawn(p, draw) !in q.rows)
  {
    var i := Select(p.values, draw);
    if table[p.rows[i]].unique {
      TestCatchesUnique(table, p, i);
    }
    if table[i].unique {
      FrontSurvives(table, p, i, short);
    }
  }

  lemma {:induction false} ContiguousRuns(table: seq<Row>, p: Pool, draws: seq<int>, short: (int, int) -> bool)
    requires Ok(|table|, p) && FrontKept(table, p) && UniqueContiguous(table)
    ensures UniqueOnce(table, Run(table, p, draws, short, false))
    decreases |draws|
  {
    if draws != [] && p.rows != [] {
      var q := Next(table, p, draws[0], short, false);
      ContiguousStep(table, p, draws[0], short);
      ContiguousRuns(table, q, draws[1..], short);
      if Drawn(p, draws[0]) in Run(table, q, draws[1..], short, false) {
        RunWithin(table, q, draws[1..], short, false, Drawn(p, draws[0]));
      }
      UniqueOnceCons(table, Drawn(p, draws[0]), Run(table, q, draws[1..], short, false));
    }
  }

  lemma UniqueLastStep(table: seq<Row>, p: Pool, draw: int, short: (int, int) -> bool)
    requires Ok(|table|, p) && FrontKept(table, p) && UniqueLast(table) && p.rows != []
    ensures Next(table, p, draw, short, false) == Next(table, p, draw, short, true)
  {
    var i := Select(p.values, draw);
    assert i <= p.rows[i];
    if table[p.rows[i]].unique {
      TestCatchesUnique(table, p, i);
    }
  }

  lemma {:induction false} UniqueLastRuns(table: seq<Row>, p: Pool, draws: seq<int>, short: (int, int) -> bool)
    requires Ok(|table|, p) && FrontKept(table, p) && UniqueLast(table)
    ensures Run(table, p, draws, short, false) == Run(table, p, draws, short, true)
    decreases |draws|
  {
    if draws != [] && p.rows != [] {
      UniqueLastStep(table, p, draws[0], short);
      ContiguousStep(table, p, draws[0], short);
      UniqueLastRuns(table, Next(table, p, draws[0], short, false), draws[1..], short);
    }
  }

  lemma OneDraw(table: seq<Row>, p: Pool, draws: seq<int>, short: (int, int) -> bool, byRow: bool)
    requires Ok(|table|, p) && |draws| <= 1
    ensures Run(table, p, draws, short, byRow) ==
            if draws == [] || p.rows == [] then [] else [Drawn(p, draws[0])]
  {
    if draws != [] {
      assert draws[1..] == [];
    }
  }

  lemma LastDraw(table: seq<Row>, q: Pool, draws: seq<int>, short: (int, int) -> bool) returns (out: seq<nat>)
    requires Ok(|table|, q) && |draws| <= 1
    ensures out == Run(table, q, draws, short, false) == Run(table, q, draws, short, true)
    ensures UniqueOnce(table, out) && forall row :: row in out ==> row in q.rows
  {
    OneDraw(table, q, draws, short, false);
    OneDraw(table, q, draws, short, true);
    out := if draws == [] || q.rows == [] then [] else [Drawn(q, draws[0])];
  }

  /** While no row has left, the position drawn is the row drawn. */
  lemma FirstTestAgrees(table: seq<Row>, p: Pool, draw: int, short: (int, int) -> bool, q: Pool)
    requires Ok(|table|, p) && p.rows != [] && p == Start(table) && q == Next(table, p, draw, short, false)
    ensures q == Next(table, p, draw, short, true)
    ensures table[Drawn(p, draw)].unique ==> Drawn(p, draw) !in q.rows
  {
    assert Drawn(p, draw) == Select(p.values, draw);
  }

  /** Two draws never show the difference: the first test is made before any row left. */
  lemma TwoDraws(table: seq<Row>, draws: seq<int>, short: (int, int) -> bool)
    requires ValidTable(table) && |draws| <= 2
    ensures UniqueOnce(table, Drops(table, draws, short))
    ensures Drops(table, draws, short) == Promised(table, draws, short)
  {
    StartOk(table);
    if draws != [] {
      ghost var p := Start(table);
      ghost var x, q, later := Drawn(p, draws[0]), Next(table, p, draws[0], short, false), draws[1..];
      FirstTestAgrees(table, p, draws[0], short, q);
      ghost var out := LastDraw(table, q, later, short);
      RunUnfolds(table, p, draws, short, false);
      RunUnfolds(table, p, draws, short, true);
      assert Drops(table, draws, short) == [x] + out == Promised(table, draws, short);
      UniqueOnceCons(table, x, out);
    }
  }

  lemma {:induction false} UniqueStepUp(table: seq<Row>, j: nat, k: nat) returns (m: nat)
    requires j < k < |table| && !table[j].unique && table[k].unique
    ensures j <= m < k && !table[m].unique && table[m + 1].unique
    decreases k - j
  {
    if table[j + 1].unique {
      m := j;
    } else {
      m := UniqueStepUp(table, j + 1, k);
    }
  }

  lemma {:induction false} UniqueStepDown(table: seq<Row>, i: nat, j: nat) returns (m: nat)
    requires i < j < |table| && table[i].unique && !table[j].unique
    ensures i <= m < j && table[m].unique && !table[m + 1].unique
    decreases j - i
  {
    if !table[i + 1].unique {
      m := i;
    } else {
      m := UniqueStepDown(table, i + 1, j);
    }
  }

  /** Draws that take the unique row `i` first and then twice aim at position `m`. */
  lemma AimedDraws(table: seq<Row>, i: nat, m: nat, times: nat, short: (int, int) -> bool)
    returns (draws: seq<int>, q: Pool)
    requires ValidTable(table) && times >= 3
    requires i <= m && m + 1 < |table| && table[i].unique
    ensures |draws| == times && InRange(draws) && draws[1] == draws[2]
    ensures Ok(|table|, Start(table)) && Ok(|table|, q)
    ensures q == Next(table, Start(table), draws[0], short, false)
    ensures q == Next(table, Start(table), draws[0], short, true)
    ensures m < |q.rows| && q.rows[m] == m + 1 && Select(q.values, draws[1]) == m
  {
    StartOk(table);
    var p := Start(table);
    q := Removed(|table|, p, i, short);
    var first := SelectReaches(p.values, i);
    var second := SelectReaches(q.values, m);
    draws := [first, second, second] + seq(times - 3, _ => 1);
  }

  lemma RunUnfolds(table: seq<Row>, p: Pool, draws: seq<int>, short: (int, int) -> bool, byRow: bool)
    requires Ok(|table|, p) && p.rows != [] && draws != []
    ensures Run(table, p, draws, short, byRow) ==
            [Drawn(p, draws[0])] + Run(table, Next(table, p, draws[0], short, byRow), draws[1..], short, byRow)
  {
  }

  /** The second and third drop, given the pools that the first two draws leave. */
  lemma ThirdDrop(table: seq<Row>, p: Pool, q: Pool, q': Pool, draws: seq<int>, short: (int, int) -> bool, byRow: bool)
    requires |draws| >= 3
    requires Ok(|table|, p) && p.rows != [] && q == Next(table, p, draws[0], short, byRow)
    requires q.rows != [] && q' == Next(table, q, draws[1], short, byRow)
    ensures var out := Run(table, p, draws, short, byRow);
            && |out| >= 2 && out[1] == Drawn(q, draws[1])
            && (q'.rows != [] ==> |out| >= 3 && out[2] == Drawn(q', draws[2]))
            && (q'.rows == [] ==> |out| == 2)
  {
    var rest, rest' := draws[1..], draws[2..];
    assert rest[0] == draws[1] && rest[1..] == rest' && rest'[0] == draws[2];
    RunUnfolds(table, p, draws, short, byRow);
    RunUnfolds(table, q, rest, short, byRow);
    if q'.rows != [] {
      RunUnfolds(table, q', rest', short, byRow);
    }
  }

  lemma KeptRepeats(table: seq<Row>, p: Pool, q: Pool, m: nat, draws: seq<int>, short: (int, int) -> bool)
    requires |draws| >= 3 && draws[1] == draws[2]
    requires Ok(|table|, p) && p.rows != [] && q == Next(table, p, draws[0], short, false)
    requires m < |q.rows| && Select(q.values, draws[1]) == m
    requires !table[m].unique && table[q.rows[m]].unique
    ensures !UniqueOnce(table, Run(table, p, draws, short, false))
  {
    ThirdDrop(table, p, q, q, draws, short, false);
    var out := Run(table, p, draws, short, false);
    assert out[1] == out[2] == q.rows[m];
  }

  lemma RemovedGone(n: nat, p: Pool, i: nat, short: (int, int) -> bool, draw: int)
    requires Ok(n, p) && i < |p.rows|
    ensures var q := Removed(n, p, i, short); q.rows != [] ==> Drawn(q, draw) != p.rows[i]
  {
    ghost var q := Removed(n, p, i, short);
    if q.rows != [] {
      ghost var k := Select(q.values, draw);
      assert q.rows[k] == p.rows[if k < i then k else k + 1];
    }
  }

  lemma LostDiffers(table: seq<Row>, p: Pool, q: Pool, m: nat, draws: seq<int>, short: (int, int) -> bool)
    requires |draws| >= 3 && draws[1] == draws[2]
    requires Ok(|table|, p) && p.rows != []
    requires q == Next(table, p, draws[0], short, false) == Next(table, p, draws[0], short, true)
    requires m < |q.rows| && Select(q.values, draws[1]) == m
    requires table[m].unique && !table[q.rows[m]].unique
    ensures Run(table, p, draws, short, false) != Run(table, p, draws, short, true)
  {
    ghost var q' := Removed(|table|, q, m, short);
    ghost var here, there := Run(table, p, draws, short, false), Run(table, p, draws, short, true);
    ThirdDrop(table, p, q, q', draws, short, false);
    ThirdDrop(table, p, q, q, draws, short, true);
    RemovedGone(|table|, q, m, short, draws[2]);
    assert |there| >= 3 && there[2] == q.rows[m];
    assert |here| == 2 || here[2] != q.rows[m];
  }

  lemma ScatteredRows(table: seq<Row>) returns (i: nat, m: nat)
    requires !UniqueContiguous(table)
    ensures i <= m && m + 1 < |table| && table[i].unique && !table[m].unique && table[m + 1].unique
  {
    var a: nat, j: nat, k: nat :| a < j < k < |table| && table[a].unique && table[k].unique && !table[j].unique;
    i := a;
    m := UniqueStepUp(table, j, k);
  }

  lemma ScatteredRepeats(table: seq<Row>, times: nat, short: (int, int) -> bool) returns (draws: seq<int>)
    requires ValidTable(table) && times >= 3 && !UniqueContiguous(table)
    ensures |draws| == times && InRange(draws) && !UniqueOnce(table, Drops(table, draws, short))
  {
    var i, m := ScatteredRows(table);
    var q;
    draws, q := AimedDraws(table, i, m, times, short);
    KeptRepeats(table, Start(table), q, m, draws, short);
  }

  lemma {:induction false} MisplacedDiffers(table: seq<Row>, times: nat, short: (int, int) -> bool)
    returns (draws: seq<int>)
    requires ValidTable(table) && times >= 3 && !UniqueLast(table)
    ensures |draws| == times && InRange(draws) && Drops(table, draws, short) != Promised(table, draws, short)
  {
    var i, j :| 0 <= i < j < |table| && table[i].unique && !table[j].unique;
    var m := UniqueStepDown(table, i, j);
    var q;
    draws, q := AimedDraws(table, i, m, times, short);
    LostDiffers(table, Start(table), q, m, draws, short);
  }

  /**
   For a table with at least three drops: no unique row repeats, whatever the draws,
   exactly when the unique rows stand in one block.
   */
  lemma UniqueOnceExactly(table: seq<Row>, times: nat, short: (int, int) -> bool)
    requires ValidTable(table)
    ensures (forall draws :: |draws| == times && InRange(draws) ==> UniqueOnce(table, Drops(table, draws, short)))
            <==> times <= 2 || UniqueContiguous(table)
  {
    StartOk(table);
    if times <= 2 || UniqueContiguous(table) {
      forall draws | |draws| == times && InRange(draws)
        ensures UniqueOnce(table, Drops(table, draws, short))
      {
        if times <= 2 {
          TwoDraws(table, draws, short);
        } else {
          ContiguousRuns(table, Start(table), draws, short);
        }
      }
    } else {
      var draws := ScatteredRepeats(table, times, short);
    }
  }

  const SCATTERED := [Row(1, 1, 4000, true), Row(2, 1, 3000, false), Row(3, 1, 3000, true)]

  lemma ThreeRows(table: seq<Row>)
    requires |table| == 3 && Positive(Weights(table))
    requires table[0].prob + table[1].prob + table[2].prob == TEN_THOUSAND
    ensures WeightsSum(table)
  {
    var w, n := Weights(table), |table|;
    assert Prefix(w, n) == Prefix(w, n - 1) + w[n - 1];
    assert Prefix(w, n - 1) == Prefix(w, n - 2) + w[n - 2];
    assert Prefix(w, n - 2) == Prefix(w, n - 3) + w[n - 3];
  }

  lemma ScatteredValid()
    ensures ValidTemplate(Template(SCATTERED, 3)) && ValidTable(SCATTERED) && !UniqueContiguous(SCATTERED)
  {
    ThreeRows(SCATTERED);
  }

  /** Two unique rows with one between that is not: three draws can drop a unique row twice. */
  lemma ScatteredExample(short: (int, int) -> bool) returns (draws: seq<int>)
    ensures ValidTemplate(Template(SCATTERED, 3))
    ensures |draws| == 3 && InRange(draws) && !UniqueOnce(SCATTERED, Drops(SCATTERED, draws, short))
  {
    ghost var table := SCATTERED;
    ScatteredValid();
    draws := ScatteredRepeats(table, 3, short);
  }

  /**
   The code drops what the test on the drawn row would drop, for all draws, exactly
   when no unique row stands before one that is not (or at most two are dropped).
   */
  lemma PromisedExactly(table: seq<Row>, times: nat, short: (int, int) -> bool)
    requires ValidTable(table)
    ensures (forall draws :: |draws| == times && InRange(draws) ==>
                Drops(table, draws, short) == Promised(table, draws, short))
            <==> times <= 2 || UniqueLast(table)
  {
    StartOk(table);
    if times <= 2 || UniqueLast(table) {
      forall draws | |draws| == times && InRange(draws)
        ensures Drops(table, draws, short) == Promised(table, draws, short)
      {
        if times <= 2 {
          TwoDraws(table, draws, short);
        } else {
          UniqueLastRuns(table, Start(table), draws, short);
        }
      }
    } else {
      var draws := MisplacedDiffers(table, times, short);
    }
  }

  ghost predicate Distinct(out: seq<nat>) {
    forall a, b :: 0 <= a < b < |out| ==> out[a] != out[b]
  }

  lemma DrawnLeaves(table: seq<Row>, p: Pool, draw: int, short: (int, int) -> bool)
    requires Ok(|table|, p) && p.rows != [] && forall i :: 0 <= i < |table| ==> table[i].unique
    ensures var q := Next(table, p, draw, short, false);
            |q.rows| == |p.rows| - 1 && Drawn(p, draw) !in q.rows
  {
  }

  lemma DistinctCons(row: nat, rest: seq<nat>)
    requires Distinct(rest) && row !in rest
    ensures Distinct([row] + rest)
  {
  }

  lemma {:induction false} AllUniqueRuns(table: seq<Row>, p: Pool, draws: seq<int>, short: (int, int) -> bool)
    requires Ok(|table|, p) && forall i :: 0 <= i < |table| ==> table[i].unique
    ensures var out := Run(table, p, draws, short, false);
            |out| == Min(|draws|, |p.rows|) && Distinct(out)
    decreases |draws|
  {
    if draws != [] && p.rows != [] {
      ghost var q, row := Next(table, p, draws[0], short, false), Drawn(p, draws[0]);
      DrawnLeaves(table, p, draws[0], short);
      RunUnfolds(table, p, draws, short, false);
      AllUniqueRuns(table, q, draws[1..], short);
      ghost var rest := Run(table, q, draws[1..], short, false);
      if row in rest {
        RunWithin(table, q, draws[1..], short, false, row);
      }
      DistinctCons(row, rest);
    }
  }

  /** A table of unique rows gives min(times, rows) drops from pairwise distinct rows. */
  lemma AllUniqueDistinct(table: seq<Row>, draws: seq<int>, short: (int, int) -> bool)
    requires ValidTable(table) && forall i :: 0 <= i < |table| ==> table[i].unique
    ensures var out := Drops(table, draws, short);
            |out| == Min(|draws|, |table|) && Distinct(out)
  {
    StartOk(table);
    AllUniqueRuns(table, Start(table), draws, short);
  }

  // ---- How many drops ----

  lemma {:induction false} RunLength(table: seq<Row>, p: Pool, draws: seq<int>, short: (int, int) -> bool)
    requires Ok(|table|, p) && p.rows != []
    ensures Min(|draws|, |p.rows|) <= |Run(table, p, draws, short, false)| <= |draws|
    ensures !table[0].unique ==> |Run(table, p, draws, short, false)| == |draws|
    decreases |draws|
  {
    if draws != [] {
      var q := Next(table, p, draws[0], short, false);
      RunUnfolds(table, p, draws, short, false);
      if q.rows != [] {
        RunLength(table, q, draws[1..], short);
      }
    }
  }

  /** Draws of 1 always take the first row that is left. */
  lemma {:induction false} FirstRows(table: seq<Row>, p: Pool, draws: seq<int>, short: (int, int) -> bool)
    requires Ok(|table|, p) && p.rows != [] && table[0].unique
    requires forall i :: 0 <= i < |draws| ==> draws[i] == 1
    ensures |Run(table, p, draws, short, false)| == Min(|draws|, |p.rows|)
    decreases |draws|
  {
    if draws != [] {
      FirstTaken(table, p, draws[0], short);
      var q := Next(table, p, draws[0], short, false);
      RunUnfolds(table, p, draws, short, false);
      if q.rows != [] {
        FirstRows(table, q, draws[1..], short);
      }
    }
  }

  lemma FirstTaken(table: seq<Row>, p: Pool, draw: int, short: (int, int) -> bool)
    requires Ok(|table|, p) && p.rows != [] && table[0].unique && draw == 1
    ensures |Next(table, p, draw, short, false).rows| == |p.rows| - 1
  {
    assert p.values[0] >= 1 && SelectFrom(p.values, 0, draw) == 0;
  }

  /**
   The table is drawn from as often as the template says, whatever the draws, exactly when
   it has that many rows or its first row may repeat.
   */
  lemma AllTimesExactly(table: seq<Row>, times: nat, short: (int, int) -> bool)
    requires ValidTable(table)
    ensures (forall draws :: |draws| == times && InRange(draws) ==> |Drops(table, draws, short)| == times)
            <==> times <= |table| || !table[0].unique
  {
    StartOk(table);
    ghost var p := Start(table);
    if times <= |table| || !table[0].unique {
      forall draws | |draws| == times && InRange(draws) ensures |Drops(table, draws, short)| == times {
        RunLength(table, p, draws, short);
      }
    } else {
      ghost var draws := seq(times, _ => 1);
      assert InRange(draws);
      FirstRows(table, p, draws, short);
    }
  }

  const DRAINED := [Row(1, 1, 5000, true), Row(2, 1, 5000, false)]

  lemma DrainedValid()
    ensures ValidTemplate(Template(DRAINED, 3)) && ValidTable(DRAINED) && DRAINED[0].unique && |DRAINED| == 2
  {
    ghost var w, n := Weights(DRAINED), |DRAINED|;
    assert Prefix(w, n) == Prefix(w, n - 1) + w[n - 1];
    assert Prefix(w, n - 1) == Prefix(w, n - 2) + w[n - 2];
  }

  /** A template for three drops that passes the data check: with some draws the table is empty after two. */
  lemma DrainedExample(short: (int, int) -> bool)
    ensures ValidTemplate(Template(DRAINED, 3)) && ValidTable(DRAINED)
    ensures exists draws :: |draws| == 3 && InRange(draws) && |Drops(DRAINED, draws, short)| != 3
  {
    ghost var table := DRAINED;
    DrainedValid();
    AllTimesExactly(table, 3, short);
  }

  function Entries(table: seq<Row>, out: seq<nat>): (r: seq<Drop>)
    requires forall k :: 0 <= k < |out| ==> out[k] < |table|
    ensures |r| == |out|
  {
    seq(|out|, k requires 0 <= k < |out| => Drop(table[out[k]].item, table[out[k]].count))
  }

  /** Moves everything behind position `at` one place down in both arrays. */
  method ShiftDown(value: array<int>, index: array<nat>, size: nat, at: nat)
    requires at < size <= value.Length == index.Length
    modifies value, index
    ensures value[..size - 1] == Without(old(value[..size]), at)
    ensures index[..size - 1] == Without(old(index[..size]), at)
  {
    ghost var v, x := value[..size], index[..size];
    for j := at to size - 1
      invariant forall k :: 0 <= k < size ==> value[k] == v[if at <= k < j then k + 1 else k]
      invariant forall k :: 0 <= k < size ==> index[k] == x[if at <= k < j then k + 1 else k]
    {
      value[j] := value[j + 1];
      index[j] := index[j + 1];
    }
    value[size - 1] := 0;
    index[size - 1] := 0;
  }

  /** Takes position `at` out of both arrays and renormalises what is left. */
  method RemoveRow(value: array<int>, index: array<nat>, size: nat, at: nat, ghost n: nat, short: (int, int) -> bool)
    returns (left: nat)
    requires at < size <= value.Length == index.Length
    requires Ok(n, Pool(value[..size], index[..size]))
    modifies value, index
    ensures left == size - 1
    ensures Pool(value[..left], index[..left]) == Removed(n, old(Pool(value[..size], index[..size])), at, short)
  {
    ghost var p := Pool(value[..size], index[..size]);
    ghost var q := Removed(n, p, at, short);
    left := size - 1;
    ShiftDown(value, index, size, at);
    ghost var w := value[..left];
    assert w == Without(p.values, at) && Positive(w);
    forall i | 0 <= i < left ensures value[i] > 0 {
      assert value[i] == w[i];
    }
    if left > 0 {
      Normalization(value, left, short);
    }
  }

  lemma OkWeights(n: nat, p: Pool)
    requires Ok(n, p) && p.rows != []
    ensures forall k :: 0 <= k < |p.values| ==> 0 <= p.values[k] <= TEN_THOUSAND
  {
    forall k | 0 <= k < |p.values| ensures p.values[k] <= TEN_THOUSAND {
      EachBelowTotal(p.values, k);
    }
  }

  method CopyTable(table: seq<Row>) returns (value: array<int>, index: array<nat>)
    requires |table| <= MAX_ROWS
    ensures fresh(value) && fresh(index) && value.Length == index.Length == MAX_PROB_SIZE
    ensures Pool(value[..|table|], index[..|table|]) == Start(table)
  {
    value := new int[MAX_PROB_SIZE](_ => 0);
    index := new nat[MAX_PROB_SIZE](_ => 0);
    for i := 0 to |table|
      invariant forall k :: 0 <= k < i ==> value[k] == table[k].prob && index[k] == k
    {
      value[i] := table[i].prob;
      index[i] := i;
    }
  }

  /** One round of the loop: select, and remove the row if the test says so. */
  method DrawOnce(table: seq<Row>, value: array<int>, index: array<nat>, size: nat, draw: int,
                  short: (int, int) -> bool)
    returns (row: nat, left: nat)
    requires 0 < size <= |table| <= MAX_ROWS && size <= value.Length == index.Length
    requires Ok(|table|, Pool(value[..size], index[..size]))
    requires 1 <= draw <= TEN_THOUSAND
    modifies value, index
    ensures left <= size
    ensures row == Drawn(old(Pool(value[..size], index[..size])), draw)
    ensures Pool(value[..left], index[..left]) ==
            Next(table, old(Pool(value[..size], index[..size])), draw, short, false)
  {
    ghost var p := Pool(value[..size], index[..size]);
    OkWeights(|table|, p);
    assert forall k :: 0 <= k < size ==> value[k] == p.values[k];
    var at := RandSelect(value, size, draw);
    row := index[at];
    left := size;
    if table[at].unique {
      left := RemoveRow(value, index, size, at, |table|, short);
    }
  }

  function Dropped(table: seq<Row>, p: Pool, draws: seq<int>, short: (int, int) -> bool): seq<Drop>
    requires Ok(|table|, p)
  {
    Entries(table, Run(table, p, draws, short, false))
  }

  lemma DroppedStep(table: seq<Row>, p: Pool, draws: seq<int>, short: (int, int) -> bool)
    requires Ok(|table|, p) && p.rows != [] && draws != []
    ensures var row := Drawn(p, draws[0]);
            Dropped(table, p, draws, short) == [Drop(table[row].item, table[row].count)] +
            Dropped(table, Next(table, p, draws[0], short, false), draws[1..], short)
  {
    RunUnfolds(table, p, draws, short, false);
  }

  lemma DroppedEnds(table: seq<Row>, p: Pool, draws: seq<int>, short: (int, int) -> bool)
    requires Ok(|table|, p) && (p.rows == [] || draws == [])
    ensures Dropped(table, p, draws, short) == []
  {
  }

  lemma Appended<T>(s: seq<T>, x: T, rest: seq<T>)
    ensures s + ([x] + rest) == (s + [x]) + rest
  {
  }

  method DrawAll(table: seq<Row>, value: array<int>, index: array<nat>, draws: seq<int>,
                 ghost start: Pool, short: (int, int) -> bool)
    returns (items: seq<Drop>)
    requires 0 < |table| <= MAX_ROWS && |table| <= value.Length == index.Length
    requires start == Pool(value[..|table|], index[..|table|]) && Ok(|table|, start)
    requires InRange(draws)
    modifies value, index
    ensures items == Dropped(table, start, draws, short)
  {
    items := [];
    var size := |table|;
    ghost var p, tail := start, draws;
    ghost var all := Dropped(table, start, draws, short);
    ghost var rest := all;
    for count := 0 to |draws|
      invariant 0 < size <= |table|
      invariant p == Pool(value[..size], index[..size]) && Ok(|table|, p)
      invariant tail == draws[count..] && rest == Dropped(table, p, tail, short)
      invariant items + rest == all
    {
      var row, left := DrawOnce(table, value, index, size, draws[count], short);
      DroppedStep(table, p, tail, short);
      p, tail := Next(table, p, draws[count], short, false), tail[1..];
      rest := Dropped(table, p, tail, short);
      Appended(items, Drop(table[row].item, table[row].count), rest);
      items := items + [Drop(table[row].item, table[row].count)];
      size := left;
      if size <= 0 {
        break;
      }
    }
    DroppedEnds(table, p, tail, short);
  }

  lemma TemplateTable(t: Template)
    requires ValidTemplate(t)
    ensures ValidTable(t.table)
  {
    assert forall i :: 0 <= i < |t.table| ==> Weights(t.table)[i] > 0;
  }

  /** What a template drops. */
  ghost function TemplateDrops(t: Template, draws: seq<int>, short: (int, int) -> bool): seq<Drop>
    requires ValidTemplate(t)
  {
    TemplateTable(t);
    Entries(t.table, Drops(t.table, draws, short))
  }

  lemma EntriesPlainly(t: Template, draws: seq<int>, short: (int, int) -> bool, given: seq<Drop>, items: seq<Drop>)
    requires ValidTemplate(t) && items == given + TemplateDrops(t, draws, short)
    ensures ValidTable(t.table) && |items| == |given| + |Drops(t.table, draws, short)|
    ensures forall k :: |given| <= k < |items| ==>
              && items[k].item == t.table[Drops(t.table, draws, short)[k - |given|]].item
              && items[k].count == t.table[Drops(t.table, draws, short)[k - |given|]].count
  {
    TemplateTable(t);
    ghost var out, entries := Drops(t.table, draws, short), TemplateDrops(t, draws, short);
    assert entries == Entries(t.table, out);
    forall k | |given| <= k < |items|
      ensures items[k].item == t.table[out[k - |given|]].item && items[k].count == t.table[out[k - |given|]].count
    {
      assert items[k] == entries[k - |given|];
    }
  }

  /** All drops of a table, from fresh arrays. */
  method DropFrom(table: seq<Row>, draws: seq<int>, short: (int, int) -> bool) returns (drops: seq<Drop>)
    requires ValidTable(table) && |table| <= MAX_ROWS && InRange(draws)
    ensures drops == Entries(table, Drops(table, draws, short))
  {
    StartOk(table);
    var value, index := CopyTable(table);
    drops := DrawAll(table, value, index, draws, Start(table), short);
  }

  /**
   Appends one entry per drop to the caller's list; an unknown template changes
   nothing. `draws` holds what the uniform source returns.
   */
  method DropItem(found: Option<Template>, given: seq<Drop>, draws: seq<int>, short: (int, int) -> bool)
    returns (ok: bool, items: seq<Drop>)
    requires found.Some? ==> ValidTemplate(found.value)
    requires found.Some? ==> |draws| == found.value.times && InRange(draws)
    ensures ok == found.Some?
    ensures !ok ==> items == given
    ensures ok ==> items == given + TemplateDrops(found.value, draws, short)
    ensures ok ==> var table := found.value.table;
              && ValidTable(table) && |items| == |given| + |Drops(table, draws, short)|
              && forall k :: |given| <= k < |items| ==>
                   && items[k].item == table[Drops(table, draws, short)[k - |given|]].item
                   && items[k].count == table[Drops(table, draws, short)[k - |given|]].count
  {
    if found.None? {
      return false, given;
    }
    var table := found.value.table;
    TemplateTable(found.value);
    var drops := DropFrom(table, draws, short);
    EntriesPlainly(found.value, draws, short, given, given + drops);
    return true, given + drops;
  }
}
