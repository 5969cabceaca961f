/**
 * Model selection (`find_best_model`): a grid of hill-climbing iteration
 * budgets (outer loop) and named scoring methods (inner loop, in the
 * dictionary's insertion order).  Every cell estimates a structure, re-scores
 * it, and the best-so-far accumulator is replaced only on a strictly greater
 * score, so the first cell reaching the maximum wins.
 */
module ModelSelection {
  import opened Optional

  /** `float('-inf')` or a finite score.  Scores returned by the scorers are finite. */
  datatype Score = NegInf | Finite(value: real)

  /** Python's `s > best` where `best` may be negative infinity. */
  predicate Exceeds(s: real, best: Score)
    ensures best == NegInf ==> Exceeds(s, best)
    ensures best.Finite? && s <= best.value ==> !Exceeds(s, best)
  {
    match best
    case NegInf => true
    case Finite(b) => s > b
  }

  /**
   * The library capabilities the loop relies on, taken as deterministic
   * functions: `estimate(method, budget)` is `hc.estimate(scoring_method=method,
   * max_iter=budget)` for the hill-climbing search bound to the training data,
   * and `score(method, model)` is `method.score(model)`.
   */
  datatype Search<!S, -M> = Search(estimate: (M, int) -> S, score: (M, S) -> real)

  /** One scored grid cell: the four values the accumulator keeps together. */
  datatype Cell<S> = Cell(model: S, methodName: string, score: real, iter: int)

  /** The work done for one (budget, method) cell. */
  function Evaluate<S, M>(search: Search<S, M>, iter: int, m: (string, M)): Cell<S> {
    var model := search.estimate(m.1, iter);
    Cell(model, m.0, search.score(m.1, model), iter)
  }

  /** The cells of one budget, one per scoring method, in insertion order. */
  function Row<S, M>(search: Search<S, M>, iter: int, methods: seq<(string, M)>): seq<Cell<S>> {
    seq(|methods|, j requires 0 <= j < |methods| => Evaluate(search, iter, methods[j]))
  }

  /** All cells in visiting order: budgets outer, methods inner. */
  function Grid<S, M>(search: Search<S, M>, iters: seq<int>, methods: seq<(string, M)>): seq<Cell<S>>
    decreases |iters|
  {
    if iters == [] then []
    else Grid(search, iters[..|iters| - 1], methods) + Row(search, iters[|iters| - 1], methods)
  }

  /** The score held by an accumulator; an empty one holds negative infinity. */
  function BestScore<S>(best: Option<Cell<S>>): Score {
    match best
    case None => NegInf
    case Some(c) => Finite(c.score)
  }

  /** The accumulator after visiting `cells` in order, starting empty. */
  function Select<S>(cells: seq<Cell<S>>): (best: Option<Cell<S>>)
    ensures best == None <==> cells == []
    decreases |cells|
  {
    if cells == [] then None
    else
      var best := Select(cells[..|cells| - 1]);
      var c := cells[|cells| - 1];
      if Exceeds(c.score, BestScore(best)) then Some(c) else best
  }

  /** The four values `find_best_model` returns for an accumulator. */
  function Returned<S>(best: Option<Cell<S>>): (r: (Option<S>, Option<string>, Score, Option<int>))
    ensures r.2 == BestScore(best)
    ensures r.0.Some? == best.Some? && r.1.Some? == best.Some? && r.3.Some? == best.Some?
    ensures best.Some? ==> r.0.value == best.value.model && r.1.value == best.value.methodName && r.3.value == best.value.iter
  {
    match best
    case None => (None, None, NegInf, None)
    case Some(c) => (Some(c.model), Some(c.methodName), Finite(c.score), Some(c.iter))
  }

  /**
   * `k` is the first index at which the maximum score occurs: nothing scores
   * higher, and every earlier cell scores strictly lower.
   */
  ghost predicate IsFirstMax<S>(cells: seq<Cell<S>>, k: int) {
    && 0 <= k < |cells|
    && (forall j :: 0 <= j < |cells| ==> cells[j].score <= cells[k].score)
    && (forall j :: 0 <= j < k ==> cells[j].score < cells[k].score)
  }

  /** Index arithmetic for one more row: cells of earlier budgets come first. */
  lemma RowOffsets(i: int, j: int, n: int, m: int)
    requires 0 <= i < n && 0 <= j < m
    ensures (n - 1) * m + m == n * m
    ensures i < n - 1 ==> i * m + j < (n - 1) * m
    ensures i == n - 1 ==> i * m + j == (n - 1) * m + j
  {
    if i < n - 1 {
      assert i * m + j < (i + 1) * m;
      assert (i + 1) * m <= (n - 1) * m;
    }
  }

  /**
   * The grid has exactly |iters| * |methods| cells, and cell number
   * i * |methods| + j is budget i combined with method j.
   */
  lemma {:induction false} GridOrder<S, M>(search: Search<S, M>, iters: seq<int>, methods: seq<(string, M)>)
    ensures |Grid(search, iters, methods)| == |iters| * |methods|
    ensures forall i, j :: 0 <= i < |iters| && 0 <= j < |methods| ==>
              Grid(search, iters, methods)[i * |methods| + j] == Evaluate(search, iters[i], methods[j])
    decreases |iters|
  {
    if iters != [] {
      var n, m := |iters|, |methods|;
      var prefix := iters[..n - 1];
      GridOrder(search, prefix, methods);
      var gp := Grid(search, prefix, methods);
      var row := Row(search, iters[n - 1], methods);
      var g := Grid(search, iters, methods);
      assert g == gp + row;
      assert |gp| == (n - 1) * m;
      if m > 0 {
        RowOffsets(0, 0, n, m);
      }
      forall i, j | 0 <= i < n && 0 <= j < m
        ensures g[i * m + j] == Evaluate(search, iters[i], methods[j])
      {
        RowOffsets(i, j, n, m);
        if i < n - 1 {
          assert prefix[i] == iters[i];
          assert g[i * m + j] == gp[i * m + j];
        } else {
          assert g[i * m + j] == row[j];
        }
      }
    }
  }

  /** A cell is in the grid exactly when it is the evaluation of a listed budget and a listed method. */
  lemma {:induction false} GridMembers<S, M>(search: Search<S, M>, iters: seq<int>, methods: seq<(string, M)>, c: Cell<S>)
    ensures c in Grid(search, iters, methods) <==>
              exists it, m :: it in iters && m in methods && c == Evaluate(search, it, m)
    decreases |iters|
  {
    if iters != [] {
      var n := |iters|;
      var prefix, last := iters[..n - 1], iters[n - 1];
      GridMembers(search, prefix, methods, c);
      assert iters == prefix + [last];
      var row := Row(search, last, methods);
      assert Grid(search, iters, methods) == Grid(search, prefix, methods) + row;
      if c in row {
        var j :| 0 <= j < |row| && row[j] == c;
        assert last in iters && methods[j] in methods && c == Evaluate(search, last, methods[j]);
      }
      if exists it, m :: it in iters && m in methods && c == Evaluate(search, it, m) {
        var it, m :| it in iters && m in methods && c == Evaluate(search, it, m);
        if it == last {
          var j :| 0 <= j < |methods| && methods[j] == m;
          assert row[j] == c;
        } else {
          assert it in prefix;
        }
      }
    }
  }

  /**
   * The accumulator is empty exactly for an empty grid; otherwise it holds the
   * cell at the first index of the maximum score.
   */
  lemma {:induction false} SelectFindsFirstMax<S>(cells: seq<Cell<S>>)
    ensures Select(cells) == None <==> cells == []
    ensures cells != [] ==> exists k :: IsFirstMax(cells, k) && Select(cells) == Some(cells[k])
    decreases |cells|
  {
    if cells != [] {
      var n := |cells|;
      var prefix, c := cells[..n - 1], cells[n - 1];
      SelectFindsFirstMax(prefix);
      assert Select(cells) == if Exceeds(c.score, BestScore(Select(prefix))) then Some(c) else Select(prefix);
      if prefix == [] {
        assert Select(cells) == Some(c);
        assert IsFirstMax(cells, 0);
      } else {
        var k :| IsFirstMax(prefix, k) && Select(prefix) == Some(prefix[k]);
        assert forall j :: 0 <= j < n - 1 ==> cells[j] == prefix[j];
        if c.score > prefix[k].score {
          assert Select(cells) == Some(c);
          assert IsFirstMax(cells, n - 1);
        } else {
          assert Select(cells) == Some(prefix[k]) && prefix[k] == cells[k];
          assert IsFirstMax(cells, k);
        }
      }
    }
  }

  /** Conversely, the first index of the maximum determines the selected cell. */
  lemma SelectIsFirstMax<S>(cells: seq<Cell<S>>, k: int)
    requires IsFirstMax(cells, k)
    ensures Select(cells) == Some(cells[k])
  {
    SelectFindsFirstMax(cells);
    var k' :| IsFirstMax(cells, k') && Select(cells) == Some(cells[k']);
  }

  /** A later cell that only ties the current best leaves the accumulator unchanged. */
  lemma TieKeepsEarlier<S>(cells: seq<Cell<S>>, c: Cell<S>)
    requires BestScore(Select(cells)) == Finite(c.score)
    ensures Select(cells + [c]) == Select(cells)
  {
    assert (cells + [c])[..|cells|] == cells;
  }

  /** The best score depends only on which cells were visited, not on their order. */
  lemma SelectScoreIgnoresOrder<S>(a: seq<Cell<S>>, b: seq<Cell<S>>)
    requires forall c :: c in a <==> c in b
    ensures BestScore(Select(a)) == BestScore(Select(b))
  {
    SelectFindsFirstMax(a);
    SelectFindsFirstMax(b);
    assert a == [] <==> b == [] by {
      if a != [] { assert a[0] in b; }
      if b != [] { assert b[0] in a; }
    }
    if a != [] {
      var ka :| IsFirstMax(a, ka) && Select(a) == Some(a[ka]);
      var kb :| IsFirstMax(b, kb) && Select(b) == Some(b[kb]);
      assert a[ka] in b && b[kb] in a;
      assert a[ka].score <= b[kb].score && b[kb].score <= a[ka].score;
    }
  }

  /**
   * Reordering the budgets or the scoring methods (or listing one twice)
   * leaves the best score unchanged; only the reported cell may differ on ties.
   */
  lemma ReorderedGridSameBestScore<S, M>(search: Search<S, M>, iters: seq<int>, methods: seq<(string, M)>,
                                         iters': seq<int>, methods': seq<(string, M)>)
    requires forall it :: it in iters <==> it in iters'
    requires forall m :: m in methods <==> m in methods'
    ensures BestScore(Select(Grid(search, iters, methods))) == BestScore(Select(Grid(search, iters', methods')))
  {
    var g, g' := Grid(search, iters, methods), Grid(search, iters', methods');
    forall c ensures c in g <==> c in g' {
      GridMembers(search, iters, methods, c);
      GridMembers(search, iters', methods', c);
    }
    SelectScoreIgnoresOrder(g, g');
  }

  /**
   * The run the script makes, budgets [5, 10] and the three scorers in
   * dictionary order, visits six cells: every scorer at budget 5, then every
   * scorer at budget 10.
   */
  lemma ScriptGrid<S, M>(search: Search<S, M>, bic: M, bdeu: M, bds: M)
    ensures var methods := [("BicScore", bic), ("BDeuScore", bdeu), ("BDsScore", bds)];
            Grid(search, [5, 10], methods) ==
              [ Evaluate(search, 5, methods[0]), Evaluate(search, 5, methods[1]), Evaluate(search, 5, methods[2]),
                Evaluate(search, 10, methods[0]), Evaluate(search, 10, methods[1]), Evaluate(search, 10, methods[2]) ]
  {
    var methods := [("BicScore", bic), ("BDeuScore", bdeu), ("BDsScore", bds)];
    GridOrder(search, [5, 10], methods);
    assert 1 * 3 + 2 == 5;
  }

  /**
   * `find_best_model`: visits every (budget, method) cell in order and returns
   * the model, method name, score and budget of the first best-scoring cell,
   * or (None, None, -inf, None) when the grid is empty.
   */
  method FindBestModel<S, M>(search: Search<S, M>, methods: seq<(string, M)>, maxIters: seq<int>)
    returns (bestModel: Option<S>, bestMethod: Option<string>, bestScore: Score, bestIter: Option<int>)
    ensures (bestModel, bestMethod, bestScore, bestIter) == Returned(Select(Grid(search, maxIters, methods)))
    ensures maxIters == [] || methods == [] ==>
              bestModel == None && bestMethod == None && bestScore == NegInf && bestIter == None
    ensures maxIters != [] && methods != [] ==>
              exists k :: IsFirstMax(Grid(search, maxIters, methods), k) &&
                (bestModel, bestMethod, bestScore, bestIter) == Returned(Some(Grid(search, maxIters, methods)[k]))
  {
    bestModel, bestScore, bestMethod, bestIter := None, NegInf, None, None;
    ghost var visited: seq<Cell<S>> := [];
    for i := 0 to |maxIters|
      invariant visited == Grid(search, maxIters[..i], methods)
      invariant (bestModel, bestMethod, bestScore, bestIter) == Returned(Select(visited))
    {
      var maxIter := maxIters[i];
      for j := 0 to |methods|
        invariant visited == Grid(search, maxIters[..i], methods) + Row(search, maxIter, methods[..j])
        invariant (bestModel, bestMethod, bestScore, bestIter) == Returned(Select(visited))
      {
        var (methodName, scoringMethod) := methods[j];
        var model := search.estimate(scoringMethod, maxIter);
        var score := search.score(scoringMethod, model);
        ghost var before := visited;
        visited := visited + [Cell(model, methodName, score, maxIter)];
        assert visited[..|visited| - 1] == before;
        assert Row(search, maxIter, methods[..j + 1]) == Row(search, maxIter, methods[..j]) + [Evaluate(search, maxIter, methods[j])];
        if Exceeds(score, bestScore) {
          bestScore := Finite(score);
          bestModel := Some(model);
          bestMethod := Some(methodName);
          bestIter := Some(maxIter);
        }
      }
      assert methods[..|methods|] == methods;
      assert maxIters[..i + 1][..i] == maxIters[..i];
    }
    assert maxIters[..|maxIters|] == maxIters;
    GridOrder(search, maxIters, methods);
    SelectFindsFirstMax(visited);
  }
}
