/** The end-to-end cases of the repository's tests, for the grammar
    `S -> S S | a`: on a graph without `a` edges the answer is empty, and on
    a cycle of `a` edges it is every pair of nodes. */
module Scenarios {
  import opened Wrappers
  import opened Lists
  import opened BoolMatrices
  import opened Grammars
  import opened Graphs
  import opened Closure
  import opened MatrixAlgorithm

  const SS := Production("S", [Variable("S"), Variable("S")])
  const Sa := Production("S", [Terminal("a")])

  /** A grammar with start variable `S` and the productions `S -> S S | a`,
      listed in any order and any number of times. */
  ghost predicate IsSGrammar(cfg: Cfg) {
    && cfg.start == "S"
    && (forall p :: p in cfg.productions <==> p == SS || p == Sa)
  }

  /** `S -> S S | a` already has the restricted shape. */
  lemma SGrammarShape(cfg: Cfg)
    requires IsSGrammar(cfg)
    ensures IsInWcnf(cfg.productions)
  {
    var ps := cfg.productions;
    forall i | 0 <= i < |ps| ensures HasWcnfShape(ps[i]) {
      assert ps[i] in ps;
    }
  }

  /** The WCNF of `S -> S S | a`: no epsilon-productions, `S -> a` as its
      only unary and `S -> S S` as its only binary production. */
  lemma SGrammarWcnf(w: Wcnf, cfg: Cfg, normalised: seq<Production>)
    requires IsSGrammar(cfg)
    requires BuiltFrom(w, cfg, normalised, ProductionText)
    ensures IsInWcnf(cfg.productions)
    ensures w.start == "S" && "S" in VariableKeys(w)
    ensures forall p :: p !in w.epsilon
    ensures forall p :: p in w.unary <==> p == Sa
    ensures forall p :: p in w.binary <==> p == SS
  {
    SGrammarShape(cfg);
    WcnfProductionMembers(w, cfg, normalised, ProductionText);
    assert Sa in cfg.productions && SS in cfg.productions;
    assert Sa in w.unary;
    assert "S" in w.variables by {
      WcnfVocabulary(w, cfg, normalised, ProductionText);
      assert Sa in AllProductions(w);
    }
  }

  /** Without an `a` edge, `S -> S S | a` has an empty seed. */
  lemma SeedWithoutA(w: Wcnf, g: Table, n: nat)
    requires forall p :: p !in w.epsilon
    requires forall p :: p in w.unary <==> p == Sa
    requires "a" !in g
    ensures forall k :: k in Base(w, g, n) ==> Base(w, g, n)[k] == {}
  {
    assert forall r :: r in w.unary ==> UnaryLabel(r, g).None?;
  }

  /** Without an `a` edge, `S -> S S | a` answers the empty set. */
  lemma NoAEdgeNoAnswer<Node>(w: Wcnf, g: Table, t: Table, nodes: seq<Node>)
    requires w.start == "S" && "S" in VariableKeys(w)
    requires forall p :: p !in w.epsilon
    requires forall p :: p in w.unary <==> p == Sa
    requires "a" !in g
    requires Solved(t, w.binary, Base(w, g, |nodes|), |nodes|)
    ensures StartPairs(t, w.start, nodes) == Ok({})
  {
    SeedWithoutA(w, g, |nodes|);
    EmptySeedEmptySolution(t, w.binary, Base(w, g, |nodes|), |nodes|);
    assert t["S"] == {};
    assert Project(t["S"], nodes) == {};
  }

  /** `test_no_reachable_vertices`, for every graph without an `a` edge: the
      query answers the empty set, and asking again answers the same. */
  method NoReachableScenario(grammar: Cfg, graph: Graph<int>) returns (reachable: Result<set<(int, int)>>)
    requires IsSGrammar(grammar)
    requires ValidGraph(graph)
    requires forall e :: e in graph.edges ==> e.lbl != "a"
    ensures reachable == Ok({})
  {
    SGrammarShape(grammar);
    var algo := new MatrixReachabilityAlgorithm(grammar, [], ProductionText, graph);
    reachable := algo.SolveAllPairs();
    var again := algo.SolveAllPairs();
    assert again == reachable;
    SGrammarWcnf(algo.wcnf, grammar, []);
    EdgeMatricesContents(graph.nodes, graph.edges, "a", 0, 0);
    NoAEdgeNoAnswer(algo.wcnf, algo.matrixGraph.matrices, algo.t.matrices, algo.nodesMapping);
  }

  /** The node after `i` on a cycle of `n` nodes. */
  function Succ(i: int, n: nat): int {
    if i + 1 == n then 0 else i + 1
  }

  /** A directed cycle `0 -> 1 -> ... -> n - 1 -> 0`, every edge labelled `a`
      (for `n == 4`, the graph of `test_full_graph_result`). */
  function CycleGraph(n: nat): Graph<int> {
    Graph(seq(n, i => i), seq(n, i => Edge(i, Succ(i, n), "a")))
  }

  /** The cycle's edges as matrix entries. */
  function CyclePairs(n: nat): Matrix {
    set i | 0 <= i < n :: (i, Succ(i, n))
  }

  lemma CycleGraphValid(n: nat)
    ensures ValidGraph(CycleGraph(n))
  {
    var g := CycleGraph(n);
    forall e | e in g.edges ensures e.src in g.nodes && e.dst in g.nodes {
      var i :| 0 <= i < n && g.edges[i] == e;
      assert g.nodes[i] == e.src && g.nodes[Succ(i, n)] == e.dst;
    }
  }

  /** The decomposition of the cycle stores every cycle edge under `a`. */
  lemma CycleEdgeMatrix(n: nat)
    requires n > 0
    ensures ValidGraph(CycleGraph(n))
    ensures var g := EdgeMatrices(CycleGraph(n).nodes, CycleGraph(n).edges);
      "a" in g && CyclePairs(n) <= g["a"]
  {
    var graph := CycleGraph(n);
    CycleGraphValid(n);
    var g := EdgeMatrices(graph.nodes, graph.edges);
    forall q | q in CyclePairs(n) ensures q in Lookup(g, "a") {
      var i :| 0 <= i < n && q == (i, Succ(i, n));
      assert graph.edges[i] in graph.edges;
      IndexOfDistinct(graph.nodes, i);
      IndexOfDistinct(graph.nodes, Succ(i, n));
      EdgeMatricesContents(graph.nodes, graph.edges, "a", i, Succ(i, n));
    }
    assert graph.edges[0] in graph.edges;
    EdgeMatricesContents(graph.nodes, graph.edges, "a", 0, 0);
  }

  /** A matrix closed under squaring that holds the cycle's edges holds
      every forward path `i -> ... -> j`. */
  lemma {:induction false} CycleForward(m: Matrix, n: nat, i: int, j: int)
    requires 0 <= i < j < n
    requires CyclePairs(n) <= m && Mul(m, m) <= m
    ensures (i, j) in m
  {
    assert (j - 1, Succ(j - 1, n)) in CyclePairs(n);
    if j > i + 1 {
      CycleForward(m, n, i, j - 1);
      MulMembers(m, m, i, j);
    }
  }

  /** Such a matrix holds every pair of cycle nodes: forward to the last
      node, round to `0`, forward again. */
  lemma CycleAllPairs(m: Matrix, n: nat, i: int, j: int)
    requires 0 <= i < n && 0 <= j < n
    requires CyclePairs(n) <= m && Mul(m, m) <= m
    ensures (i, j) in m
  {
    assert (n - 1, 0) in m by {
      assert (n - 1, Succ(n - 1, n)) in CyclePairs(n);
    }
    assert (i, 0) in m by {
      if i < n - 1 {
        CycleForward(m, n, i, n - 1);
        MulMembers(m, m, i, 0);
      }
    }
    if j > 0 {
      CycleForward(m, n, 0, j);
      MulMembers(m, m, i, j);
    }
  }

  /** With the cycle's edges under `a`, the seed of `S` holds them too. */
  lemma CycleSeed(w: Wcnf, g: Table, n: nat)
    requires "S" in VariableKeys(w)
    requires forall p :: p in w.unary <==> p == Sa
    requires "a" in g && CyclePairs(n) <= g["a"]
    ensures CyclePairs(n) <= Base(w, g, n)["S"]
  {
    assert Sa in w.unary && UnaryLabel(Sa, g) == Some(g["a"]);
  }

  /** When node `i` sits at index `i`, projecting an `n` x `n` matrix
      changes nothing. */
  lemma ProjectIdentity(m: Matrix, n: nat)
    requires Within(m, n)
    ensures Project(m, seq(n, i => i)) == m
  {
    var nodes := seq(n, i => i);
    forall x, y ensures (x, y) in Project(m, nodes) <==> (x, y) in m {
      ProjectMembers(m, nodes, x, y);
      if (x, y) in m {
        assert 0 <= x < n && 0 <= y < n;
        assert nodes[x] == x && nodes[y] == y;
      }
    }
  }

  /** On the all-`a` cycle of `n` nodes, `S -> S S | a` answers every pair. */
  lemma CycleAnswer(w: Wcnf, g: Table, n: nat, t: Table)
    requires w.start == "S" && "S" in VariableKeys(w)
    requires forall p :: p in w.unary <==> p == Sa
    requires forall p :: p in w.binary <==> p == SS
    requires "a" in g && CyclePairs(n) <= g["a"]
    requires Solved(t, w.binary, Base(w, g, n), n)
    ensures StartPairs(t, w.start, seq(n, i => i)) == Ok(Grid(n))
  {
    CycleSeed(w, g, n);
    assert CyclePairs(n) <= t["S"];
    assert RuleClosed(SS, t);
    forall q | q in Grid(n) ensures q in t["S"] {
      CycleAllPairs(t["S"], n, q.0, q.1);
    }
    assert "S" in t && Within(t["S"], n);
    assert t["S"] == Grid(n);
    ProjectIdentity(t["S"], n);
  }

  /** `test_full_graph_result`, for a cycle of any length: the query answers
      every pair of nodes. */
  method FullGraphScenario(grammar: Cfg, n: nat) returns (reachable: Result<set<(int, int)>>)
    requires IsSGrammar(grammar)
    requires n > 0
    ensures reachable == Ok(Grid(n))
  {
    SGrammarShape(grammar);
    var graph := CycleGraph(n);
    CycleEdgeMatrix(n);
    var algo := new MatrixReachabilityAlgorithm(grammar, [], ProductionText, graph);
    reachable := algo.SolveAllPairs();
    SGrammarWcnf(algo.wcnf, grammar, []);
    CycleAnswer(algo.wcnf, algo.matrixGraph.matrices, n, algo.t.matrices);
  }
}
