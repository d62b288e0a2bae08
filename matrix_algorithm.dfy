/** `MatrixReachabilityAlgorithm`: all-pairs context-free path querying by
    Boolean matrix operations. The grammar is brought into WCNF and the
    graph into one matrix per label; one matrix per variable is seeded by
    the epsilon- and unary productions and closed under the binary ones;
    the answer is the start variable's matrix read back as node pairs. */
module MatrixAlgorithm {
  import opened Wrappers
  import opened Lists
  import opened BoolMatrices
  import opened Grammars
  import opened Graphs
  import opened Closure

  /** `to_coo` of a matrix followed by the translation of indices back to
      nodes through `nodes`; every index must be a position of `nodes`. */
  function Project<Node(==)>(m: Matrix, nodes: seq<Node>): set<(Node, Node)>
    requires Within(m, |nodes|)
  {
    set q | q in m :: (nodes[q.0], nodes[q.1])
  }

  /** The answer read from a table: the start variable's pairs, or
      `KeyError` when the start variable has no matrix. */
  function StartPairs<Node(==)>(t: Table, start: string, nodes: seq<Node>): (r: Result<set<(Node, Node)>>)
    requires AllWithin(t, |nodes|)
    ensures r.Err? <==> start !in t
    ensures r.Err? ==> r.error == KeyError(start)
  {
    if start in t then Ok(Project(t[start], nodes)) else Err(KeyError(start))
  }

  /** A node pair is in the projection exactly when some entry of the
      matrix has the pair's nodes at its indices. */
  lemma ProjectMembers<Node>(m: Matrix, nodes: seq<Node>, x: Node, y: Node)
    requires Within(m, |nodes|)
    ensures (x, y) in Project(m, nodes) <==>
      exists i, j :: 0 <= i < |nodes| && 0 <= j < |nodes| && (i, j) in m && nodes[i] == x && nodes[j] == y
  {
    if (x, y) in Project(m, nodes) {
      var q :| q in m && (nodes[q.0], nodes[q.1]) == (x, y);
      assert (q.0, q.1) in m && nodes[q.0] == x && nodes[q.1] == y;
    }
  }

  /** A node pair is in the answer exactly when the start variable derives
      some path from the first node to the second. */
  lemma AnswerIsDerivable<Node>(w: Wcnf, g: Table, t: Table, nodes: seq<Node>, x: Node, y: Node)
    requires WellFormed(w) && AllWithin(g, |nodes|)
    requires Solved(t, w.binary, Base(w, g, |nodes|), |nodes|)
    requires w.start in t
    ensures (x, y) in StartPairs(t, w.start, nodes).value <==>
      exists i, j :: 0 <= i < |nodes| && 0 <= j < |nodes| && nodes[i] == x && nodes[j] == y
        && Derivable(w, g, |nodes|, w.start, i, j)
  {
    var n := |nodes|;
    forall i, j | 0 <= i < n && 0 <= j < n
      ensures (i, j) in t[w.start] <==> Derivable(w, g, n, w.start, i, j)
    {
      SolutionIsDerivable(w, g, n, t, w.start, i, j);
    }
    ProjectOfDerivable(w, g, t[w.start], nodes, x, y);
  }

  lemma ProjectOfDerivable<Node>(w: Wcnf, g: Table, m: Matrix, nodes: seq<Node>, x: Node, y: Node)
    requires Within(m, |nodes|)
    requires forall i, j :: 0 <= i < |nodes| && 0 <= j < |nodes| ==>
      ((i, j) in m <==> Derivable(w, g, |nodes|, w.start, i, j))
    ensures (x, y) in Project(m, nodes) <==>
      exists i, j :: 0 <= i < |nodes| && 0 <= j < |nodes| && nodes[i] == x && nodes[j] == y
        && Derivable(w, g, |nodes|, w.start, i, j)
  {
    ProjectMembers(m, nodes, x, y);
  }

  class MatrixReachabilityAlgorithm<Node(==)> {
    const wcnf: Wcnf
    const matrixGraph: GraphBooleanDecomposition
    const nodesMapping: seq<Node>
    /** The variable matrices; meaningful once `allPairsSolved` holds. */
    var t: GraphBooleanDecomposition
    var allPairsSolved: bool

    /** The seed table of this instance. */
    ghost function Seed(): Table
      reads matrixGraph
    {
      Base(wcnf, matrixGraph.matrices, matrixGraph.size)
    }

    ghost predicate Valid()
      reads this, t, matrixGraph
    {
      && t != matrixGraph
      && matrixGraph.Valid()
      && matrixGraph.size == |nodesMapping|
      && WellFormed(wcnf)
      && (allPairsSolved ==> Solved(t.matrices, wcnf.binary, Seed(), matrixGraph.size))
    }

    /** `MatrixReachabilityAlgorithm(grammar, graph)`: the grammar in WCNF
        (`normalised` and `text` stand for pyformlang's `to_normal_form`
        and `str`, the former yielding the restricted shape) and the graph's
        decomposition; nothing solved yet. */
    constructor (grammar: Cfg, normalised: seq<Production>, text: Production -> string, graph: Graph<Node>)
      requires IsInWcnf(NormalForm(grammar, normalised))
      requires ValidGraph(graph)
      ensures Valid() && fresh(matrixGraph)
      ensures BuiltFrom(wcnf, grammar, normalised, text)
      ensures matrixGraph.matrices == EdgeMatrices(graph.nodes, graph.edges)
      ensures nodesMapping == graph.nodes
      ensures !allPairsSolved
    {
      var w := BuildWcnf(grammar, normalised, text);
      WcnfWellFormed(w, grammar, normalised, text);
      var g, nodes := GbdFromGraph(graph);
      wcnf := w;
      matrixGraph := g;
      nodesMapping := nodes;
      t := new GraphBooleanDecomposition(0);
      allPairsSolved := false;
    }

    /** `solve_all_pairs`: solves once, then reads the start variable's
        matrix; a second call returns the same answer without solving again. */
    method SolveAllPairs() returns (r: Result<set<(Node, Node)>>)
      requires Valid()
      modifies this
      ensures Valid() && allPairsSolved
      ensures old(allPairsSolved) ==> t == old(t) && t.matrices == old(t.matrices)
      ensures r == StartPairs(t.matrices, wcnf.start, nodesMapping)
      ensures r.Err? <==> wcnf.start !in wcnf.variables
    {
      if !allPairsSolved {
        SolveAllPairsInner();
        allPairsSolved := true;
      }
      var m := t.Get(wcnf.start);
      if m.Err? {
        r := Err(m.error);
      } else {
        r := Ok(Project(m.value, nodesMapping));
      }
    }

    /** `_solve_all_pairs`: a fresh decomposition with an all-false matrix per
        variable, then the epsilon, unary and binary phases. */
    method SolveAllPairsInner()
      requires Valid() && !allPairsSolved
      modifies this
      ensures fresh(t) && Valid() && !allPairsSolved
      ensures t.size == matrixGraph.size
      ensures Solved(t.matrices, wcnf.binary, Seed(), matrixGraph.size)
    {
      var graph := matrixGraph;
      var n := graph.MatricesSize();
      var table := new GraphBooleanDecomposition(n);
      t := table;
      for i := 0 to |wcnf.variables|
        invariant t == table && t.size == n
        invariant t.matrices == map k | k in wcnf.variables[..i] :: {}
        modifies table
      {
        assert wcnf.variables[..i + 1] == wcnf.variables[..i] + [wcnf.variables[i]];
        t.SetItem(wcnf.variables[i], {});
      }
      assert wcnf.variables[..|wcnf.variables|] == wcnf.variables;
      assert t.matrices == EmptyTable(VariableKeys(wcnf));
      ProcessEpsilonProductions();
      forall p | p in wcnf.unary ensures p.head in t.matrices {
        ApplyEpsilonContents(EmptyTable(VariableKeys(wcnf)), wcnf.epsilon, n, p.head);
      }
      ProcessUnaryProductions();
      BaseByPhases(wcnf, graph.matrices, n);
      BaseWithin(wcnf, graph.matrices, n);
      ProcessBinaryProductions();
    }

    /** `_process_epsilon_productions`: the head of every epsilon-production
        gets the identity matrix. */
    method ProcessEpsilonProductions()
      requires t != matrixGraph
      modifies t
      ensures t.matrices == ApplyEpsilon(old(t.matrices), wcnf.epsilon, matrixGraph.size)
      ensures t.size == old(t.size)
    {
      var n := matrixGraph.MatricesSize();
      var mId := Identity(n);
      ghost var t0 := t.matrices;
      for i := 0 to |wcnf.epsilon|
        invariant t.matrices == ApplyEpsilon(t0, wcnf.epsilon[..i], n)
        invariant t.size == old(t.size)
      {
        assert wcnf.epsilon[..i + 1][..i] == wcnf.epsilon[..i];
        t.SetItem(wcnf.epsilon[i].head, mId);
      }
      assert wcnf.epsilon[..|wcnf.epsilon|] == wcnf.epsilon;
    }

    /** `_process_unary_productions`: for every `A -> a` whose terminal
        labels some edge, `a`'s matrix is or-ed into `A`'s. */
    method ProcessUnaryProductions()
      requires t != matrixGraph && WellFormed(wcnf)
      requires forall p :: p in wcnf.unary ==> p.head in t.matrices
      modifies t
      ensures t.matrices == ApplyUnary(old(t.matrices), wcnf.unary, matrixGraph.matrices)
      ensures t.size == old(t.size)
    {
      ghost var t0 := t.matrices;
      for i := 0 to |wcnf.unary|
        invariant t.matrices == ApplyUnary(t0, wcnf.unary[..i], matrixGraph.matrices)
        invariant t.matrices.Keys == t0.Keys && t.size == old(t.size)
      {
        var rule := wcnf.unary[i];
        assert rule in wcnf.unary;
        assert wcnf.unary[..i + 1][..i] == wcnf.unary[..i];
        var terminal := Text(rule.body[0]);
        if matrixGraph.Contains(terminal) {
          var m := matrixGraph.Get(terminal);
          t.SetItem(rule.head, t.matrices[rule.head] + m.value);
        }
      }
      assert wcnf.unary[..|wcnf.unary|] == wcnf.unary;
    }

    /** `_process_binary_productions`: passes over the binary productions
        until a pass in which no entry count differs from the one last
        recorded for its variable. The result is the least table above the
        one it starts from that every binary production leaves unchanged. */
    method ProcessBinaryProductions()
      requires t != matrixGraph && WellFormed(wcnf)
      requires t.matrices.Keys == VariableKeys(wcnf)
      requires AllWithin(t.matrices, matrixGraph.size)
      modifies t
      ensures Solved(t.matrices, wcnf.binary, old(t.matrices), matrixGraph.size)
      ensures t.size == old(t.size)
    {
      var n := matrixGraph.size;
      ghost var base := t.matrices;
      BaseLeast(wcnf.binary, base);
      var nnz: map<string, nat> := map[];
      var changed := true;
      while changed
        invariant PassInvariant(wcnf, base, t.matrices, nnz, n) && t.size == old(t.size)
        invariant !changed ==> Closed(wcnf.binary, t.matrices)
        decreases Slack(wcnf.variables, t.matrices, nnz, n * n) + (if changed then 1 else 0)
      {
        nnz, changed := BinaryPass(base, nnz);
      }
    }

    /** One pass of `_process_binary_productions`' loop: for each `A -> B C`
        in turn, `T[A] := T[A] | T[B] * T[C]` and `A`'s entry count is
        recorded. The pass reports a change when some count differs from the
        one recorded before; a pass that reports none has left the table as
        it was, and that table is closed under every binary production. */
    method BinaryPass(ghost base: Table, nnz0: map<string, nat>) returns (nnz: map<string, nat>, changed: bool)
      requires WellFormed(wcnf)
      requires PassInvariant(wcnf, base, t.matrices, nnz0, matrixGraph.size)
      modifies t
      ensures PassInvariant(wcnf, base, t.matrices, nnz, matrixGraph.size) && t.size == old(t.size)
      ensures var cap := matrixGraph.size * matrixGraph.size;
        Slack(wcnf.variables, t.matrices, nnz, cap) <= Slack(wcnf.variables, old(t.matrices), nnz0, cap)
        && (changed ==> Slack(wcnf.variables, t.matrices, nnz, cap) < Slack(wcnf.variables, old(t.matrices), nnz0, cap))
      ensures !changed ==> t.matrices == old(t.matrices) && Closed(wcnf.binary, t.matrices)
      ensures Below(old(t.matrices), t.matrices)
    {
      var n := matrixGraph.size;
      nnz := nnz0;
      changed := false;
      ghost var before := t.matrices;
      ghost var slack := Slack(wcnf.variables, t.matrices, nnz, n * n);
      for i := 0 to |wcnf.binary|
        invariant PassInvariant(wcnf, base, t.matrices, nnz, n) && t.size == old(t.size)
        invariant Slack(wcnf.variables, t.matrices, nnz, n * n) <= slack
        invariant changed ==> Slack(wcnf.variables, t.matrices, nnz, n * n) < slack
        invariant !changed ==> t.matrices == before && ClosedUpTo(wcnf.binary, i, t.matrices)
        invariant Below(before, t.matrices)
      {
        var rule := wcnf.binary[i];
        BinaryRuleKeys(wcnf, rule);
        var l, r1, r2 := rule.head, Text(rule.body[0]), Text(rule.body[1]);
        var acc := t.matrices[l] + Mul(t.matrices[r1], t.matrices[r2]);
        var newNnz := |acc|;
        StepKeepsInvariant(wcnf, base, t.matrices, nnz, n, rule);
        StepSlack(wcnf, base, t.matrices, nnz, n, rule);
        if Recorded(nnz, l) == newNnz {
          StepUnchanged(wcnf, base, t.matrices, nnz, n, rule);
          if !changed {
            ClosedUpToStep(wcnf.binary, i, t.matrices);
          }
        }
        changed := changed || Recorded(nnz, l) != newNnz;
        ghost var prev := t.matrices;
        t.SetItem(l, acc);
        nnz := nnz[l := newNnz];
        StepGrows(prev, rule);
        BelowTrans(before, prev, t.matrices);
      }
      if !changed {
        ClosedUpToAll(wcnf.binary, t.matrices);
      }
    }
  }
}
