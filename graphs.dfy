/** The labelled graph and its Boolean decomposition: one square Boolean
    matrix per edge label (`GraphBooleanDecomposition`), built from a graph
    by `gbd_from_nx_graph`. */
module Graphs {
  import opened Wrappers
  import opened Lists
  import opened BoolMatrices

  /** A directed edge `src -> dst` carrying a label. */
  datatype Edge<Node> = Edge(src: Node, dst: Node, lbl: string)

  /** A directed multigraph: its nodes in iteration order and its edges. */
  datatype Graph<Node> = Graph(nodes: seq<Node>, edges: seq<Edge<Node>>)

  /** What a networkx graph guarantees: nodes listed once, every edge between listed nodes. */
  predicate ValidGraph<Node(==)>(g: Graph<Node>) {
    && Distinct(g.nodes)
    && forall e :: e in g.edges ==> e.src in g.nodes && e.dst in g.nodes
  }

  /** The matrix stored under `lbl`, or the all-false matrix when there is none. */
  function Lookup(m: map<string, Matrix>, lbl: string): Matrix {
    if lbl in m then m[lbl] else {}
  }

  function Min(a: int, b: int): int { if a <= b then a else b }

  function Max(a: int, b: int): int { if a <= b then b else a }

  /** The label matrices after inserting the edges of `edges` one after
      another, a node standing for its position in `nodes`. */
  function EdgeMatrices<Node(==)>(nodes: seq<Node>, edges: seq<Edge<Node>>): map<string, Matrix>
    requires forall e :: e in edges ==> e.src in nodes && e.dst in nodes
  {
    if |edges| == 0 then map[]
    else
      var e := edges[|edges| - 1];
      var m := EdgeMatrices(nodes, edges[..|edges| - 1]);
      m[e.lbl := Lookup(m, e.lbl) + {(IndexOf(nodes, e.src), IndexOf(nodes, e.dst))}]
  }

  /** The decomposition holds a matrix exactly for the labels that occur on
      edges, and entry `(i, j)` of a label's matrix is true exactly when an
      edge with that label runs from node `i` to node `j`. */
  lemma {:induction false} EdgeMatricesContents<Node>(nodes: seq<Node>, edges: seq<Edge<Node>>, lbl: string, i: int, j: int)
    requires forall e :: e in edges ==> e.src in nodes && e.dst in nodes
    ensures lbl in EdgeMatrices(nodes, edges) <==> exists e :: e in edges && e.lbl == lbl
    ensures (i, j) in Lookup(EdgeMatrices(nodes, edges), lbl) <==>
      exists e :: e in edges && e.lbl == lbl && IndexOf(nodes, e.src) == i && IndexOf(nodes, e.dst) == j
  {
    if |edges| > 0 {
      var init := edges[..|edges| - 1];
      var last := edges[|edges| - 1];
      assert edges == init + [last];
      EdgeMatricesContents(nodes, init, lbl, i, j);
    }
  }

  lemma EdgeMatricesStep<Node>(nodes: seq<Node>, edges: seq<Edge<Node>>, k: nat)
    requires forall e :: e in edges ==> e.src in nodes && e.dst in nodes
    requires k < |edges|
    ensures var e := edges[k]; var m := EdgeMatrices(nodes, edges[..k]);
      EdgeMatrices(nodes, edges[..k + 1])
        == m[e.lbl := Lookup(m, e.lbl) + {(IndexOf(nodes, e.src), IndexOf(nodes, e.dst))}]
  {
    assert edges[..k + 1][..k] == edges[..k];
  }

  /** Every label matrix is `|nodes|` x `|nodes|`. */
  lemma {:induction false} EdgeMatricesWithin<Node>(nodes: seq<Node>, edges: seq<Edge<Node>>)
    requires forall e :: e in edges ==> e.src in nodes && e.dst in nodes
    ensures forall l :: l in EdgeMatrices(nodes, edges) ==> Within(EdgeMatrices(nodes, edges)[l], |nodes|)
  {
    if |edges| > 0 {
      EdgeMatricesWithin(nodes, edges[..|edges| - 1]);
    }
  }

  /** A mapping from label to Boolean matrix, all matrices `size` x `size`. */
  class GraphBooleanDecomposition {
    var matrices: map<string, Matrix>
    var size: nat

    ghost predicate Valid()
      reads this
    {
      forall l :: l in matrices ==> Within(matrices[l], size)
    }

    /** `GraphBooleanDecomposition(n)`: no labels, matrices of dimension `n`. */
    constructor (n: nat)
      ensures Valid() && matrices == map[] && size == n
    {
      matrices := map[];
      size := n;
    }

    /** `__getitem__`: the matrix of `lbl`, or `KeyError` when the label has
        none; a read never adds a label. */
    function Get(lbl: string): (r: Result<Matrix>)
      reads this
      ensures r.Ok? <==> lbl in matrices
      ensures r.Ok? ==> r.value == matrices[lbl]
      ensures r.Err? ==> r.error == KeyError(lbl)
    {
      if lbl !in matrices then Err(KeyError(lbl)) else Ok(matrices[lbl])
    }

    /** `__setitem__`: stores `m` under `lbl`, replacing any previous matrix. */
    method SetItem(lbl: string, m: Matrix)
      modifies this
      ensures matrices == old(matrices)[lbl := m] && size == old(size)
    {
      matrices := matrices[lbl := m];
    }

    /** `__contains__`: whether `lbl` has a matrix; agrees with `Get`. */
    function Contains(lbl: string): (b: bool)
      reads this
      ensures b <==> Get(lbl).Ok?
    {
      lbl in matrices
    }

    /** `matrices_size`. */
    function MatricesSize(): nat
      reads this
    {
      size
    }

    /** `add_edge(u, v, label)`, as written. The resize branch runs when
        `min(u, v) > size`, and the size changes only inside the loop over
        the existing labels, to `max(u, v)`. That loop rebinds `label` to
        the labels it visits, so after a resize the write goes to an
        existing label's matrix; and since the new size is `max(u, v)`,
        that write is out of range: a resize always ends in `IndexError`.
        Without a resize the label gets an all-false matrix if it has none,
        and the entry `(u, v)` is set when it lies inside the matrix. */
    method AddEdge(u: nat, v: nat, lbl: string) returns (r: Outcome)
      modifies this
      ensures var resized := Min(u, v) > old(size) && old(matrices) != map[];
        && size == (if resized then Max(u, v) else old(size))
        && (r.Pass? <==> u < size && v < size)
        && (r.Pass? ==> matrices == old(matrices)[lbl := Lookup(old(matrices), lbl) + {(u, v)}])
        && (r.Fail? ==> r.error == IndexError)
        && (r.Fail? && resized ==> matrices == old(matrices))
        && (r.Fail? && !resized ==> matrices == old(matrices)[lbl := Lookup(old(matrices), lbl)])
      ensures size >= old(size)
      ensures r.Pass? && lbl in old(matrices) && (u, v) in old(matrices)[lbl] ==> matrices == old(matrices)
      ensures old(Valid()) ==> Valid()
    {
      var target := lbl;
      if Min(u, v) > size {
        var rest := matrices.Keys;
        while rest != {}
          invariant rest <= matrices.Keys && matrices == old(matrices)
          invariant rest == matrices.Keys ==> size == old(size) && target == lbl
          invariant rest != matrices.Keys ==> size == Max(u, v) && target in matrices
          decreases rest
        {
          target :| target in rest;
          size := Max(u, v);
          // resizing a matrix to a larger dimension keeps its entries
          rest := rest - {target};
        }
      }
      if target !in matrices {
        matrices := matrices[target := {}];
      }
      if u < size && v < size {
        assert (u, v) in matrices[target] ==> matrices[target] + {(u, v)} == matrices[target];
        matrices := matrices[target := matrices[target] + {(u, v)}];
        r := Pass;
      } else {
        r := Fail(IndexError);
      }
    }
  }

  /** The node-indexing loop of `gbd_from_nx_graph`: each node not seen
      before gets the next free index. Returns the node-to-index dictionary
      and the index-to-node list. */
  method IndexNodes<Node(==)>(nodes: seq<Node>) returns (nodesDict: map<Node, nat>, nodesList: seq<Node>)
    ensures nodesList == Dedup(nodes)
    ensures forall x :: x in nodesDict <==> x in nodes
    ensures forall x :: x in nodesDict ==> nodesDict[x] < |nodesList| && nodesList[nodesDict[x]] == x
  {
    nodesDict := map[];
    nodesList := [];
    var nodesNum := 0;
    for i := 0 to |nodes|
      invariant nodesList == Dedup(nodes[..i])
      invariant nodesNum == |nodesList|
      invariant forall x :: x in nodesDict <==> x in nodesList
      invariant forall x :: x in nodesDict ==> nodesDict[x] < |nodesList| && nodesList[nodesDict[x]] == x
    {
      var node := nodes[i];
      ghost var prev := nodesList;
      if node !in nodesDict {
        nodesDict := nodesDict[node := nodesNum];
        nodesNum := nodesNum + 1;
        nodesList := nodesList + [node];
      }
      assert nodesList == AppendNew(prev, node);
      DedupPrefix(nodes, i);
    }
    assert nodes[..|nodes|] == nodes;
    forall x | x in nodes ensures x in nodesList {
      DedupMembers(nodes, x);
    }
  }

  /** The edge loop of `gbd_from_nx_graph`: `add_edge` for every edge, with
      its endpoints' indices. Every edge lies in range, so every call passes. */
  method AddEdges<Node(==)>(g: GraphBooleanDecomposition, nodes: seq<Node>, edges: seq<Edge<Node>>, nodesDict: map<Node, nat>)
    requires Distinct(nodes)
    requires forall e :: e in edges ==> e.src in nodes && e.dst in nodes
    requires forall x :: x in nodes ==> x in nodesDict && nodesDict[x] == IndexOf(nodes, x)
    requires g.Valid() && g.size == |nodes| && g.matrices == map[]
    modifies g
    ensures g.Valid() && g.size == |nodes|
    ensures g.matrices == EdgeMatrices(nodes, edges)
  {
    for k := 0 to |edges|
      invariant g.Valid() && g.size == |nodes|
      invariant g.matrices == EdgeMatrices(nodes, edges[..k])
    {
      var edge := edges[k];
      assert edge in edges;
      var u := nodesDict[edge.src];
      var v := nodesDict[edge.dst];
      EdgeMatricesStep(nodes, edges, k);
      var outcome := g.AddEdge(u, v, edge.lbl);
      assert outcome.Pass?;
    }
    assert edges[..|edges|] == edges;
  }

  /** `gbd_from_nx_graph`: indexes the nodes in first-seen order, then adds
      every edge. Returns the decomposition and the index-to-node list. */
  method GbdFromGraph<Node(==)>(graph: Graph<Node>) returns (g: GraphBooleanDecomposition, nodesList: seq<Node>)
    requires ValidGraph(graph)
    ensures fresh(g) && g.Valid()
    ensures g.size == |graph.nodes|
    ensures nodesList == Dedup(graph.nodes) == graph.nodes
    ensures Distinct(nodesList)
    ensures forall i :: 0 <= i < |nodesList| ==> IndexOf(graph.nodes, nodesList[i]) == i
    ensures g.matrices == EdgeMatrices(graph.nodes, graph.edges)
  {
    g := new GraphBooleanDecomposition(|graph.nodes|);
    var nodesDict;
    nodesDict, nodesList := IndexNodes(graph.nodes);
    DedupOfDistinct(graph.nodes);
    forall i | 0 <= i < |nodesList| ensures IndexOf(graph.nodes, nodesList[i]) == i {
      IndexOfDistinct(graph.nodes, i);
    }
    forall x | x in graph.nodes ensures nodesDict[x] == IndexOf(graph.nodes, x) {
      IndexOfDistinct(graph.nodes, nodesDict[x]);
    }
    AddEdges(g, graph.nodes, graph.edges, nodesDict);
  }
}
