/** What the matrix solver computes, stated without its loops: one matrix
    per grammar variable, seeded by the epsilon- and unary productions, and
    then the least table above that seed that every binary production
    `A -> B C` leaves unchanged (`T[A]` contains `T[B] * T[C]`). The same
    table is described by derivation trees over the graph. */
module Closure {
  import opened Wrappers
  import opened Lists
  import opened BoolMatrices
  import opened Grammars
  import opened Graphs

  /** One Boolean matrix per name: a grammar variable or an edge label. */
  type Table = map<string, Matrix>

  /** The names the solver allocates a matrix for: the grammar's variables. */
  function VariableKeys(w: Wcnf): set<string> {
    set v | v in w.variables
  }

  /** A table with an all-false matrix for every name of `keys`. */
  function EmptyTable(keys: set<string>): (t: Table)
    ensures t.Keys == keys
    ensures forall k :: k in t ==> t[k] == {}
  {
    map k | k in keys :: {}
  }

  predicate AllWithin(t: Table, n: nat) {
    forall k :: k in t ==> Within(t[k], n)
  }

  // ---------------------------------------------------------------------
  // The seed of the closure, operationally and declaratively

  /** The epsilon phase, one production after the other: the head's matrix
      becomes the `n` x `n` identity. */
  function ApplyEpsilon(t: Table, eps: seq<Production>, n: nat): Table {
    if |eps| == 0 then t
    else ApplyEpsilon(t, eps[..|eps| - 1], n)[eps[|eps| - 1].head := Identity(n)]
  }

  /** The matrix the unary phase applies for production `r`, when `r`'s
      terminal labels some edge (otherwise none). */
  function UnaryLabel(r: Production, g: Table): Option<Matrix> {
    if |r.body| > 0 && Text(r.body[0]) in g then Some(g[Text(r.body[0])]) else None
  }

  /** The unary phase, one production after the other: when the terminal
      of `A -> a` labels some edge, `a`'s matrix is or-ed into `A`'s. */
  function ApplyUnary(t: Table, unary: seq<Production>, g: Table): Table {
    if |unary| == 0 then t
    else
      var prev := ApplyUnary(t, unary[..|unary| - 1], g);
      var r := unary[|unary| - 1];
      match UnaryLabel(r, g)
      case None => prev
      case Some(m) => prev[r.head := Lookup(prev, r.head) + m]
  }

  /** The seed, declaratively: `A`'s matrix is the identity when `A` has an
      epsilon-production, together with the matrix of every label `a` with
      a production `A -> a`. */
  function Base(w: Wcnf, g: Table, n: nat): Table {
    map k | k in VariableKeys(w) ::
      (if exists p :: p in w.epsilon && p.head == k then Identity(n) else {})
      + (set r, q | r in w.unary && r.head == k && UnaryLabel(r, g).Some? && q in UnaryLabel(r, g).value :: q)
  }

  /** The epsilon phase changes exactly the matrices of the epsilon heads. */
  lemma {:induction false} ApplyEpsilonContents(t: Table, eps: seq<Production>, n: nat, k: string)
    ensures k in ApplyEpsilon(t, eps, n) <==> k in t || exists p :: p in eps && p.head == k
    ensures k in ApplyEpsilon(t, eps, n) ==>
      ApplyEpsilon(t, eps, n)[k] == if exists p :: p in eps && p.head == k then Identity(n) else t[k]
  {
    if |eps| > 0 {
      var init := eps[..|eps| - 1];
      assert eps == init + [eps[|eps| - 1]];
      ApplyEpsilonContents(t, init, n, k);
    }
  }

  /** The unary phase adds to `A`'s matrix exactly the matrices of the
      labels of `A`'s unary productions. */
  lemma {:induction false} ApplyUnaryContents(t: Table, unary: seq<Production>, g: Table, k: string, q: (int, int))
    ensures k in ApplyUnary(t, unary, g) <==>
      k in t || exists r :: r in unary && r.head == k && UnaryLabel(r, g).Some?
    ensures q in Lookup(ApplyUnary(t, unary, g), k) <==>
      q in Lookup(t, k) || exists r :: r in unary && r.head == k && UnaryLabel(r, g).Some? && q in UnaryLabel(r, g).value
  {
    if |unary| > 0 {
      var init := unary[..|unary| - 1];
      assert unary == init + [unary[|unary| - 1]];
      ApplyUnaryContents(t, init, g, k, q);
    }
  }

  /** Running the epsilon phase and then the unary phase on the all-false
      table of the variables gives the declarative seed. */
  lemma BaseByPhases(w: Wcnf, g: Table, n: nat)
    requires WellFormed(w)
    ensures ApplyUnary(ApplyEpsilon(EmptyTable(VariableKeys(w)), w.epsilon, n), w.unary, g) == Base(w, g, n)
  {
    var e := ApplyEpsilon(EmptyTable(VariableKeys(w)), w.epsilon, n);
    var u := ApplyUnary(e, w.unary, g);
    var b := Base(w, g, n);
    forall k ensures k in u <==> k in b {
      ApplyEpsilonContents(EmptyTable(VariableKeys(w)), w.epsilon, n, k);
      ApplyUnaryContents(e, w.unary, g, k, (0, 0));
    }
    forall k | k in u ensures u[k] == b[k] {
      forall q ensures q in u[k] <==> q in b[k] {
        ApplyEpsilonContents(EmptyTable(VariableKeys(w)), w.epsilon, n, k);
        ApplyUnaryContents(e, w.unary, g, k, q);
      }
    }
  }

  /** Every matrix of the seed is `n` x `n` when every label matrix is. */
  lemma BaseWithin(w: Wcnf, g: Table, n: nat)
    requires AllWithin(g, n)
    ensures AllWithin(Base(w, g, n), n)
  {
  }

  // ---------------------------------------------------------------------
  // Closure under the binary productions

  /** `T` is entrywise below `S`, a name absent from `S` standing for the all-false matrix. */
  predicate Below(t: Table, s: Table) {
    forall k :: k in t ==> t[k] <= Lookup(s, k)
  }

  /** What processing `A -> B C` does: `T[A] := T[A] | T[B] * T[C]`. */
  function RuleStep(t: Table, r: Production): Table
    requires |r.body| == 2
  {
    t[r.head := Lookup(t, r.head) + Mul(Lookup(t, Text(r.body[0])), Lookup(t, Text(r.body[1])))]
  }

  /** `S` already contains what `A -> B C` would add. */
  predicate RuleClosed(r: Production, s: Table) {
    |r.body| == 2 ==> Mul(Lookup(s, Text(r.body[0])), Lookup(s, Text(r.body[1]))) <= Lookup(s, r.head)
  }

  predicate Closed(rules: seq<Production>, s: Table) {
    forall r :: r in rules ==> RuleClosed(r, s)
  }

  /** The first `i` productions of `rules` leave `S` unchanged. */
  predicate ClosedUpTo(rules: seq<Production>, i: nat, s: Table) {
    forall j :: 0 <= j < i && j < |rules| ==> RuleClosed(rules[j], s)
  }

  lemma ClosedUpToStep(rules: seq<Production>, i: nat, s: Table)
    requires i < |rules| && ClosedUpTo(rules, i, s) && RuleClosed(rules[i], s)
    ensures ClosedUpTo(rules, i + 1, s)
  {
  }

  lemma ClosedUpToAll(rules: seq<Production>, s: Table)
    requires ClosedUpTo(rules, |rules|, s)
    ensures Closed(rules, s)
  {
  }

  /** `T` lies below every table that is above `base` and closed under `rules`. */
  ghost predicate LeastAbove(t: Table, rules: seq<Production>, base: Table) {
    forall s: Table :: Closed(rules, s) && Below(base, s) ==> Below(t, s)
  }

  /** `T` is the least table above `base` closed under `rules`, with the
      names of `base` and matrices of dimension `n`. */
  ghost predicate Solved(t: Table, rules: seq<Production>, base: Table, n: nat) {
    && t.Keys == base.Keys
    && AllWithin(t, n)
    && Below(base, t)
    && Closed(rules, t)
    && LeastAbove(t, rules, base)
  }

  /** The solution is unique, and it depends only on the set of binary
      productions, not on the order they are processed in. */
  lemma SolvedUnique(t1: Table, t2: Table, rules1: seq<Production>, rules2: seq<Production>, base: Table, n: nat)
    requires Solved(t1, rules1, base, n) && Solved(t2, rules2, base, n)
    requires forall r :: r in rules1 <==> r in rules2
    ensures t1 == t2
  {
    assert Closed(rules1, t2);
    assert Below(t1, t2);
    assert Closed(rules2, t1);
    assert Below(t2, t1);
    forall k | k in t1 ensures t1[k] == t2[k] {
      assert t1[k] <= t2[k] && t2[k] <= t1[k];
    }
  }

  /** A seed without entries solves to a table without entries. */
  lemma EmptySeedEmptySolution(t: Table, rules: seq<Production>, base: Table, n: nat)
    requires Solved(t, rules, base, n)
    requires forall k :: k in base ==> base[k] == {}
    ensures forall k :: k in t ==> t[k] == {}
  {
    var s := EmptyTable(base.Keys);
    forall r | r in rules ensures RuleClosed(r, s) {
      if |r.body| == 2 {
        assert Lookup(s, Text(r.body[0])) == {};
      }
    }
    assert Below(t, s);
  }

  /** The seed lies below every table above it. */
  lemma BaseLeast(rules: seq<Production>, base: Table)
    ensures LeastAbove(base, rules, base)
  {
  }

  /** Processing one of the binary productions keeps a table below every
      closed table above the seed. */
  lemma LeastStep(t: Table, rules: seq<Production>, base: Table, r: Production)
    requires r in rules && |r.body| == 2
    requires LeastAbove(t, rules, base)
    ensures LeastAbove(RuleStep(t, r), rules, base)
  {
    var b, c := Text(r.body[0]), Text(r.body[1]);
    forall s: Table | Closed(rules, s) && Below(base, s) ensures Below(RuleStep(t, r), s) {
      assert Below(t, s);
      assert RuleClosed(r, s);
      assert Lookup(t, b) <= Lookup(s, b) && Lookup(t, c) <= Lookup(s, c);
      MulMonotone(Lookup(t, b), Lookup(s, b), Lookup(t, c), Lookup(s, c));
    }
  }

  // ---------------------------------------------------------------------
  // Termination of the fixpoint loop

  /** The room a matrix still has to grow inside `cap` entries. */
  function Gap(t: Table, k: string, cap: nat): nat {
    if |Lookup(t, k)| <= cap then cap - |Lookup(t, k)| else 0
  }

  /** The loop's measure: the room left in every variable's matrix, plus one
      for every variable whose entry count has not been recorded yet (the
      first recording can report a change without any growth). */
  function Slack(vars: seq<string>, t: Table, nnz: map<string, nat>, cap: nat): nat {
    if |vars| == 0 then 0
    else
      var v := vars[|vars| - 1];
      Slack(vars[..|vars| - 1], t, nnz, cap) + Gap(t, v, cap) + (if v in nnz then 0 else 1)
  }

  /** Growing one matrix and recording its entry count never increases the
      measure, and decreases it when the matrix grew or its count was new. */
  lemma {:induction false} SlackStep(vars: seq<string>, t: Table, nnz: map<string, nat>, cap: nat, h: string, x: Matrix)
    requires Lookup(t, h) <= x && |x| <= cap
    ensures Slack(vars, t[h := x], nnz[h := |x|], cap) <= Slack(vars, t, nnz, cap)
    ensures h in vars && (Lookup(t, h) != x || h !in nnz) ==>
      Slack(vars, t[h := x], nnz[h := |x|], cap) < Slack(vars, t, nnz, cap)
  {
    SubsetCard(Lookup(t, h), x);
    if |vars| > 0 {
      var init := vars[..|vars| - 1];
      assert vars == init + [vars[|vars| - 1]];
      SlackStep(init, t, nnz, cap, h, x);
    }
  }

  /** The entry count last recorded for `k`, zero when none was
      (`nnz` is a `defaultdict(int)`). */
  function Recorded(nnz: map<string, nat>, k: string): nat {
    if k in nnz then nnz[k] else 0
  }

  /** The bookkeeping part of the binary phase's invariant: the variables'
      matrices are `n` x `n` and above the seed, and every recorded count is
      its matrix's. */
  ghost predicate Bookkeeping(w: Wcnf, base: Table, m: Table, nnz: map<string, nat>, n: nat) {
    && m.Keys == VariableKeys(w)
    && AllWithin(m, n)
    && Below(base, m)
    && forall k :: k in nnz ==> k in m && nnz[k] == |m[k]|
  }

  /** What holds between the production steps of the binary phase: the
      bookkeeping, and the table lies below every closed table above the seed. */
  ghost predicate PassInvariant(w: Wcnf, base: Table, m: Table, nnz: map<string, nat>, n: nat) {
    Bookkeeping(w, base, m, nnz, n) && LeastAbove(m, w.binary, base)
  }

  /** Growing one variable's matrix inside the dimension and recording its
      count keeps the bookkeeping. */
  lemma GrowKeepsBookkeeping(w: Wcnf, base: Table, m: Table, nnz: map<string, nat>, n: nat, l: string, x: Matrix)
    requires Bookkeeping(w, base, m, nnz, n)
    requires l in m && m[l] <= x && Within(x, n)
    ensures Bookkeeping(w, base, m[l := x], nnz[l := |x|], n)
  {
  }

  /** A binary production of a well-formed grammar names three variables. */
  lemma BinaryRuleKeys(w: Wcnf, rule: Production)
    requires WellFormed(w) && rule in w.binary
    ensures |rule.body| == 2
    ensures rule.head in VariableKeys(w)
    ensures Text(rule.body[0]) in VariableKeys(w) && Text(rule.body[1]) in VariableKeys(w)
  {
  }

  /** The matrix a production step leaves in its head's place. */
  function StepResult(m: Table, rule: Production): Matrix
    requires |rule.body| == 2
    requires rule.head in m && Text(rule.body[0]) in m && Text(rule.body[1]) in m
  {
    m[rule.head] + Mul(m[Text(rule.body[0])], m[Text(rule.body[1])])
  }

  /** One production step `T[A] := T[A] | T[B] * T[C]` of the binary phase,
      followed by recording `A`'s count, keeps the invariant. */
  lemma StepKeepsInvariant(w: Wcnf, base: Table, m: Table, nnz: map<string, nat>, n: nat, rule: Production)
    requires rule in w.binary && |rule.body| == 2
    requires rule.head in m && Text(rule.body[0]) in m && Text(rule.body[1]) in m
    requires PassInvariant(w, base, m, nnz, n)
    ensures var acc := StepResult(m, rule);
      PassInvariant(w, base, m[rule.head := acc], nnz[rule.head := |acc|], n)
    ensures |StepResult(m, rule)| <= n * n
  {
    var l, b, c := rule.head, Text(rule.body[0]), Text(rule.body[1]);
    var acc := StepResult(m, rule);
    MulWithin(m[b], m[c], n);
    WithinCard(acc, n);
    GridCard(n);
    GrowKeepsBookkeeping(w, base, m, nnz, n, l, acc);
    assert m[l := acc] == RuleStep(m, rule);
    LeastStep(m, w.binary, base, rule);
  }

  /** A production step only adds entries: the table before it lies below the table after it. */
  lemma StepGrows(m: Table, rule: Production)
    requires |rule.body| == 2
    requires rule.head in m && Text(rule.body[0]) in m && Text(rule.body[1]) in m
    ensures Below(m, m[rule.head := StepResult(m, rule)])
  {
  }

  /** Entrywise inclusion of tables is transitive. */
  lemma BelowTrans(a: Table, b: Table, c: Table)
    requires Below(a, b) && Below(b, c)
    ensures Below(a, c)
  {
    forall k | k in a ensures a[k] <= Lookup(c, k) {
      if k !in b {
        assert a[k] == {};
      }
    }
  }

  /** When the count just computed equals the recorded one, the step
      changed nothing and the table is already closed under the production. */
  lemma StepUnchanged(w: Wcnf, base: Table, m: Table, nnz: map<string, nat>, n: nat, rule: Production)
    requires |rule.body| == 2
    requires rule.head in m && Text(rule.body[0]) in m && Text(rule.body[1]) in m
    requires PassInvariant(w, base, m, nnz, n)
    requires Recorded(nnz, rule.head) == |StepResult(m, rule)|
    ensures m[rule.head := StepResult(m, rule)] == m
    ensures RuleClosed(rule, m)
  {
    var acc := StepResult(m, rule);
    SubsetCard(m[rule.head], acc);
    assert acc == m[rule.head];
  }

  /** The measure never grows across a step, and it shrinks when the count
      just computed differs from the recorded one. */
  lemma StepSlack(w: Wcnf, base: Table, m: Table, nnz: map<string, nat>, n: nat, rule: Production)
    requires rule.head in w.variables && |rule.body| == 2
    requires rule.head in m && Text(rule.body[0]) in m && Text(rule.body[1]) in m
    requires PassInvariant(w, base, m, nnz, n)
    requires |StepResult(m, rule)| <= n * n
    ensures var acc := StepResult(m, rule);
      var after := Slack(w.variables, m[rule.head := acc], nnz[rule.head := |acc|], n * n);
      && after <= Slack(w.variables, m, nnz, n * n)
      && (Recorded(nnz, rule.head) != |acc| ==> after < Slack(w.variables, m, nnz, n * n))
  {
    var acc := StepResult(m, rule);
    if Recorded(nnz, rule.head) != |acc| && rule.head in nnz {
      assert acc != m[rule.head];
    }
    SlackStep(w.variables, m, nnz, n * n, rule.head, acc);
  }

  // ---------------------------------------------------------------------
  // The closure in terms of derivations

  /** A derivation tree of a grammar variable along a path of the graph,
      each node naming the production it applies. */
  datatype Derivation =
    | EpsilonLeaf(rule: Production)
    | TerminalLeaf(rule: Production)
    | Branch(rule: Production, mid: int, left: Derivation, right: Derivation)

  /** `d` derives variable `k` on a path from node `i` to node `j`: an
      epsilon-production on the empty path at a node, a unary production
      `k -> a` on an edge labelled `a`, or `k -> B C` on a path through
      `mid` that `B` derives up to `mid` and `C` from `mid` on. */
  predicate Derives(w: Wcnf, g: Table, n: nat, d: Derivation, k: string, i: int, j: int) {
    match d
    case EpsilonLeaf(r) => r in w.epsilon && r.head == k && i == j && 0 <= i < n
    case TerminalLeaf(r) =>
      r in w.unary && r.head == k && UnaryLabel(r, g).Some? && (i, j) in UnaryLabel(r, g).value
    case Branch(r, m, left, right) =>
      && r in w.binary && r.head == k && |r.body| == 2
      && Derives(w, g, n, left, Text(r.body[0]), i, m)
      && Derives(w, g, n, right, Text(r.body[1]), m, j)
  }

  /** Some derivation derives `k` on a path from `i` to `j`. */
  ghost predicate Derivable(w: Wcnf, g: Table, n: nat, k: string, i: int, j: int) {
    exists d :: Derives(w, g, n, d, k, i, j)
  }

  /** Every derivation's path end points are in the solution's matrix. */
  lemma {:induction false} DerivedInSolution(w: Wcnf, g: Table, n: nat, t: Table, d: Derivation, k: string, i: int, j: int)
    requires WellFormed(w)
    requires Solved(t, w.binary, Base(w, g, n), n)
    requires Derives(w, g, n, d, k, i, j)
    ensures k in t && (i, j) in t[k]
  {
    var base := Base(w, g, n);
    match d
    case EpsilonLeaf(r) =>
      assert r.head in VariableKeys(w);
      assert (i, j) in base[k];
    case TerminalLeaf(r) =>
      assert r.head in VariableKeys(w);
      assert (i, j) in base[k];
    case Branch(r, m, left, right) =>
      DerivedInSolution(w, g, n, t, left, Text(r.body[0]), i, m);
      DerivedInSolution(w, g, n, t, right, Text(r.body[1]), m, j);
      MulMembers(t[Text(r.body[0])], t[Text(r.body[1])], i, j);
      assert RuleClosed(r, t);
      assert r.head in VariableKeys(w);
  }

  /** The table of derivable path end points, inside the `n` x `n` grid. */
  ghost function DerivableTable(w: Wcnf, g: Table, n: nat): Table {
    map k | k in VariableKeys(w) :: set q | q in Grid(n) && exists d :: Derives(w, g, n, d, k, q.0, q.1)
  }

  lemma DerivableClosed(w: Wcnf, g: Table, n: nat)
    requires WellFormed(w)
    ensures Closed(w.binary, DerivableTable(w, g, n))
  {
    var s := DerivableTable(w, g, n);
    forall r | r in w.binary ensures RuleClosed(r, s) {
      var b, c := Text(r.body[0]), Text(r.body[1]);
      assert b in s && c in s && r.head in s;
      forall q | q in Mul(s[b], s[c]) ensures q in s[r.head] {
        MulMembers(s[b], s[c], q.0, q.1);
        var m :| (q.0, m) in s[b] && (m, q.1) in s[c];
        var left :| Derives(w, g, n, left, b, q.0, m);
        var right :| Derives(w, g, n, right, c, m, q.1);
        assert Derives(w, g, n, Branch(r, m, left, right), r.head, q.0, q.1);
      }
    }
  }

  lemma DerivableAboveBase(w: Wcnf, g: Table, n: nat)
    requires AllWithin(g, n)
    ensures Below(Base(w, g, n), DerivableTable(w, g, n))
  {
    var base, s := Base(w, g, n), DerivableTable(w, g, n);
    forall k, q | k in base && q in base[k] ensures q in s[k] {
      if q in Identity(n) && exists p :: p in w.epsilon && p.head == k {
        var p :| p in w.epsilon && p.head == k;
        assert Derives(w, g, n, EpsilonLeaf(p), k, q.0, q.1);
      } else {
        var r :| r in w.unary && r.head == k && UnaryLabel(r, g).Some? && q in UnaryLabel(r, g).value;
        assert Derives(w, g, n, TerminalLeaf(r), k, q.0, q.1);
      }
    }
  }

  /** Every entry of the solution has a derivation. */
  lemma SolutionDerived(w: Wcnf, g: Table, n: nat, t: Table, k: string, i: int, j: int)
    requires WellFormed(w) && AllWithin(g, n)
    requires Solved(t, w.binary, Base(w, g, n), n)
    requires k in t && (i, j) in t[k]
    ensures exists d :: Derives(w, g, n, d, k, i, j)
  {
    DerivableClosed(w, g, n);
    DerivableAboveBase(w, g, n);
    assert Below(t, DerivableTable(w, g, n));
  }

  /** The solved matrix of a variable holds exactly the end points of the
      paths that the variable derives. */
  lemma SolutionIsDerivable(w: Wcnf, g: Table, n: nat, t: Table, k: string, i: int, j: int)
    requires WellFormed(w) && AllWithin(g, n)
    requires Solved(t, w.binary, Base(w, g, n), n)
    requires k in t
    ensures (i, j) in t[k] <==> Derivable(w, g, n, k, i, j)
  {
    if (i, j) in t[k] {
      SolutionDerived(w, g, n, t, k, i, j);
    }
    if d :| Derives(w, g, n, d, k, i, j) {
      DerivedInSolution(w, g, n, t, d, k, i, j);
    }
  }
}
