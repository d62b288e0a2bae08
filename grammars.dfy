/** The grammar side: symbols, productions, the restricted shape check
    (`_is_in_wcnf`) and the construction of a grammar in Weak Chomsky
    Normal Form (`WCNF.__init__`), whose productions have the forms
    `A -> B C`, `A -> a` and `A -> epsilon`. */
module Grammars {
  import opened Lists

  /** A grammar symbol as pyformlang represents it. */
  datatype Symbol = Terminal(value: string) | Variable(name: string)

  /** `to_text()`: the text key of a symbol (a label for a terminal, a matrix key for a variable). */
  function Text(s: Symbol): string {
    match s
    case Terminal(t) => t
    case Variable(v) => v
  }

  /** A production `head -> body`; its head is a variable, given by name.
      An empty body is an epsilon-production. */
  datatype Production = Production(head: string, body: seq<Symbol>)

  /** A context-free grammar: its start variable and its productions, in
      the (fixed, otherwise unspecified) order in which pyformlang yields them. */
  datatype Cfg = Cfg(start: string, productions: seq<Production>)

  /** The shapes `_is_in_wcnf` accepts: a body of at most two symbols, two
      variables when it has two, a terminal when it has one. */
  predicate HasWcnfShape(p: Production) {
    && |p.body| <= 2
    && (|p.body| == 2 ==> p.body[0].Variable? && p.body[1].Variable?)
    && (|p.body| == 1 ==> p.body[0].Terminal?)
  }

  /** `_is_in_wcnf`: the scan that answers false at the first production of another shape. */
  function IsInWcnf(ps: seq<Production>): (r: bool)
    ensures r <==> forall i :: 0 <= i < |ps| ==> HasWcnfShape(ps[i])
  {
    if |ps| == 0 then true
    else if |ps[0].body| > 2 then false
    else if |ps[0].body| == 2 && !(ps[0].body[0].Variable? && ps[0].body[1].Variable?) then false
    else if |ps[0].body| == 1 && !ps[0].body[0].Terminal? then false
    else IsInWcnf(ps[1..])
  }

  /** The grammar the unary and binary lists are read from: the input itself
      when it already has the restricted shape, otherwise `normalised`, the
      productions that `cfg.to_normal_form()` returns. */
  function NormalForm(cfg: Cfg, normalised: seq<Production>): seq<Production> {
    if IsInWcnf(cfg.productions) then cfg.productions else normalised
  }

  /** The productions of `ps` whose body has exactly `n` symbols, in order. */
  function WithBodyLength(ps: seq<Production>, n: nat): seq<Production> {
    if |ps| == 0 then []
    else
      var p := ps[|ps| - 1];
      WithBodyLength(ps[..|ps| - 1], n) + (if |p.body| == n then [p] else [])
  }

  /** Exactly the productions with an `n`-symbol body are kept. */
  lemma {:induction false} WithBodyLengthMembers(ps: seq<Production>, n: nat, p: Production)
    ensures p in WithBodyLength(ps, n) <==> p in ps && |p.body| == n
  {
    if |ps| > 0 {
      var init := ps[..|ps| - 1];
      assert ps == init + [ps[|ps| - 1]];
      WithBodyLengthMembers(init, n, p);
    }
  }

  lemma WithBodyLengthSnoc(ps: seq<Production>, p: Production, n: nat)
    ensures WithBodyLength(ps + [p], n) == WithBodyLength(ps, n) + (if |p.body| == n then [p] else [])
  {
    assert (ps + [p])[..|ps|] == ps;
  }

  /** One step of a scan that keeps the distinct productions with an `n`-symbol body. */
  lemma DedupStep(ps: seq<Production>, i: nat, n: nat)
    requires i < |ps|
    ensures Dedup(WithBodyLength(ps[..i + 1], n))
         == if |ps[i].body| == n then AppendNew(Dedup(WithBodyLength(ps[..i], n)), ps[i])
            else Dedup(WithBodyLength(ps[..i], n))
  {
    assert ps[..i + 1] == ps[..i] + [ps[i]];
    WithBodyLengthSnoc(ps[..i], ps[i], n);
    if |ps[i].body| == n {
      DedupSnoc(WithBodyLength(ps[..i], n), ps[i]);
    } else {
      assert WithBodyLength(ps[..i + 1], n) == WithBodyLength(ps[..i], n);
    }
  }

  /** The variables and terminals collected so far. */
  datatype Vocabulary = Vocabulary(variables: seq<string>, terminals: seq<string>)

  /** Records one symbol unless it is already recorded. */
  function AddSymbol(voc: Vocabulary, s: Symbol): Vocabulary {
    match s
    case Terminal(t) => voc.(terminals := AppendNew(voc.terminals, t))
    case Variable(v) => voc.(variables := AppendNew(voc.variables, v))
  }

  /** Records the symbols of `syms` in order. */
  function Collect(voc: Vocabulary, syms: seq<Symbol>): Vocabulary {
    if |syms| == 0 then voc
    else AddSymbol(Collect(voc, syms[..|syms| - 1]), syms[|syms| - 1])
  }

  /** The symbols the vocabulary scan visits: for each production, its head
      and then the symbols of its body. */
  function Occurrences(ps: seq<Production>): seq<Symbol> {
    if |ps| == 0 then []
    else
      var p := ps[|ps| - 1];
      Occurrences(ps[..|ps| - 1]) + [Variable(p.head)] + p.body
  }

  /** The key pyformlang sorts variables and terminals by: their own text. */
  function StringKey(s: string): string {
    s
  }

  /** A text for productions, `head -> body`, in the manner of pyformlang's `str`. */
  function ProductionText(p: Production): string {
    p.head + " ->" + BodyText(p.body)
  }

  function BodyText(body: seq<Symbol>): string {
    if |body| == 0 then "" else " " + Text(body[0]) + BodyText(body[1..])
  }

  /** A grammar in WCNF (the fields of the `WCNF` class). */
  datatype Wcnf = Wcnf(
    start: string,
    epsilon: seq<Production>,
    unary: seq<Production>,
    binary: seq<Production>,
    variables: seq<string>,
    terminals: seq<string>)

  function AllProductions(w: Wcnf): seq<Production> {
    w.epsilon + w.unary + w.binary
  }

  /** `w` is what `WCNF.__init__` builds from `cfg`, `normalised` standing for
      `cfg.to_normal_form()` and `text` for `str` on productions:
      epsilon-productions from the original grammar, unary and binary ones
      from the normal form, each list deduplicated in first-seen order; the
      variables (heads and body variables) and terminals of the three lists
      in first-seen order; every list then sorted by its key. */
  ghost predicate BuiltFrom(w: Wcnf, cfg: Cfg, normalised: seq<Production>, text: Production -> string) {
    var cnf := NormalForm(cfg, normalised);
    var eps := Dedup(WithBodyLength(cfg.productions, 0));
    var unary := Dedup(WithBodyLength(cnf, 1));
    var binary := Dedup(WithBodyLength(cnf, 2));
    var voc := Collect(Vocabulary([], []), Occurrences(eps + unary + binary));
    && w.start == cfg.start
    && w.epsilon == SortByKey(eps, text)
    && w.unary == SortByKey(unary, text)
    && w.binary == SortByKey(binary, text)
    && w.variables == SortByKey(voc.variables, StringKey)
    && w.terminals == SortByKey(voc.terminals, StringKey)
  }

  /** `WCNF.__init__`. */
  method BuildWcnf(cfg: Cfg, normalised: seq<Production>, text: Production -> string) returns (w: Wcnf)
    ensures BuiltFrom(w, cfg, normalised, text)
  {
    var cnf := if IsInWcnf(cfg.productions) then cfg.productions else normalised;
    var epsilon := CollectEpsilon(cfg.productions);
    var unary, binary := PartitionByShape(cnf);
    var variables, terminals := CollectVocabulary(epsilon + unary + binary);
    w := Wcnf(
      cfg.start,
      SortByKey(epsilon, text),
      SortByKey(unary, text),
      SortByKey(binary, text),
      SortByKey(variables, StringKey),
      SortByKey(terminals, StringKey));
  }

  /** The first loop of `WCNF.__init__`: the distinct epsilon-productions of the original grammar. */
  method CollectEpsilon(ps: seq<Production>) returns (epsilon: seq<Production>)
    ensures epsilon == Dedup(WithBodyLength(ps, 0))
  {
    epsilon := [];
    for i := 0 to |ps|
      invariant epsilon == Dedup(WithBodyLength(ps[..i], 0))
    {
      var production := ps[i];
      DedupStep(ps, i, 0);
      if |production.body| == 0 && production !in epsilon {
        epsilon := epsilon + [production];
      }
    }
    assert ps[..|ps|] == ps;
  }

  /** The second loop of `WCNF.__init__`: the distinct unary and binary
      productions; a body of any other length is skipped. */
  method PartitionByShape(cnf: seq<Production>) returns (unary: seq<Production>, binary: seq<Production>)
    ensures unary == Dedup(WithBodyLength(cnf, 1))
    ensures binary == Dedup(WithBodyLength(cnf, 2))
  {
    unary, binary := [], [];
    for i := 0 to |cnf|
      invariant unary == Dedup(WithBodyLength(cnf[..i], 1))
      invariant binary == Dedup(WithBodyLength(cnf[..i], 2))
    {
      var production := cnf[i];
      DedupStep(cnf, i, 1);
      DedupStep(cnf, i, 2);
      if |production.body| == 1 && production !in unary {
        unary := unary + [production];
      } else if |production.body| == 2 && production !in binary {
        binary := binary + [production];
      }
    }
    assert cnf[..|cnf|] == cnf;
  }

  /** The third loop of `WCNF.__init__`: heads and body variables into
      `variables`, body terminals into `terminals`, each once, in the order met. */
  method CollectVocabulary(productions: seq<Production>) returns (variables: seq<string>, terminals: seq<string>)
    ensures Vocabulary(variables, terminals) == Collect(Vocabulary([], []), Occurrences(productions))
  {
    variables, terminals := [], [];
    for i := 0 to |productions|
      invariant Vocabulary(variables, terminals) == Collect(Vocabulary([], []), Occurrences(productions[..i]))
    {
      var production := productions[i];
      ghost var before := Occurrences(productions[..i]) + [Variable(production.head)];
      CollectSnoc(Vocabulary([], []), Occurrences(productions[..i]), Variable(production.head));
      if production.head !in variables {
        variables := variables + [production.head];
      }
      assert before + production.body[..0] == before;
      for j := 0 to |production.body|
        invariant Vocabulary(variables, terminals) == Collect(Vocabulary([], []), before + production.body[..j])
      {
        var term := production.body[j];
        assert before + production.body[..j + 1] == (before + production.body[..j]) + [term];
        CollectSnoc(Vocabulary([], []), before + production.body[..j], term);
        if term.Terminal? && term.value !in terminals {
          terminals := terminals + [term.value];
        } else if term.Variable? && term.name !in variables {
          variables := variables + [term.name];
        }
      }
      assert production.body[..|production.body|] == production.body;
      OccurrencesStep(productions, i);
    }
    assert productions[..|productions|] == productions;
  }

  lemma CollectSnoc(voc: Vocabulary, syms: seq<Symbol>, s: Symbol)
    ensures Collect(voc, syms + [s]) == AddSymbol(Collect(voc, syms), s)
  {
    assert (syms + [s])[..|syms|] == syms;
  }

  lemma OccurrencesStep(ps: seq<Production>, i: nat)
    requires i < |ps|
    ensures Occurrences(ps[..i + 1]) == Occurrences(ps[..i]) + [Variable(ps[i].head)] + ps[i].body
  {
    assert ps[..i + 1][..i] == ps[..i];
  }

  /** The vocabulary scan records exactly the symbols it visits, each once. */
  lemma {:induction false} CollectMembers(voc: Vocabulary, syms: seq<Symbol>, x: string)
    ensures x in Collect(voc, syms).variables <==> x in voc.variables || Variable(x) in syms
    ensures x in Collect(voc, syms).terminals <==> x in voc.terminals || Terminal(x) in syms
  {
    if |syms| > 0 {
      var init := syms[..|syms| - 1];
      assert syms == init + [syms[|syms| - 1]];
      CollectMembers(voc, init, x);
    }
  }

  lemma {:induction false} CollectDistinct(voc: Vocabulary, syms: seq<Symbol>)
    requires Distinct(voc.variables) && Distinct(voc.terminals)
    ensures Distinct(Collect(voc, syms).variables) && Distinct(Collect(voc, syms).terminals)
  {
    if |syms| > 0 {
      CollectDistinct(voc, syms[..|syms| - 1]);
    }
  }

  /** The scan visits the head and the body of every production. */
  lemma {:induction false} OccurrencesMembers(ps: seq<Production>, s: Symbol)
    ensures s in Occurrences(ps) <==> exists p :: p in ps && (s == Variable(p.head) || s in p.body)
  {
    if |ps| > 0 {
      var init := ps[..|ps| - 1];
      var last := ps[|ps| - 1];
      assert ps == init + [last];
      OccurrencesMembers(init, s);
      if s in Occurrences(ps) {
        if s !in Occurrences(init) {
          assert s == Variable(last.head) || s in last.body;
        }
      } else {
        forall p | p in ps ensures !(s == Variable(p.head) || s in p.body) {
          if p != last {
            assert p in init;
          }
        }
      }
    }
  }

  /** The three production lists of a built WCNF: exactly the distinct
      productions of each shape (epsilon ones from the original grammar,
      unary and binary ones from its normal form, anything else in neither),
      each list a sorted permutation of its first-seen deduplication. */
  lemma WcnfProductions(w: Wcnf, cfg: Cfg, normalised: seq<Production>, text: Production -> string)
    requires BuiltFrom(w, cfg, normalised, text)
    ensures w.start == cfg.start
    ensures forall p :: p in w.epsilon <==> p in cfg.productions && |p.body| == 0
    ensures forall p :: p in w.unary <==> p in NormalForm(cfg, normalised) && |p.body| == 1
    ensures forall p :: p in w.binary <==> p in NormalForm(cfg, normalised) && |p.body| == 2
    ensures IsInWcnf(cfg.productions) ==>
      (forall p :: p in w.unary <==> p in cfg.productions && |p.body| == 1)
    ensures Distinct(w.epsilon) && Distinct(w.unary) && Distinct(w.binary)
    ensures SortedBy(w.epsilon, text) && SortedBy(w.unary, text) && SortedBy(w.binary, text)
    ensures multiset(w.epsilon) == multiset(Dedup(WithBodyLength(cfg.productions, 0)))
    ensures multiset(w.unary) == multiset(Dedup(WithBodyLength(NormalForm(cfg, normalised), 1)))
    ensures multiset(w.binary) == multiset(Dedup(WithBodyLength(NormalForm(cfg, normalised), 2)))
  {
    var cnf := NormalForm(cfg, normalised);
    ListContents(w.epsilon, cfg.productions, 0, text);
    ListContents(w.unary, cnf, 1, text);
    ListContents(w.binary, cnf, 2, text);
  }

  /** The members of the three production lists, without their order. */
  lemma WcnfProductionMembers(w: Wcnf, cfg: Cfg, normalised: seq<Production>, text: Production -> string)
    requires BuiltFrom(w, cfg, normalised, text)
    ensures w.start == cfg.start
    ensures forall p :: p in w.epsilon <==> p in cfg.productions && |p.body| == 0
    ensures forall p :: p in w.unary <==> p in NormalForm(cfg, normalised) && |p.body| == 1
    ensures forall p :: p in w.binary <==> p in NormalForm(cfg, normalised) && |p.body| == 2
  {
    WcnfProductions(w, cfg, normalised, text);
  }

  lemma ListContents(l: seq<Production>, ps: seq<Production>, n: nat, text: Production -> string)
    requires l == SortByKey(Dedup(WithBodyLength(ps, n)), text)
    ensures forall p :: p in l <==> p in ps && |p.body| == n
    ensures Distinct(l) && SortedBy(l, text)
    ensures multiset(l) == multiset(Dedup(WithBodyLength(ps, n)))
  {
    var d := Dedup(WithBodyLength(ps, n));
    SortByKeyPermutes(d, text);
    SortByKeySorted(d, text);
    PermutationKeepsDistinct(d, l);
    forall p ensures p in l <==> p in ps && |p.body| == n {
      DedupMembers(WithBodyLength(ps, n), p);
      WithBodyLengthMembers(ps, n, p);
    }
  }

  /** The vocabulary of a built WCNF: the variables are exactly the heads and
      body variables of its productions, the terminals exactly their body
      terminals, both without repeats and sorted. */
  lemma WcnfVocabulary(w: Wcnf, cfg: Cfg, normalised: seq<Production>, text: Production -> string)
    requires BuiltFrom(w, cfg, normalised, text)
    ensures forall x :: x in w.variables <==> exists p :: p in AllProductions(w) && (p.head == x || Variable(x) in p.body)
    ensures forall x :: x in w.terminals <==> exists p :: p in AllProductions(w) && Terminal(x) in p.body
    ensures Distinct(w.variables) && Distinct(w.terminals)
    ensures SortedBy(w.variables, StringKey) && SortedBy(w.terminals, StringKey)
  {
    var cnf := NormalForm(cfg, normalised);
    var eps := Dedup(WithBodyLength(cfg.productions, 0));
    var unary := Dedup(WithBodyLength(cnf, 1));
    var binary := Dedup(WithBodyLength(cnf, 2));
    var all := eps + unary + binary;
    var voc := Collect(Vocabulary([], []), Occurrences(all));
    CollectDistinct(Vocabulary([], []), Occurrences(all));
    SortedVocabulary(voc.variables, w.variables);
    SortedVocabulary(voc.terminals, w.terminals);
    forall p ensures p in AllProductions(w) <==> p in all {
      BuiltProductionMembers(w, cfg, normalised, text, p);
    }
    forall x
      ensures x in w.variables <==> exists p :: p in AllProductions(w) && (p.head == x || Variable(x) in p.body)
      ensures x in w.terminals <==> exists p :: p in AllProductions(w) && Terminal(x) in p.body
    {
      CollectMembers(Vocabulary([], []), Occurrences(all), x);
      OccurrencesMembers(all, Variable(x));
      OccurrencesMembers(all, Terminal(x));
    }
  }

  /** Sorting a list of distinct names keeps its members and makes it
      sorted, still without repeats. */
  lemma SortedVocabulary(names: seq<string>, sorted: seq<string>)
    requires Distinct(names) && sorted == SortByKey(names, StringKey)
    ensures Distinct(sorted) && SortedBy(sorted, StringKey)
    ensures forall x :: x in sorted <==> x in names
  {
    SortByKeyPermutes(names, StringKey);
    SortByKeySorted(names, StringKey);
    PermutationKeepsDistinct(names, sorted);
    forall x ensures x in sorted <==> x in names {
      assert x in sorted <==> x in multiset(sorted);
      assert x in names <==> x in multiset(names);
    }
  }

  /** The productions of a built WCNF are those of the deduplicated lists
      its vocabulary was collected from. */
  lemma BuiltProductionMembers(w: Wcnf, cfg: Cfg, normalised: seq<Production>, text: Production -> string, p: Production)
    requires BuiltFrom(w, cfg, normalised, text)
    ensures var cnf := NormalForm(cfg, normalised);
      p in AllProductions(w) <==>
        p in Dedup(WithBodyLength(cfg.productions, 0)) + Dedup(WithBodyLength(cnf, 1)) + Dedup(WithBodyLength(cnf, 2))
  {
    var cnf := NormalForm(cfg, normalised);
    WcnfProductionMembers(w, cfg, normalised, text);
    DedupMembers(WithBodyLength(cfg.productions, 0), p);
    DedupMembers(WithBodyLength(cnf, 1), p);
    DedupMembers(WithBodyLength(cnf, 2), p);
    WithBodyLengthMembers(cfg.productions, 0, p);
    WithBodyLengthMembers(cnf, 1, p);
    WithBodyLengthMembers(cnf, 2, p);
  }

  /** What the solver relies on: every head is a variable, unary bodies have
      one symbol, binary bodies are two variables, all of them listed in
      `variables`. */
  predicate WellFormed(w: Wcnf) {
    && (forall p :: p in w.epsilon ==> |p.body| == 0 && p.head in w.variables)
    && (forall p :: p in w.unary ==> |p.body| == 1 && p.head in w.variables)
    && (forall p :: p in w.binary ==>
          && |p.body| == 2 && p.head in w.variables
          && p.body[0].Variable? && p.body[0].name in w.variables
          && p.body[1].Variable? && p.body[1].name in w.variables)
  }

  /** A WCNF built from a grammar whose normal form has the restricted shape is well formed. */
  lemma WcnfWellFormed(w: Wcnf, cfg: Cfg, normalised: seq<Production>, text: Production -> string)
    requires BuiltFrom(w, cfg, normalised, text)
    requires IsInWcnf(NormalForm(cfg, normalised))
    ensures WellFormed(w)
  {
    WcnfProductions(w, cfg, normalised, text);
    WcnfVocabulary(w, cfg, normalised, text);
    WellFormedFromContents(w, NormalForm(cfg, normalised));
  }

  lemma WellFormedFromContents(w: Wcnf, cnf: seq<Production>)
    requires IsInWcnf(cnf)
    requires forall p :: p in w.epsilon ==> |p.body| == 0
    requires forall p :: p in w.unary ==> p in cnf && |p.body| == 1
    requires forall p :: p in w.binary ==> p in cnf && |p.body| == 2
    requires forall x :: x in w.variables <==> exists p :: p in AllProductions(w) && (p.head == x || Variable(x) in p.body)
    ensures WellFormed(w)
  {
    forall p | p in AllProductions(w) ensures p.head in w.variables {
    }
    forall p | p in w.binary
      ensures p.body[0].Variable? && p.body[1].Variable?
      ensures p.body[0].name in w.variables && p.body[1].name in w.variables
    {
      var i :| 0 <= i < |cnf| && cnf[i] == p;
      assert HasWcnfShape(cnf[i]);
      assert p in AllProductions(w);
      assert p.body[0] in p.body && p.body[1] in p.body;
    }
  }
}
