/**
 Layered query expansion over the neighbour graph.  The graph and the alias
 table are functions of the term; `norm` is the lower-and-strip normaliser.
 */
module QueryExpansion {
  import opened Wrappers

  type Term = string

  function NormalizeAll(norm: Term -> Term, terms: set<Term>): set<Term> {
    set t | t in terms :: norm(t)
  }

  /** The normalised neighbours of a set of terms. */
  function NeighborsOf(norm: Term -> Term, graph: Term -> set<Term>, terms: set<Term>): set<Term> {
    set t, n | t in terms && n in graph(t) :: norm(n)
  }

  /** The normalised query terms, resolved through the alias table when there is one. */
  function Seeds(norm: Term -> Term, query: seq<Term>, aliases: Option<set<Term> -> set<Term>>): set<Term> {
    var terms := NormalizeAll(norm, set t | t in query);
    match aliases
    case None => terms
    case Some(resolve) => NormalizeAll(norm, resolve(terms))
  }

  /** One term: add its unseen neighbours to the expansion and to the next layer. */
  method ExpandTerm(norm: Term -> Term, graph: Term -> set<Term>, term: Term, expanded0: set<Term>, layer0: set<Term>)
    returns (expanded: set<Term>, layer: set<Term>)
    ensures expanded == expanded0 + NeighborsOf(norm, graph, {term})
    ensures layer == layer0 + (NeighborsOf(norm, graph, {term}) - expanded0)
  {
    expanded, layer := expanded0, layer0;
    var rest := graph(term);
    ghost var taken: set<Term> := {};
    while rest != {}
      invariant rest !! taken && graph(term) == rest + taken
      invariant expanded == expanded0 + NormalizeAll(norm, taken)
      invariant layer == layer0 + (NormalizeAll(norm, taken) - expanded0)
    {
      var neighbor :| neighbor in rest;
      var n := norm(neighbor);
      assert NormalizeAll(norm, taken + {neighbor}) == NormalizeAll(norm, taken) + {n};
      if n !in expanded {
        expanded := expanded + {n};
        layer := layer + {n};
      }
      rest, taken := rest - {neighbor}, taken + {neighbor};
    }
    assert taken == graph(term);
    assert NeighborsOf(norm, graph, {term}) == NormalizeAll(norm, taken);
  }

  /** One hop from a layer. */
  method ExpandLayer(norm: Term -> Term, graph: Term -> set<Term>, current: set<Term>, expanded0: set<Term>)
    returns (expanded: set<Term>, next: set<Term>)
    ensures expanded == expanded0 + NeighborsOf(norm, graph, current)
    ensures next == NeighborsOf(norm, graph, current) - expanded0
  {
    expanded, next := expanded0, {};
    var rest := current;
    ghost var taken: set<Term> := {};
    while rest != {}
      invariant rest !! taken && current == rest + taken
      invariant expanded == expanded0 + NeighborsOf(norm, graph, taken)
      invariant next == NeighborsOf(norm, graph, taken) - expanded0
    {
      var term :| term in rest;
      assert NeighborsOf(norm, graph, taken + {term}) == NeighborsOf(norm, graph, taken)
          + NeighborsOf(norm, graph, {term});
      expanded, next := ExpandTerm(norm, graph, term, expanded, next);
      rest, taken := rest - {term}, taken + {term};
    }
    assert taken == current;
  }

  function Iterate(spread: set<Term> -> set<Term>, seeds: set<Term>, hops: nat): set<Term> {
    if hops == 0 then seeds
    else
      var inner := Iterate(spread, seeds, hops - 1);
      inner + spread(inner)
  }

  function Spread(norm: Term -> Term, graph: Term -> set<Term>): set<Term> -> set<Term> {
    (terms: set<Term>) => NeighborsOf(norm, graph, terms)
  }

  /** The terms at distance at most `hops` from the seeds. */
  function Within(norm: Term -> Term, graph: Term -> set<Term>, seeds: set<Term>, hops: nat): set<Term> {
    Iterate(Spread(norm, graph), seeds, hops)
  }

  lemma WithinStep(norm: Term -> Term, graph: Term -> set<Term>, seeds: set<Term>, hops: nat)
    requires hops > 0
    ensures Within(norm, graph, seeds, hops) == Within(norm, graph, seeds, hops - 1)
              + NeighborsOf(norm, graph, Within(norm, graph, seeds, hops - 1))
  {}

  /** Once spreading adds nothing, it never will. */
  lemma {:induction false} IterateFixed(spread: set<Term> -> set<Term>, seeds: set<Term>, hop: nat, more: nat)
    requires hop <= more && spread(Iterate(spread, seeds, hop)) <= Iterate(spread, seeds, hop)
    ensures Iterate(spread, seeds, more) == Iterate(spread, seeds, hop)
  {
    if hop < more { IterateFixed(spread, seeds, hop, more - 1); }
  }

  lemma {:induction false} IterateGrows(spread: set<Term> -> set<Term>, seeds: set<Term>, hops: nat, more: nat)
    requires hops <= more
    ensures Iterate(spread, seeds, hops) <= Iterate(spread, seeds, more)
  {
    if hops < more { IterateGrows(spread, seeds, hops, more - 1); }
  }

  /** After `hop` hops: all terms within that distance, the last ones found being the current layer. */
  ghost predicate Reached(norm: Term -> Term, graph: Term -> set<Term>, seeds: set<Term>, hop: nat,
        expanded: set<Term>, current: set<Term>) {
    && expanded == Within(norm, graph, seeds, hop)
    && current <= expanded
    && NeighborsOf(norm, graph, expanded) <= expanded + NeighborsOf(norm, graph, current)
  }

  lemma ReachNext(norm: Term -> Term, graph: Term -> set<Term>, seeds: set<Term>, hop: nat, expanded: set<Term>,
        current: set<Term>)
    requires Reached(norm, graph, seeds, hop, expanded, current)
    ensures var found := NeighborsOf(norm, graph, current);
            Reached(norm, graph, seeds, hop + 1, expanded + found, found - expanded)
  {
    NextLayer(norm, graph, expanded, current);
    WithinStep(norm, graph, seeds, hop + 1);
  }

  /** The hop loop, which stops early at an empty layer. */
  method ExpandHops(norm: Term -> Term, graph: Term -> set<Term>, seeds: set<Term>, maxHops: nat)
    returns (expanded: set<Term>)
    ensures expanded == Within(norm, graph, seeds, maxHops)
  {
    expanded := seeds;
    var current := seeds;
    var hop := 0;
    while hop < maxHops
      invariant hop <= maxHops && Reached(norm, graph, seeds, hop, expanded, current)
    {
      ReachNext(norm, graph, seeds, hop, expanded, current);
      expanded, current := ExpandLayer(norm, graph, current, expanded);
      hop := hop + 1;
      if current == {} {
        EmptyLayer(norm, graph, seeds, hop, expanded, maxHops);
        return;
      }
    }
  }

  method ExpandQuery(norm: Term -> Term, query: seq<Term>, graph: Term -> set<Term>, maxHops: int,
        aliases: Option<set<Term> -> set<Term>>)
    returns (expanded: set<Term>)
    ensures expanded == Within(norm, graph, Seeds(norm, query, aliases), if maxHops < 0 then 0 else maxHops)
  {
    expanded := NormalizeAll(norm, set t | t in query);
    if aliases.Some? {
      expanded := NormalizeAll(norm, aliases.value(expanded));
    }
    if maxHops > 0 {
      expanded := ExpandHops(norm, graph, expanded, maxHops);
    }
  }

  lemma EmptyLayer(norm: Term -> Term, graph: Term -> set<Term>, seeds: set<Term>, hop: nat, expanded: set<Term>,
        maxHops: nat)
    requires Reached(norm, graph, seeds, hop, expanded, {}) && hop <= maxHops
    ensures expanded == Within(norm, graph, seeds, maxHops)
  {
    assert NeighborsOf(norm, graph, {}) == {};
    Saturated(norm, graph, seeds, hop, maxHops);
  }

  /** Only the newest layer can reach new terms: older terms' neighbours are already there. */
  lemma NextLayer(norm: Term -> Term, graph: Term -> set<Term>, before: set<Term>, layer: set<Term>)
    requires layer <= before && NeighborsOf(norm, graph, before) <= before + NeighborsOf(norm, graph, layer)
    ensures var after := before + NeighborsOf(norm, graph, layer);
            && after == before + NeighborsOf(norm, graph, before)
            && NeighborsOf(norm, graph, after) <= after
                 + NeighborsOf(norm, graph, NeighborsOf(norm, graph, layer) - before)
  {
    var fresh' := NeighborsOf(norm, graph, layer) - before;
    var after := before + NeighborsOf(norm, graph, layer);
    assert after == before + fresh';
    forall n | n in NeighborsOf(norm, graph, after) ensures n in after + NeighborsOf(norm, graph, fresh') {
      var t, m :| t in after && m in graph(t) && n == norm(m);
      if t in before { assert n in NeighborsOf(norm, graph, before); }
    }
  }

  /** Stopping at an empty layer loses nothing: further hops would add nothing. */
  lemma Saturated(norm: Term -> Term, graph: Term -> set<Term>, seeds: set<Term>, hop: nat, more: nat)
    requires hop <= more && NeighborsOf(norm, graph, Within(norm, graph, seeds, hop)) <= Within(norm, graph, seeds, hop)
    ensures Within(norm, graph, seeds, more) == Within(norm, graph, seeds, hop)
  {
    var spread := Spread(norm, graph);
    assert spread(Iterate(spread, seeds, hop)) == NeighborsOf(norm, graph, Within(norm, graph, seeds, hop));
    IterateFixed(spread, seeds, hop, more);
  }

  // ----- what the expansion is -----

  /** A chain of normalised neighbour steps. */
  ghost predicate IsWalk(norm: Term -> Term, graph: Term -> set<Term>, walk: seq<Term>) {
    walk != [] && forall i | 0 < i < |walk| :: StepAt(norm, graph, walk, i)
  }

  predicate StepAt(norm: Term -> Term, graph: Term -> set<Term>, walk: seq<Term>, i: nat)
    requires 0 < i < |walk|
  {
    walk[i] in NeighborsOf(norm, graph, {walk[i - 1]})
  }

  /** The chain leads from a seed to `t` in at most `hops` steps. */
  predicate Joins(walk: seq<Term>, seeds: set<Term>, hops: nat, t: Term) {
    0 < |walk| <= hops + 1 && walk[0] in seeds && walk[|walk| - 1] == t
  }

  /** The expansion holds exactly the ends of walks of at most `hops` steps from a seed. */
  lemma {:induction false} WithinIsDistance(norm: Term -> Term, graph: Term -> set<Term>, seeds: set<Term>, hops: nat,
        t: Term)
    ensures t in Within(norm, graph, seeds, hops) <==>
            exists walk :: IsWalk(norm, graph, walk) && Joins(walk, seeds, hops, t)
    decreases hops
  {
    if t in Within(norm, graph, seeds, hops) { var _ := WalkTo(norm, graph, seeds, hops, t); }
    if walk :| IsWalk(norm, graph, walk) && Joins(walk, seeds, hops, t) {
      WalkStays(norm, graph, seeds, hops, walk);
    }
  }

  /** A walk followed by one more step. */
  lemma WalkExtends(norm: Term -> Term, graph: Term -> set<Term>, walk: seq<Term>, step: seq<Term>)
    requires IsWalk(norm, graph, walk) && IsWalk(norm, graph, step) && |step| == 2 && step[0] == walk[|walk| - 1]
    ensures IsWalk(norm, graph, walk + step[1..])
  {
    var longer := walk + step[1..];
    forall i | 0 < i < |longer| ensures StepAt(norm, graph, longer, i) {
      if i < |walk| { assert StepAt(norm, graph, walk, i); } else { assert StepAt(norm, graph, step, 1); }
    }
  }

  lemma {:induction false} WalkTo(norm: Term -> Term, graph: Term -> set<Term>, seeds: set<Term>, hops: nat, t: Term)
    returns (walk: seq<Term>)
    requires t in Within(norm, graph, seeds, hops)
    ensures IsWalk(norm, graph, walk) && Joins(walk, seeds, hops, t)
    decreases hops, 1
  {
    if hops == 0 {
      walk := [t];
    } else if t in Within(norm, graph, seeds, hops - 1) {
      walk := WalkTo(norm, graph, seeds, hops - 1, t);
    } else {
      var step := LastStep(norm, graph, seeds, hops, t);
      walk := WalkBefore(norm, graph, seeds, hops, step);
    }
  }

  lemma {:induction false} WalkBefore(norm: Term -> Term, graph: Term -> set<Term>, seeds: set<Term>, hops: nat,
        step: seq<Term>)
    returns (walk: seq<Term>)
    requires hops > 0 && |step| == 2 && step[0] in Within(norm, graph, seeds, hops - 1) && IsWalk(norm, graph, step)
    ensures IsWalk(norm, graph, walk) && Joins(walk, seeds, hops, step[1])
    decreases hops, 0
  {
    var shorter := WalkTo(norm, graph, seeds, hops - 1, step[0]);
    WalkExtends(norm, graph, shorter, step);
    walk := shorter + step[1..];
  }

  /** A term first reached at some hop is one step from a term reached before. */
  lemma LastStep(norm: Term -> Term, graph: Term -> set<Term>, seeds: set<Term>, hops: nat, t: Term)
    returns (step: seq<Term>)
    requires hops > 0 && t in Within(norm, graph, seeds, hops) && t !in Within(norm, graph, seeds, hops - 1)
    ensures |step| == 2 && step[0] in Within(norm, graph, seeds, hops - 1) && step[1] == t && IsWalk(norm, graph, step)
  {
    var inner := Within(norm, graph, seeds, hops - 1);
    WithinStep(norm, graph, seeds, hops);
    assert t in NeighborsOf(norm, graph, inner);
    var u, m :| u in inner && m in graph(u) && t == norm(m);
    step := [u, t];
    assert StepAt(norm, graph, step, 1);
  }

  lemma StepStays(norm: Term -> Term, graph: Term -> set<Term>, seeds: set<Term>, hops: nat, walk: seq<Term>, n: nat)
    requires IsWalk(norm, graph, walk) && 0 < n < |walk| && hops > 0
               && walk[n - 1] in Within(norm, graph, seeds, hops - 1)
    ensures walk[n] in Within(norm, graph, seeds, hops)
  {
    assert StepAt(norm, graph, walk, n);
    WithinStep(norm, graph, seeds, hops);
  }

  /** After `n` steps a walk from a seed is within `n` hops. */
  lemma {:induction false} WalkReaches(norm: Term -> Term, graph: Term -> set<Term>, seeds: set<Term>, walk: seq<Term>,
        n: nat)
    requires IsWalk(norm, graph, walk) && walk[0] in seeds && n < |walk|
    ensures walk[n] in Within(norm, graph, seeds, n)
  {
    if n > 0 {
      WalkReaches(norm, graph, seeds, walk, n - 1);
      StepStays(norm, graph, seeds, n, walk, n);
    }
  }

  lemma WalkStays(norm: Term -> Term, graph: Term -> set<Term>, seeds: set<Term>, hops: nat, walk: seq<Term>)
    requires IsWalk(norm, graph, walk) && |walk| <= hops + 1 && walk[0] in seeds
    ensures walk[|walk| - 1] in Within(norm, graph, seeds, hops)
  {
    WalkReaches(norm, graph, seeds, walk, |walk| - 1);
    MoreHops(norm, graph, seeds, |walk| - 1, hops);
  }

  /** More hops never lose a term. */
  lemma MoreHops(norm: Term -> Term, graph: Term -> set<Term>, seeds: set<Term>, hops: nat, more: nat)
    requires hops <= more
    ensures Within(norm, graph, seeds, hops) <= Within(norm, graph, seeds, more)
  {
    IterateGrows(Spread(norm, graph), seeds, hops, more);
  }

  // ----- where the expansion starts -----

  /** The start: the normalised query terms, or what the alias table makes of all of them, normalised again. */
  ghost predicate IsSeed(norm: Term -> Term, query: seq<Term>, aliases: Option<set<Term> -> set<Term>>, t: Term) {
    match aliases
    case None => exists q :: q in query && t == norm(q)
    case Some(resolve) => exists a :: a in resolve(set q | q in query :: norm(q)) && t == norm(a)
  }

  /** Every such term is in the expansion, and without hops nothing else is; with hops, whatever they lead to. */
  lemma ExpansionStartsAtSeeds(norm: Term -> Term, query: seq<Term>, graph: Term -> set<Term>,
        aliases: Option<set<Term> -> set<Term>>, hops: nat, t: Term)
    ensures IsSeed(norm, query, aliases, t) ==> t in Within(norm, graph, Seeds(norm, query, aliases), hops)
    ensures t in Within(norm, graph, Seeds(norm, query, aliases), 0) <==> IsSeed(norm, query, aliases, t)
  {
    var seeds := Seeds(norm, query, aliases);
    MoreHops(norm, graph, seeds, 0, hops);
    var terms := NormalizeAll(norm, set q | q in query);
    assert terms == set q | q in query :: norm(q);
    assert t in Within(norm, graph, seeds, 0) <==> t in seeds;
  }
}
