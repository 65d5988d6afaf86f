/** The image of a single word under a transducer: the tree that imageRec builds. */
module Images {
  import opened Languages
  import opened Automata

  /** '-': no character on this side of a pair. */
  const DASH: Char := 45

  datatype Edge = Edge(u: Char, v: Char, to: State)

  datatype Transducer = Transducer(initial: State, accept: set<State>, trans: map<State, set<Edge>>) {
    function Out(s: State): set<Edge> {
      if s in trans then trans[s] else {}
    }

    function AlphaTransitions(s: State): set<Edge> {
      set e | e in Out(s) && e.u != DASH
    }

    function EpsilonTransitions(s: State): set<Edge> {
      set e | e in Out(s) && e.u == DASH
    }

    /** No edge without a character on either side, and no cycle of edges that read nothing. */
    ghost predicate Legal(rank: State -> nat) {
      forall s, e {:trigger e in Out(s)} :: e in Out(s) && e.u == '-' as int ==>
        e.v != '-' as int && rank(e.to) < rank(s)
    }
  }

  // ----- the relation -----

  /** Edges one after the other, from s to an accepting state. */
  ghost predicate IsRun(td: Transducer, s: State, run: seq<Edge>)
    decreases |run|
  {
    if run == [] then s in td.accept else run[0] in td.Out(s) && IsRun(td, run[0].to, run[1..])
  }

  /** One side of a pair: '-' stands for no character. */
  ghost function Side(c: Char): Word {
    if c == '-' as int then [] else [c]
  }

  ghost function Input(run: seq<Edge>): Word {
    if run == [] then [] else Side(run[0].u) + Input(run[1..])
  }

  ghost function Output(run: seq<Edge>): Word {
    if run == [] then [] else Side(run[0].v) + Output(run[1..])
  }

  /** The transducer relates u to v. */
  ghost predicate Transduces(td: Transducer, u: Word, v: Word) {
    exists run :: IsRun(td, td.initial, run) && Input(run) == u && Output(run) == v
  }

  /** A transducer with a single edge relates what is on its sides, and nothing else. */
  lemma OneEdge(td: Transducer, x: Char, y: Char, u: Word, v: Word)
    requires td == Transducer(0, {1}, map[0 := {Edge(x, y, 1)}, 1 := {}])
    ensures Transduces(td, u, v) <==>
        u == (if x == '-' as int then [] else [x]) && v == if y == '-' as int then [] else [y]
  {
    var e := Edge(x, y, 1);
    SingleRun(td, e);
    if run :| IsRun(td, td.initial, run) && Input(run) == u && Output(run) == v {
      assert run[0] == e && IsRun(td, 1, run[1..]);
      assert td.Out(1) == {};
      assert run[1..] == [];
    }
  }

  lemma SingleRun(td: Transducer, e: Edge)
    requires e in td.Out(td.initial) && e.to in td.accept
    ensures IsRun(td, td.initial, [e]) && Input([e]) == Side(e.u) && Output([e]) == Side(e.v)
  {
    assert [e][0] == e && [e][1..] == [];
    assert Input([]) == [] && Output([]) == [] && IsRun(td, e.to, []);
    assert Side(e.u) + [] == Side(e.u) && Side(e.v) + [] == Side(e.v);
  }

  // ----- the relation, read off position by position -----

  /** The edges of the run read u from position i on and write v. */
  ghost predicate Follows(td: Transducer, u: Word, i: nat, s: State, run: seq<Edge>, v: Word)
    decreases |run|
  {
    if run == [] then i == |u| && s in td.accept && v == []
    else
      var e := run[0];
      && e in td.Out(s)
      && (e.u == DASH || (i < |u| && u[i] == e.u)) && (e.v == DASH || (v != [] && v[0] == e.v))
      && Follows(td, u, if e.u == DASH then i else i + 1, e.to, run[1..], if e.v == DASH then v else v[1..])
  }

  /** From state s, what is left of u is related to v. */
  ghost predicate Relates(td: Transducer, u: Word, c: Config, v: Word) {
    exists run :: Follows(td, u, c.0, c.1, run, v)
  }

  /** A position in the word that is read, and a state of the transducer. */
  type Config = (nat, State)

  function After(c: Config, e: Edge): Config {
    (if e.u == DASH then c.0 else c.0 + 1, e.to)
  }

  /** The edge can be taken. */
  ghost predicate Fires(td: Transducer, u: Word, c: Config, e: Edge) {
    e in td.Out(c.1) && (e.u == DASH || (c.0 < |u| && u[c.0] == e.u))
  }

  ghost predicate Final(td: Transducer, u: Word, c: Config) {
    c.0 == |u| && c.1 in td.accept
  }

  /** One character more or less at the front. */
  lemma SideInFront(c: Char, x: Word, w: Word)
    ensures Side(c) + x == w <==> if c == DASH then x == w else w != [] && w[0] == c && x == w[1..]
  {
    if w != [] {
      assert w == [w[0]] + w[1..];
    }
    if c != DASH {
      assert ([c] + x)[0] == c && ([c] + x)[1..] == x;
    }
  }

  lemma {:induction false} FollowsIsRun(td: Transducer, u: Word, i: nat, s: State, run: seq<Edge>, v: Word)
    requires i <= |u|
    ensures Follows(td, u, i, s, run, v) <==> IsRun(td, s, run) && Input(run) == u[i..] && Output(run) == v
    decreases |run|
  {
    if run != [] {
      var e := run[0];
      SideInFront(e.u, Input(run[1..]), u[i..]);
      SideInFront(e.v, Output(run[1..]), v);
      if i < |u| {
        assert u[i..][1..] == u[i + 1..];
      }
      var j, w := if e.u == DASH then i else i + 1, if e.v == DASH || v == [] then v else v[1..];
      if j <= |u| {
        FollowsIsRun(td, u, j, e.to, run[1..], w);
      }
    }
  }

  lemma RelatesIsTransduces(td: Transducer, u: Word, v: Word)
    ensures Relates(td, u, (0, td.initial), v) <==> Transduces(td, u, v)
  {
    if run :| Follows(td, u, 0, td.initial, run, v) {
      FollowsIsRun(td, u, 0, td.initial, run, v);
      assert u[0..] == u;
    }
    if run :| IsRun(td, td.initial, run) && Input(run) == u && Output(run) == v {
      assert u[0..] == u;
      FollowsIsRun(td, u, 0, td.initial, run, v);
      assert Follows(td, u, (0, td.initial).0, (0, td.initial).1, run, v);
    }
  }

  lemma RelatesBefore(td: Transducer, u: Word, c: Config, e: Edge, v: Word)
    requires Fires(td, u, c, e) && Relates(td, u, After(c, e), v)
    ensures Relates(td, u, c, if e.v == DASH then v else [e.v] + v)
  {
    var run :| Follows(td, u, After(c, e).0, e.to, run, v);
    var longer, w := [e] + run, if e.v == DASH then v else [e.v] + v;
    assert longer[1..] == run && (e.v != DASH ==> w[1..] == v);
    assert Follows(td, u, c.0, c.1, longer, w);
  }

  // ----- the tree under way -----

  type Configs = map<State, set<Config>>

  /** What is written from p was written, after x, from the state before it. */
  ghost predicate SoundEdge(td: Transducer, u: Word, before: set<Config>, x: Char, after: set<Config>) {
    forall c, v {:trigger c in after, Relates(td, u, c, v)} :: c in after && Relates(td, u, c, v) ==>
        SomeRelates(td, u, before, [x] + v)
  }

  ghost predicate SomeRelates(td: Transducer, u: Word, cs: set<Config>, v: Word) {
    exists c :: c in cs && Relates(td, u, c, v)
  }

  ghost predicate SoundRoot(td: Transducer, u: Word, c0: Config, cs: set<Config>) {
    forall c, v {:trigger c in cs, Relates(td, u, c, v)} :: c in cs && Relates(td, u, c, v) ==> Relates(td, u, c0, v)
  }

  /** A tree: no state has two incoming transitions and the root has none. Each state stands for configurations. */
  ghost predicate Tree(td: Transducer, u: Word, c0: Config, g: Graph, cf: Configs) {
    && g.Valid() && cf.Keys == g.trans.Keys
    && (forall q, t {:trigger t in g.trans[q]} :: q in g.trans && t in g.trans[q] ==>
         t.min == t.max && t.to != g.initial && SoundEdge(td, u, cf[q], t.min, cf[t.to]))
    && OneParent(g)
    && SoundRoot(td, u, c0, cf[g.initial])
    && (forall q {:trigger q in g.accept} :: q in g.accept ==> exists c :: c in cf[q] && Final(td, u, c))
  }

  ghost predicate OneParent(g: Graph) {
    forall q, t, q', t' {:trigger t in g.trans[q], t' in g.trans[q']} ::
      q in g.trans && t in g.trans[q] && q' in g.trans && t' in g.trans[q'] && t.to == t'.to ==> q == q' && t == t'
  }

  ghost predicate Grows(g: Graph, cf: Configs, g': Graph, cf': Configs) {
    && g'.initial == g.initial && g.accept <= g'.accept && g.trans.Keys <= g'.trans.Keys && g.trans.Keys <= cf.Keys
         && g'.trans.Keys <= cf'.Keys
    && (forall q {:trigger g.trans[q]} :: q in g.trans ==> g.trans[q] <= g'.trans[q] && cf[q] <= cf'[q])
  }

  /** The edge has been taken from configuration c of state q. */
  ghost predicate Taken(g: Graph, cf: Configs, q: State, c: Config, e: Edge)
    requires q in g.trans && q in cf && forall t {:trigger t in g.trans[q]} :: t in g.trans[q] ==> t.to in cf
  {
    if e.v == DASH then After(c, e) in cf[q]
    else exists t :: t in g.trans[q] && t.min == e.v && After(c, e) in cf[t.to]
  }

  /** Everything that can be done from configuration c of state q has been done. */
  ghost predicate Done(td: Transducer, u: Word, g: Graph, cf: Configs, q: State, c: Config) {
    && g.Valid() && q in g.trans && g.trans.Keys <= cf.Keys
    && (Final(td, u, c) ==> q in g.accept)
    && forall e {:trigger Fires(td, u, c, e)} :: Fires(td, u, c, e) ==> Taken(g, cf, q, c, e)
  }

  lemma TakenStays(g: Graph, cf: Configs, g': Graph, cf': Configs, q: State, c: Config, e: Edge)
    requires g.Valid() && g'.Valid() && Grows(g, cf, g', cf') && q in g.trans && Taken(g, cf, q, c, e)
    ensures Taken(g', cf', q, c, e)
  {
    if e.v != DASH {
      var t :| t in g.trans[q] && t.min == e.v && After(c, e) in cf[t.to];
      assert t in g'.trans[q];
      var _ := g.trans[t.to];
    }
  }

  lemma DoneStays(td: Transducer, u: Word, g: Graph, cf: Configs, g': Graph, cf': Configs, q: State, c: Config)
    requires g'.Valid() && Grows(g, cf, g', cf') && Done(td, u, g, cf, q, c)
    ensures Done(td, u, g', cf', q, c)
  {
    forall e | Fires(td, u, c, e) ensures Taken(g', cf', q, c, e) {
      TakenStays(g, cf, g', cf', q, c, e);
    }
  }

  lemma GrowsOn(g: Graph, cf: Configs, g': Graph, cf': Configs, g'': Graph, cf'': Configs)
    requires Grows(g, cf, g', cf') && Grows(g', cf', g'', cf'')
    ensures Grows(g, cf, g'', cf'')
  {
    forall q | q in g.trans ensures g.trans[q] <= g''.trans[q] && cf[q] <= cf''[q] {
      var _ := g'.trans[q];
    }
  }

  /** All configurations that have come since are done. */
  ghost predicate NewDone(td: Transducer, u: Word, cf: Configs, g': Graph, cf': Configs) {
    forall q, c {:trigger Done(td, u, g', cf', q, c)} :: q in cf' && c in cf'[q] && !(q in cf && c in cf[q]) ==>
        Done(td, u, g', cf', q, c)
  }

  /** One configuration more for a state of the tree, now being worked on. */
  function With(cf: Configs, q: State, c: Config): Configs {
    cf[q := (if q in cf then cf[q] else {}) + {c}]
  }

  lemma NewDoneOn(td: Transducer, u: Word, cf: Configs, g': Graph, cf': Configs, q: State, c: Config, g'': Graph,
      cf'': Configs)
    requires NewDone(td, u, cf, g', cf') && NewDone(td, u, With(cf', q, c), g'', cf'') && Done(td, u, g'', cf'', q, c)
    requires g''.Valid() && Grows(g', cf', g'', cf'') && g'.trans.Keys == cf'.Keys
    ensures NewDone(td, u, cf, g'', cf'')
  {
    forall p, d | p in cf'' && d in cf''[p] && !(p in cf && d in cf[p]) ensures Done(td, u, g'', cf'', p, d) {
      if p in cf' && d in cf'[p] {
        DoneStays(td, u, g', cf', g'', cf'', p, d);
      } else if !(p == q && d == c) {
        assert !(p in With(cf', q, c) && d in With(cf', q, c)[p]);
      }
    }
  }

  // ----- the four ways in which the tree is changed -----

  lemma AcceptKeeps(td: Transducer, u: Word, c0: Config, g: Graph, cf: Configs, q: State, c: Config)
    requires Tree(td, u, c0, g, cf) && q in g.trans && c in cf[q] && Final(td, u, c)
    ensures Tree(td, u, c0, g.(accept := g.accept + {q}), cf) && Grows(g, cf, g.(accept := g.accept + {q}), cf)
  {
  }

  /** Reading without writing stays in the state. */
  lemma SilentKeeps(td: Transducer, u: Word, c0: Config, g: Graph, cf: Configs, q: State, c: Config, e: Edge)
    requires Tree(td, u, c0, g, cf) && q in g.trans && c in cf[q] && Fires(td, u, c, e) && e.v == DASH
    ensures Tree(td, u, c0, g, With(cf, q, After(c, e))) && Grows(g, cf, g, With(cf, q, After(c, e)))
  {
    var cf' := With(cf, q, After(c, e));
    forall v | Relates(td, u, After(c, e), v) ensures Relates(td, u, c, v) {
      RelatesBefore(td, u, c, e, v);
    }
    forall p, t | p in g.trans && t in g.trans[p] ensures SoundEdge(td, u, cf'[p], t.min, cf'[t.to]) {
      WiderEdge(td, u, cf[p], cf'[p], t.min, cf[t.to]);
      if t.to == q {
        assert SoundEdge(td, u, cf'[p], t.min, cf[q]);
      }
    }
    assert SoundRoot(td, u, c0, cf'[g.initial]) by {
      assert SoundRoot(td, u, c0, cf[g.initial]);
    }
    forall p | p in g.accept ensures exists d :: d in cf'[p] && Final(td, u, d) {
      var d :| d in cf[p] && Final(td, u, d);
      assert d in cf'[p];
    }
  }

  lemma WiderEdge(td: Transducer, u: Word, before: set<Config>, before': set<Config>, x: Char, after: set<Config>)
    requires SoundEdge(td, u, before, x, after) && before <= before'
    ensures SoundEdge(td, u, before', x, after)
  {
    forall c, v | c in after && Relates(td, u, c, v) ensures SomeRelates(td, u, before', [x] + v) {
      assert SomeRelates(td, u, before, [x] + v);
      var d :| d in before && Relates(td, u, d, [x] + v);
      assert d in before';
    }
  }

  lemma VisibleIsSound(td: Transducer, u: Word, cs: set<Config>, c: Config, e: Edge, after: set<Config>)
    requires c in cs && Fires(td, u, c, e) && e.v != DASH && SoundEdge(td, u, cs, e.v, after)
    ensures SoundEdge(td, u, cs, e.v, after + {After(c, e)})
  {
    forall d, v | d in after + {After(c, e)} && Relates(td, u, d, v) ensures SomeRelates(td, u, cs, [e.v] + v) {
      if d in after {
        assert SomeRelates(td, u, cs, [e.v] + v);
      } else {
        RelatesBefore(td, u, c, e, v);
      }
    }
  }

  function NewChild(g: Graph, q: State, x: Char, child: State): Graph
    requires q in g.trans
  {
    Graph(g.initial, g.accept, g.trans[child := {}][q := g.trans[q] + {Transition(x, x, child)}])
  }

  /** Writing a character leads to a new child ... */
  lemma NewChildKeeps(td: Transducer, u: Word, c0: Config, g: Graph, cf: Configs, q: State, c: Config, e: Edge,
      child: State)
    requires Tree(td, u, c0, g, cf) && q in g.trans && c in cf[q] && Fires(td, u, c, e) && e.v != DASH
        && child !in g.trans
    ensures Tree(td, u, c0, NewChild(g, q, e.v, child), With(cf, child, After(c, e)))
    ensures Grows(g, cf, NewChild(g, q, e.v, child), With(cf, child, After(c, e)))
  {
    var g', cf' := NewChild(g, q, e.v, child), With(cf, child, After(c, e));
    NewChildHasOneParent(g, q, e.v, child);
    forall p, t | p in g'.trans && t in g'.trans[p]
      ensures t.min == t.max && t.to != g'.initial && t.to in g'.trans && SoundEdge(td, u, cf'[p], t.min, cf'[t.to])
    {
      NewChildEdge(td, u, c0, g, cf, q, c, e, child, p, t);
    }
    forall p | p in g.accept ensures exists d :: d in cf'[p] && Final(td, u, d) {
      var d :| d in cf[p] && Final(td, u, d);
      assert p != child && d in cf'[p];
    }
  }

  lemma NewChildHasOneParent(g: Graph, q: State, x: Char, child: State)
    requires g.Valid() && OneParent(g) && q in g.trans && child !in g.trans
    ensures OneParent(NewChild(g, q, x, child))
  {
    var h := NewChild(g, q, x, child);
    forall p, t | p in h.trans && t in h.trans[p]
        ensures p in g.trans && (t in g.trans[p] || (p == q && t == Transition(x, x, child)))
        ensures t in g.trans[p] ==> t.to != child
    {
    }
  }

  lemma NewChildEdge(td: Transducer, u: Word, c0: Config, g: Graph, cf: Configs, q: State, c: Config, e: Edge,
      child: State, p: State, t: Transition)
    requires Tree(td, u, c0, g, cf) && q in g.trans && c in cf[q] && Fires(td, u, c, e) && e.v != DASH
        && child !in g.trans
    requires p in NewChild(g, q, e.v, child).trans && t in NewChild(g, q, e.v, child).trans[p]
    ensures t.min == t.max && t.to != g.initial && t.to in NewChild(g, q, e.v, child).trans
    ensures SoundEdge(td, u, With(cf, child, After(c, e))[p], t.min, With(cf, child, After(c, e))[t.to])
  {
    if p == q && t == Transition(e.v, e.v, child) {
      VisibleIsSound(td, u, cf[q], c, e, {});
      assert {} + {After(c, e)} == {After(c, e)};
    } else {
      assert p != child && t in g.trans[p];
    }
  }

  /** ... or to one that is there under the same character. */
  lemma OldChildKeeps(td: Transducer, u: Word, c0: Config, g: Graph, cf: Configs, q: State, c: Config, e: Edge,
      t: Transition)
    requires Tree(td, u, c0, g, cf) && q in g.trans && c in cf[q] && Fires(td, u, c, e) && e.v != DASH
        && t in g.trans[q] && t.min == e.v
    ensures Tree(td, u, c0, g, With(cf, t.to, After(c, e))) && Grows(g, cf, g, With(cf, t.to, After(c, e)))
  {
    var cf' := With(cf, t.to, After(c, e));
    VisibleIsSound(td, u, cf[q], c, e, cf[t.to]);
    forall p, d | p in g.trans && d in g.trans[p] ensures SoundEdge(td, u, cf'[p], d.min, cf'[d.to]) {
      if d.to == t.to {
        assert p == q && d == t;
        WiderEdge(td, u, cf[q], cf'[q], t.min, cf'[t.to]);
      } else {
        WiderEdge(td, u, cf[p], cf'[p], d.min, cf[d.to]);
      }
    }
    forall p | p in g.accept ensures exists d :: d in cf'[p] && Final(td, u, d) {
      var d :| d in cf[p] && Final(td, u, d);
      assert d in cf'[p];
    }
  }

  // ----- imageRec -----

  /** What a call keeps and adds: the tree grows, and everything new is done. */
  ghost predicate Worked(td: Transducer, u: Word, c0: Config, g: Graph, cf: Configs, g': Graph, cf': Configs) {
    Tree(td, u, c0, g', cf') && Grows(g, cf, g', cf') && NewDone(td, u, cf, g', cf')
  }

  /** A call for a configuration that was added has come back. */
  lemma CallReturns(td: Transducer, u: Word, c0: Config, g: Graph, cf: Configs, g1: Graph, cf1: Configs, g2: Graph,
      q: State, c: Config, g3: Graph, cf3: Configs)
    requires Worked(td, u, c0, g, cf, g1, cf1) && Tree(td, u, c0, g1, cf1) && g2.trans.Keys == With(cf1, q, c).Keys
    requires Grows(g1, cf1, g2, With(cf1, q, c)) && Worked(td, u, c0, g2, With(cf1, q, c), g3, cf3)
        && Done(td, u, g3, cf3, q, c)
    ensures Worked(td, u, c0, g, cf, g3, cf3)
  {
    GrowsOn(g1, cf1, g2, With(cf1, q, c), g3, cf3);
    GrowsOn(g, cf, g1, cf1, g3, cf3);
    NewDoneOn(td, u, cf, g1, cf1, q, c, g3, cf3);
  }

  ghost predicate AllTaken(td: Transducer, u: Word, g: Graph, cf: Configs, q: State, c: Config, es: set<Edge>) {
    && g.Valid() && q in g.trans && g.trans.Keys <= cf.Keys
    && forall e {:trigger Fires(td, u, c, e)} :: e in es && Fires(td, u, c, e) ==> Taken(g, cf, q, c, e)
  }

  lemma AllTakenStays(td: Transducer, u: Word, g: Graph, cf: Configs, g': Graph, cf': Configs, q: State, c: Config,
      es: set<Edge>)
    requires g'.Valid() && Grows(g, cf, g', cf') && AllTaken(td, u, g, cf, q, c, es)
    ensures AllTaken(td, u, g', cf', q, c, es)
  {
    forall e | e in es && Fires(td, u, c, e) ensures Taken(g', cf', q, c, e) {
      TakenStays(g, cf, g', cf', q, c, e);
    }
  }

  /** Works off configuration (i, s) of state current: the word is at position i, the transducer in state s. */
  method ImageRec(a: Automaton, current: State, td: Transducer, u: Word, i: nat, s: State, ghost rank: State -> nat,
      ghost c0: Config, ghost cf: Configs)
      returns (ghost cf': Configs)
    requires a.Valid() && !a.deterministic && td.Legal(rank) && i <= |u|
    requires Tree(td, u, c0, a.Snapshot(), cf) && current in a.trans && (i, s) in cf[current]
    modifies a
    ensures a.Valid() && !a.deterministic && Worked(td, u, c0, old(a.Snapshot()), cf, a.Snapshot(), cf')
    ensures Done(td, u, a.Snapshot(), cf', current, (i, s))
    decreases |u| - i, rank(s), 1, 0
  {
    ghost var g := a.Snapshot();
    if i == |u| && s in td.accept {
      AcceptKeeps(td, u, c0, g, cf, current, (i, s));
      a.accept := a.accept + {current};
    }
    cf' := cf;
    ghost var taken: set<Edge> := {};
    var todo := td.AlphaTransitions(s);
    while todo != {}
      invariant Walking(a, td, u, c0, g, cf, current, (i, s), cf', taken) && todo <= td.AlphaTransitions(s)
      invariant td.AlphaTransitions(s) <= taken + todo
    {
      var e :| e in todo;
      todo := todo - {e};
      cf' := TakeAlpha(a, current, td, u, i, s, e, rank, c0, g, cf, cf', taken);
      taken := taken + {e};
    }
    todo := td.EpsilonTransitions(s);
    while todo != {}
      invariant Walking(a, td, u, c0, g, cf, current, (i, s), cf', taken) && todo <= td.EpsilonTransitions(s)
      invariant td.Out(s) <= taken + todo
    {
      var e :| e in todo;
      todo := todo - {e};
      cf' := TakeEpsilon(a, current, td, u, i, s, e, rank, c0, g, cf, cf', taken);
      taken := taken + {e};
    }
  }

  /** What the loops over the edges keep. */
  ghost predicate Walking(a: Automaton, td: Transducer, u: Word, c0: Config, g: Graph, cf: Configs, q: State, c: Config,
      cf': Configs, taken: set<Edge>)
    reads a
  {
    && a.Valid() && !a.deterministic && Worked(td, u, c0, g, cf, a.Snapshot(), cf') && q in a.trans && c in cf'[q]
    && (Final(td, u, c) ==> q in a.accept) && AllTaken(td, u, a.Snapshot(), cf', q, c, taken)
  }

  lemma WalksOn(td: Transducer, u: Word, g1: Graph, cf1: Configs, g3: Graph, cf3: Configs, q: State, c: Config,
      taken: set<Edge>, e: Edge)
    requires g3.Valid() && Grows(g1, cf1, g3, cf3) && AllTaken(td, u, g1, cf1, q, c, taken) && (Fires(td, u, c, e) ==>
        Taken(g3, cf3, q, c, e))
    ensures AllTaken(td, u, g3, cf3, q, c, taken + {e})
  {
    AllTakenStays(td, u, g1, cf1, g3, cf3, q, c, taken);
  }

  /** An edge that reads the next character of the word. */
  method TakeAlpha(a: Automaton, current: State, td: Transducer, u: Word, i: nat, s: State, e: Edge,
      ghost rank: State -> nat, ghost c0: Config,
                   ghost g: Graph, ghost cf: Configs, ghost cf1: Configs, ghost taken: set<Edge>)
      returns (ghost cf': Configs)
    requires td.Legal(rank) && i <= |u| && e in td.AlphaTransitions(s)
        && Walking(a, td, u, c0, g, cf, current, (i, s), cf1, taken)
    modifies a
    ensures Walking(a, td, u, c0, g, cf, current, (i, s), cf', taken + {e})
    decreases |u| - i, rank(s), 0, 2
  {
    ghost var c, g1 := (i, s), a.Snapshot();
    cf' := cf1;
    if i < |u| && u[i] == e.u {
      if e.v == DASH {
        cf' := TakeSilent(a, current, td, u, i, s, e, rank, c0, g, cf, cf1);
      } else {
        cf' := TakeNew(a, current, td, u, i, s, e, rank, c0, g, cf, cf1);
      }
      WalksOn(td, u, g1, cf1, a.Snapshot(), cf', current, c, taken, e);
    }
  }

  /** Nothing is written: the call goes on in the same state of the tree. */
  method TakeSilent(a: Automaton, current: State, td: Transducer, u: Word, i: nat, s: State, e: Edge,
      ghost rank: State -> nat, ghost c0: Config,
                    ghost g: Graph, ghost cf: Configs, ghost cf1: Configs)
      returns (ghost cf': Configs)
    requires a.Valid() && !a.deterministic && td.Legal(rank) && i < |u| && u[i] == e.u && e in td.AlphaTransitions(s)
        && e.v == DASH
    requires Worked(td, u, c0, g, cf, a.Snapshot(), cf1) && current in a.trans && (i, s) in cf1[current]
    modifies a
    ensures a.Valid() && !a.deterministic && Worked(td, u, c0, g, cf, a.Snapshot(), cf')
        && Grows(old(a.Snapshot()), cf1, a.Snapshot(), cf')
    ensures current in a.trans && Taken(a.Snapshot(), cf', current, (i, s), e)
    decreases |u| - i, rank(s), 0, 0
  {
    ghost var g1, d := a.Snapshot(), (i + 1, e.to);
    SilentKeeps(td, u, c0, g1, cf1, current, (i, s), e);
    cf' := ImageRec(a, current, td, u, i + 1, e.to, rank, c0, With(cf1, current, d));
    CallReturns(td, u, c0, g, cf, g1, cf1, g1, current, d, a.Snapshot(), cf');
    GrowsOn(g1, cf1, g1, With(cf1, current, d), a.Snapshot(), cf');
    assert d in With(cf1, current, d)[current];
    var _ := g1.trans[current];
  }

  /** A character is written: the call goes on in a new child. */
  method TakeNew(a: Automaton, current: State, td: Transducer, u: Word, i: nat, s: State, e: Edge,
      ghost rank: State -> nat, ghost c0: Config,
                 ghost g: Graph, ghost cf: Configs, ghost cf1: Configs)
      returns (ghost cf': Configs)
    requires a.Valid() && !a.deterministic && td.Legal(rank) && i < |u| && u[i] == e.u && e in td.AlphaTransitions(s)
        && e.v != DASH
    requires Worked(td, u, c0, g, cf, a.Snapshot(), cf1) && current in a.trans && (i, s) in cf1[current]
    modifies a
    ensures a.Valid() && !a.deterministic && Worked(td, u, c0, g, cf, a.Snapshot(), cf')
        && Grows(old(a.Snapshot()), cf1, a.Snapshot(), cf')
    ensures current in a.trans && Taken(a.Snapshot(), cf', current, (i, s), e)
    decreases |u| - i, rank(s), 0, 1
  {
    ghost var g1 := a.Snapshot();
    var next := a.nextId;
    NewChildKeeps(td, u, c0, g1, cf1, current, (i, s), e, next);
    AddChild(a, current, e.v);
    cf' := GoOn(a, current, next, td, u, i, s, i + 1, e, rank, c0, g, cf, g1, cf1);
  }

  lemma ChildTaken(g: Graph, cf: Configs, g': Graph, cf': Configs, q: State, c: Config, e: Edge, t: Transition)
    requires g.Valid() && g'.Valid() && Grows(g, cf, g', cf') && q in g.trans && t in g.trans[q] && t.min == e.v != DASH
        && After(c, e) in cf[t.to]
    ensures Taken(g', cf', q, c, e)
  {
    assert Taken(g, cf, q, c, e);
    TakenStays(g, cf, g', cf', q, c, e);
  }

  method AddChild(a: Automaton, q: State, x: Char)
    requires a.Valid() && !a.deterministic && q in a.trans
    modifies a
    ensures a.Valid() && !a.deterministic && a.Snapshot() == NewChild(old(a.Snapshot()), q, x, old(a.nextId))
        && a.nextId == old(a.nextId) + 1
  {
    var next := a.nextId;
    a.nextId := next + 1;
    a.trans := a.trans[next := {}][q := a.trans[q] + {Transition(x, x, next)}];
  }

  /** An edge that reads nothing: the call goes on in a child for the character it writes, an old one if there is one.
      */
  method TakeEpsilon(a: Automaton, current: State, td: Transducer, u: Word, i: nat, s: State, e: Edge,
      ghost rank: State -> nat, ghost c0: Config,
                     ghost g: Graph, ghost cf: Configs, ghost cf1: Configs, ghost taken: set<Edge>)
      returns (ghost cf': Configs)
    requires td.Legal(rank) && i <= |u| && e in td.EpsilonTransitions(s)
        && Walking(a, td, u, c0, g, cf, current, (i, s), cf1, taken)
    modifies a
    ensures Walking(a, td, u, c0, g, cf, current, (i, s), cf', taken + {e})
    decreases |u| - i, rank(s), 0, 1
  {
    ghost var c, g1, d := (i, s), a.Snapshot(), (i, e.to);
    var same := set t | t in a.trans[current] && t.min == e.v;
    var next := a.nextId;
    if same != {} {
      var t :| t in same;
      next := t.to;
      OldChildKeeps(td, u, c0, g1, cf1, current, c, e, t);
    } else {
      NewChildKeeps(td, u, c0, g1, cf1, current, c, e, next);
      AddChild(a, current, e.v);
    }
    cf' := GoOn(a, current, next, td, u, i, s, i, e, rank, c0, g, cf, g1, cf1);
    WalksOn(td, u, g1, cf1, a.Snapshot(), cf', current, c, taken, e);
  }

  /** The call for the child that the edge leads to. */
  method GoOn(a: Automaton, current: State, next: State, td: Transducer, u: Word, ghost i: nat, ghost s: State, j: nat,
      e: Edge,
              ghost rank: State -> nat, ghost c0: Config, ghost g: Graph, ghost cf: Configs, ghost g1: Graph,
                  ghost cf1: Configs)
      returns (ghost cf': Configs)
    requires a.Valid() && !a.deterministic && td.Legal(rank) && i <= j <= |u| && e in td.Out(s)
        && (j, e.to) == After((i, s), e) && e.v != DASH
    requires Worked(td, u, c0, g, cf, g1, cf1) && Tree(td, u, c0, a.Snapshot(), With(cf1, next, (j, e.to)))
    requires Grows(g1, cf1, a.Snapshot(), With(cf1, next, (j, e.to)))
    requires current in g1.trans && Transition(e.v, e.v, next) in a.trans[current]
    modifies a
    ensures a.Valid() && !a.deterministic && Worked(td, u, c0, g, cf, a.Snapshot(), cf')
        && Grows(g1, cf1, a.Snapshot(), cf')
    ensures current in a.trans && Taken(a.Snapshot(), cf', current, (i, s), e)
    decreases |u| - i, rank(s), 0, 0
  {
    ghost var g2, d := a.Snapshot(), (j, e.to);
    cf' := ImageRec(a, next, td, u, j, e.to, rank, c0, With(cf1, next, d));
    CallReturns(td, u, c0, g, cf, g1, cf1, g2, next, d, a.Snapshot(), cf');
    GrowsOn(g1, cf1, g2, With(cf1, next, d), a.Snapshot(), cf');
    ChildTaken(g2, With(cf1, next, d), a.Snapshot(), cf', current, (i, s), e, Transition(e.v, e.v, next));
  }

  // ----- what the finished tree accepts -----

  ghost predicate Finished(td: Transducer, u: Word, c0: Config, g: Graph, cf: Configs) {
    Tree(td, u, c0, g, cf) && forall q, c {:trigger Done(td, u, g, cf, q, c)} :: q in cf && c in cf[q] ==>
      Done(td, u, g, cf, q, c)
  }

  /** What a configuration of a state writes, the state accepts. */
  lemma {:induction false} WrittenIsAccepted(td: Transducer, u: Word, c0: Config, g: Graph, cf: Configs, q: State,
      c: Config, run: seq<Edge>, v: Word)
    requires Finished(td, u, c0, g, cf) && q in cf && c in cf[q] && Follows(td, u, c.0, c.1, run, v)
    ensures g.Accepts(q, v)
    decreases |run|
  {
    assert Done(td, u, g, cf, q, c);
    if run != [] {
      var e := run[0];
      assert Fires(td, u, c, e);
      assert Taken(g, cf, q, c, e);
      if e.v == DASH {
        WrittenIsAccepted(td, u, c0, g, cf, q, After(c, e), run[1..], v);
      } else {
        var t :| t in g.trans[q] && t.min == e.v && After(c, e) in cf[t.to];
        WrittenIsAccepted(td, u, c0, g, cf, t.to, After(c, e), run[1..], v[1..]);
        assert t.Covers(v[0]) && t.to in g.Succ(q, v[0]);
      }
    }
  }

  lemma WrittenBefore(td: Transducer, u: Word, c0: Config, g: Graph, cf: Configs, q: State, t: Transition, v: Word)
    requires Tree(td, u, c0, g, cf) && q in g.trans && t in g.trans[q] && SomeRelates(td, u, cf[t.to], v)
    ensures SomeRelates(td, u, cf[q], [t.min] + v)
  {
    var c :| c in cf[t.to] && Relates(td, u, c, v);
    assert SoundEdge(td, u, cf[q], t.min, cf[t.to]);
  }

  /** What a state accepts, one of its configurations writes. */
  lemma {:induction false} AcceptedIsWritten(td: Transducer, u: Word, c0: Config, g: Graph, cf: Configs, q: State,
      v: Word)
    requires Tree(td, u, c0, g, cf) && q in g.trans && g.Accepts(q, v)
    ensures SomeRelates(td, u, cf[q], v)
    decreases |v|
  {
    if v == [] {
      var c :| c in cf[q] && Final(td, u, c);
      assert Follows(td, u, c.0, c.1, [], v);
    } else {
      var p :| p in g.Succ(q, v[0]) && g.Accepts(p, v[1..]);
      var t :| t in g.Out(q) && t.Covers(v[0]) && t.to == p;
      AcceptedIsWritten(td, u, c0, g, cf, p, v[1..]);
      WrittenBefore(td, u, c0, g, cf, q, t, v[1..]);
      assert v == [v[0]] + v[1..];
    }
  }

  lemma FinishedLanguage(td: Transducer, u: Word, c0: Config, g: Graph, cf: Configs, v: Word)
    requires Finished(td, u, c0, g, cf) && c0 in cf[g.initial]
    ensures g.Language(v) <==> Relates(td, u, c0, v)
  {
    if g.Language(v) {
      AcceptedIsWritten(td, u, c0, g, cf, g.initial, v);
      var c :| c in cf[g.initial] && Relates(td, u, c, v);
    }
    if run :| Follows(td, u, c0.0, c0.1, run, v) {
      WrittenIsAccepted(td, u, c0, g, cf, g.initial, c0, run, v);
    }
  }

  /** The words that the transducer relates to u, when no cycle of its edges reads nothing. */
  method Image(td: Transducer, u: Word, ghost rank: State -> nat) returns (a: Automaton)
    requires td.Legal(rank)
    ensures fresh(a) && a.Valid()
    ensures forall v :: a.Snapshot().Language(v) <==> Transduces(td, u, v)
  {
    a := new Automaton();
    a.deterministic := false;
    ghost var c0, g := (0, td.initial), a.Snapshot();
    ghost var cf: Configs := map[0 := {c0}];
    ghost var cf' := ImageRec(a, 0, td, u, 0, td.initial, rank, c0, cf);
    AllDone(td, u, c0, g, cf, a.Snapshot(), cf');
    forall v ensures a.Snapshot().Language(v) <==> Transduces(td, u, v) {
      FinishedLanguage(td, u, c0, a.Snapshot(), cf', v);
      RelatesIsTransduces(td, u, v);
    }
  }

  lemma AllDone(td: Transducer, u: Word, c0: Config, g: Graph, cf: Configs, g': Graph, cf': Configs)
    requires g.trans.Keys == {0} && g.initial == 0 && cf == map[0 := {c0}] && Worked(td, u, c0, g, cf, g', cf')
        && Done(td, u, g', cf', 0, c0)
    ensures Finished(td, u, c0, g', cf') && c0 in cf'[g'.initial]
  {
    forall q, c | q in cf' && c in cf'[q] ensures Done(td, u, g', cf', q, c) {
      assert q in cf && c in cf[q] ==> q == 0 && c == c0;
    }
    var _ := g.trans[0];
  }
}
