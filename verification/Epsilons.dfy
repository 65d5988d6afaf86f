/** addEpsilons: replacing epsilon transitions by the transitions of the states they lead to. */
module Epsilons {
  import opened Languages
  import opened Automata

  type StatePair = (State, State)

  // ----- automata with epsilon transitions -----

  datatype Move = Eps(to: State) | Read(c: Char, to: State)

  function Label(moves: seq<Move>): Word {
    if moves == [] then []
    else if moves[0].Eps? then Label(moves[1..])
    else [moves[0].c] + Label(moves[1..])
  }

  /** The moves lead from q to an accepting state. */
  ghost predicate Traces(g: Graph, pairs: set<StatePair>, q: State, moves: seq<Move>)
    decreases |moves|
  {
    if moves == [] then q in g.accept
    else if moves[0].Eps? then (q, moves[0].to) in pairs && Traces(g, pairs, moves[0].to, moves[1..])
    else moves[0].to in g.Succ(q, moves[0].c) && Traces(g, pairs, moves[0].to, moves[1..])
  }

  /** The right language of q when the pairs are epsilon transitions. */
  ghost predicate EpsilonAccepts(g: Graph, pairs: set<StatePair>, q: State, w: Word) {
    exists moves :: Label(moves) == w && Traces(g, pairs, q, moves)
  }

  ghost predicate Leads(pairs: set<StatePair>, q: State, path: seq<State>, p: State)
    decreases |path|
  {
    if path == [] then q == p else (q, path[0]) in pairs && Leads(pairs, path[0], path[1..], p)
  }

  ghost predicate LeadsTo(pairs: set<StatePair>, q: State, p: State) {
    exists path :: Leads(pairs, q, path, p)
  }

  lemma {:induction false} LeadsFurther(pairs: set<StatePair>, q: State, path: seq<State>, p: State, path': seq<State>,
      r: State)
    requires Leads(pairs, q, path, p) && Leads(pairs, p, path', r)
    ensures Leads(pairs, q, path + path', r)
    decreases |path|
  {
    if path == [] {
      assert path + path' == path';
    } else {
      LeadsFurther(pairs, path[0], path[1..], p, path', r);
      assert (path + path')[1..] == path[1..] + path';
    }
  }

  lemma LeadsOn(pairs: set<StatePair>, q: State, p: State, r: State)
    requires LeadsTo(pairs, q, p) && LeadsTo(pairs, p, r)
    ensures LeadsTo(pairs, q, r)
  {
    var path :| Leads(pairs, q, path, p);
    var path' :| Leads(pairs, p, path', r);
    LeadsFurther(pairs, q, path, p, path', r);
  }

  /** Epsilon moves in front of a run. */
  lemma {:induction false} AfterEpsilons(g: Graph, pairs: set<StatePair>, q: State, path: seq<State>, p: State, w: Word)
    requires Leads(pairs, q, path, p) && EpsilonAccepts(g, pairs, p, w)
    ensures EpsilonAccepts(g, pairs, q, w)
    decreases |path|
  {
    if path != [] {
      AfterEpsilons(g, pairs, path[0], path[1..], p, w);
      var moves :| Label(moves) == w && Traces(g, pairs, path[0], moves);
      var moves' := [Eps(path[0])] + moves;
      assert moves'[1..] == moves;
      assert Traces(g, pairs, q, moves');
    }
  }

  // ----- the transitive closure of the pairs -----

  ghost predicate Transitive(pairs: set<StatePair>) {
    forall a, b, c {:trigger (a, b) in pairs, (b, c) in pairs} :: (a, b) in pairs && (b, c) in pairs ==> (a, c) in pairs
  }

  function AtKey(m: map<State, set<State>>, q: State): set<State> {
    if q in m then m[q] else {}
  }

  /** The two hash maps hold the pairs, by first and by second component. */
  ghost predicate Indexed(pairs: set<StatePair>, forward: map<State, set<State>>, back: map<State, set<State>>) {
    && (forall q: State, p: State {:trigger p in AtKey(forward, q)} {:trigger (q, p) in pairs} ::
         p in AtKey(forward, q) <==> (q, p) in pairs)
    && (forall q: State, p: State {:trigger q in AtKey(back, p)} {:trigger (q, p) in pairs} :: q in AtKey(back, p) <==>
         (q, p) in pairs)
  }

  ghost predicate Queue(worklist: seq<StatePair>, workset: set<StatePair>) {
    && (forall p {:trigger p in worklist} {:trigger p in workset} :: p in worklist <==> p in workset)
    && (forall i, j {:trigger worklist[i], worklist[j]} :: 0 <= i < j < |worklist| ==> worklist[i] != worklist[j])
  }

  /** Two pairs in a row have been combined, unless the first still waits, or is p and the second leads to one of todo.
      */
  ghost predicate Pending(pairs: set<StatePair>, workset: set<StatePair>, p: StatePair, todo: set<State>) {
    forall a, b, c {:trigger (a, b) in pairs, (b, c) in pairs} :: (a, b) in pairs && (b, c) in pairs ==>
      (a, c) in pairs || (a, b) in workset || ((a, b) == p && c in todo)
  }

  /** Every pair is an epsilon path of the original pairs. */
  ghost predicate Sound(pairs0: set<StatePair>, pairs: set<StatePair>) {
    pairs0 <= pairs && forall q, p {:trigger (q, p) in pairs} :: (q, p) in pairs ==> LeadsTo(pairs0, q, p)
  }

  ghost predicate Within(pairs: set<StatePair>, states: set<State>) {
    forall q, p {:trigger (q, p) in pairs} :: (q, p) in pairs ==> q in states && p in states
  }

  ghost function Square(states: set<State>): set<StatePair> {
    set q, p | q in states && p in states :: (q, p)
  }

  function Insert(m: map<State, set<State>>, q: State, p: State): map<State, set<State>> {
    m[q := AtKey(m, q) + {p}]
  }

  method Index(pairs: set<StatePair>)
      returns (forward: map<State, set<State>>, back: map<State, set<State>>, worklist: seq<StatePair>)
    ensures Indexed(pairs, forward, back) && Queue(worklist, pairs)
  {
    forward, back, worklist := map[], map[], [];
    var todo := pairs;
    while todo != {}
      invariant todo <= pairs && Indexed(pairs - todo, forward, back) && Queue(worklist, pairs - todo)
    {
      var p :| p in todo;
      IndexOneMore(pairs - todo, forward, back, p);
      QueueOneMore(worklist, pairs - todo, p);
      assert pairs - todo + {p} == pairs - (todo - {p});
      forward, back, worklist, todo := Insert(forward, p.0, p.1), Insert(back, p.1, p.0), worklist + [p], todo - {p};
    }
    assert pairs - todo == pairs;
  }

  lemma IndexOneMore(pairs: set<StatePair>, forward: map<State, set<State>>, back: map<State, set<State>>, p: StatePair)
    requires Indexed(pairs, forward, back)
    ensures Indexed(pairs + {p}, Insert(forward, p.0, p.1), Insert(back, p.1, p.0))
  {
  }

  lemma QueueOneMore(worklist: seq<StatePair>, workset: set<StatePair>, p: StatePair)
    requires Queue(worklist, workset) && p !in workset
    ensures Queue(worklist + [p], workset + {p})
  {
    assert p !in worklist;
  }

  lemma QueueRest(worklist: seq<StatePair>, workset: set<StatePair>)
    requires Queue(worklist, workset) && worklist != []
    ensures worklist[0] in workset && Queue(worklist[1..], workset - {worklist[0]})
  {
    assert worklist == [worklist[0]] + worklist[1..];
  }

  /** Puts the pairs that lead to s1 back on the worklist: what can be reached from s1 has changed. */
  method Requeue(s1: State, from: set<State>, worklist0: seq<StatePair>, workset0: set<StatePair>)
      returns (worklist: seq<StatePair>, workset: set<StatePair>)
    requires Queue(worklist0, workset0)
    ensures Queue(worklist, workset) && workset0 <= workset
    ensures forall q {:trigger q in from} :: q in from ==> (q, s1) in workset
    ensures forall p {:trigger p in workset} :: p in workset ==> p in workset0 || (p.0 in from && p.1 == s1)
  {
    worklist, workset := worklist0, workset0;
    var todo := from;
    while todo != {}
      invariant todo <= from && Queue(worklist, workset) && workset0 <= workset
      invariant forall q {:trigger q in from} :: q in from - todo ==> (q, s1) in workset
      invariant forall p {:trigger p in workset} :: p in workset ==> p in workset0 || (p.0 in from && p.1 == s1)
    {
      var q :| q in todo;
      todo := todo - {q};
      if (q, s1) !in workset {
        QueueOneMore(worklist, workset, (q, s1));
        worklist, workset := worklist + [(q, s1)], workset + {(q, s1)};
      }
    }
  }

  lemma OneMorePair(pairs: set<StatePair>, workset: set<StatePair>, workset': set<StatePair>, p: StatePair,
      todo: set<State>, s: State)
    requires Pending(pairs, workset, p, todo) && workset <= workset' && (p.0, s) !in pairs
    requires (p.0, s) in workset' && forall q {:trigger (q, p.0) in pairs} :: (q, p.0) in pairs + {(p.0, s)} ==>
        (q, p.0) in workset'
    ensures Pending(pairs + {(p.0, s)}, workset', p, todo - {s})
  {
    var pairs' := pairs + {(p.0, s)};
    forall a, b, c | (a, b) in pairs' && (b, c) in pairs'
        ensures (a, c) in pairs' || (a, b) in workset' || ((a, b) == p && c in todo - {s})
    {
      if (b, c) == (p.0, s) {
        if (a, b) != (p.0, s) {
          assert (a, p.0) in pairs;
        }
      } else if (a, b) in pairs {
        assert (b, c) in pairs;
      }
    }
  }

  lemma OldPair(pairs: set<StatePair>, workset: set<StatePair>, p: StatePair, todo: set<State>, s: State)
    requires Pending(pairs, workset, p, todo) && (p.0, s) in pairs
    ensures Pending(pairs, workset, p, todo - {s})
  {
  }

  lemma OneMoreIsSound(pairs0: set<StatePair>, pairs: set<StatePair>, p: StatePair, s: State)
    requires Sound(pairs0, pairs) && p in pairs && (p.1, s) in pairs
    ensures Sound(pairs0, pairs + {(p.0, s)})
  {
    LeadsOn(pairs0, p.0, p.1, s);
  }

  /** What the loops of the closure keep. */
  ghost predicate Closing(pairs0: set<StatePair>, states: set<State>, pairs: set<StatePair>, forward: map<State,
      set<State>>, back: map<State, set<State>>,
                          worklist: seq<StatePair>, workset: set<StatePair>) {
    Sound(pairs0, pairs) && Within(pairs, states) && Indexed(pairs, forward, back) && Queue(worklist, workset)
      && workset <= pairs
  }

  /** A new pair (p.0, s), with the pairs in front of it back on the worklist. */
  method AddPair(ghost pairs0: set<StatePair>, ghost states: set<State>, p: StatePair, s: State, ghost todo: set<State>,
      pairs: set<StatePair>,
                 forward: map<State, set<State>>, back: map<State, set<State>>, worklist: seq<StatePair>,
                   workset: set<StatePair>)
      returns (pairs': set<StatePair>, forward': map<State, set<State>>, back': map<State, set<State>>,
        worklist': seq<StatePair>, workset': set<StatePair>)
    requires Closing(pairs0, states, pairs, forward, back, worklist, workset) && Pending(pairs, workset, p, todo)
    requires p in pairs && (p.1, s) in pairs && (p.0, s) !in pairs
    ensures Closing(pairs0, states, pairs', forward', back', worklist', workset')
        && Pending(pairs', workset', p, todo - {s})
    ensures pairs' == pairs + {(p.0, s)}
  {
    var pp := (p.0, s);
    OneMoreIsSound(pairs0, pairs, p, s);
    IndexOneMore(pairs, forward, back, pp);
    QueueOneMore(worklist, workset, pp);
    pairs', forward', back' := pairs + {pp}, Insert(forward, p.0, s), Insert(back, s, p.0);
    worklist', workset' := Requeue(p.0, AtKey(back', p.0), worklist + [pp], workset + {pp});
    assert forall q {:trigger (q, p.0) in pairs} :: (q, p.0) in pairs' ==> q in AtKey(back', p.0);
    OneMorePair(pairs, workset, workset', p, todo, s);
  }

  /** Combines p with all pairs that start where it ends. */
  method Combine(ghost pairs0: set<StatePair>, ghost states: set<State>, p: StatePair, pairs1: set<StatePair>,
                 forward1: map<State, set<State>>, back1: map<State, set<State>>, worklist1: seq<StatePair>,
                   workset1: set<StatePair>)
      returns (pairs: set<StatePair>, forward: map<State, set<State>>, back: map<State, set<State>>,
        worklist: seq<StatePair>, workset: set<StatePair>)
    requires Closing(pairs0, states, pairs1, forward1, back1, worklist1, workset1) && p in pairs1
        && Pending(pairs1, workset1, p, AtKey(forward1, p.1))
    ensures Closing(pairs0, states, pairs, forward, back, worklist, workset) && Pending(pairs, workset, p, {})
    ensures pairs1 <= pairs && (pairs == pairs1 ==> worklist == worklist1)
  {
    pairs, forward, back, worklist, workset := pairs1, forward1, back1, worklist1, workset1;
    var todo := AtKey(forward, p.1);
    while todo != {}
      invariant Closing(pairs0, states, pairs, forward, back, worklist, workset) && Pending(pairs, workset, p, todo)
      invariant todo <= AtKey(forward1, p.1) && pairs1 <= pairs && (pairs == pairs1 ==> worklist == worklist1)
    {
      var s :| s in todo;
      assert (p.1, s) in pairs1;
      if (p.0, s) in pairs {
        OldPair(pairs, workset, p, todo, s);
      } else {
        pairs, forward, back, worklist, workset := AddPair(pairs0, states, p, s, todo, pairs, forward, back, worklist,
          workset);
      }
      todo := todo - {s};
    }
  }

  /** The worklist loop. */
  method Close(pairs0: set<StatePair>, ghost states: set<State>) returns (pairs: set<StatePair>)
    requires Within(pairs0, states)
    ensures Transitive(pairs) && Sound(pairs0, pairs) && Within(pairs, states)
  {
    var forward, back, worklist := Index(pairs0);
    var workset := pairs0;
    pairs := pairs0;
    forall q, p | (q, p) in pairs0 ensures LeadsTo(pairs0, q, p) {
      assert [p][1..] == [] && Leads(pairs0, q, [p], p);
    }
    while worklist != []
      invariant Closing(pairs0, states, pairs, forward, back, worklist, workset) && Pending(pairs, workset, (0, 0), {})
      decreases Square(states) - pairs, |worklist|
    {
      var p := worklist[0];
      QueueRest(worklist, workset);
      StartPair(pairs, forward, back, workset, p);
      ghost var before := pairs;
      pairs, forward, back, worklist, workset := Combine(pairs0, states, p, pairs, forward, back, worklist[1..],
        workset - {p});
      assert Pending(pairs, workset, (0, 0), {});
      Fewer(before, pairs, states);
    }
    assert forall p :: p !in workset;
  }

  lemma StartPair(pairs: set<StatePair>, forward: map<State, set<State>>, back: map<State, set<State>>,
      workset: set<StatePair>, p: StatePair)
    requires Indexed(pairs, forward, back) && Pending(pairs, workset, (0, 0), {})
    ensures Pending(pairs, workset - {p}, p, AtKey(forward, p.1))
  {
  }

  lemma Fewer(before: set<StatePair>, after: set<StatePair>, states: set<State>)
    requires before <= after && Within(after, states)
    ensures before != after ==> Square(states) - after < Square(states) - before
  {
    if before != after {
      var p :| p in after && p !in before;
      assert (p.0, p.1) in after;
      assert p in Square(states) - before;
    }
  }

  // ----- adding the transitions -----

  /** h gives every state what the states that its pairs lead to have in g. */
  ghost predicate HasClosure(g: Graph, pairs: set<StatePair>, h: Graph) {
    && h.initial == g.initial && h.trans.Keys == g.trans.Keys
    && (forall q {:trigger q in h.accept} :: q in h.accept <==> InClosure(g, pairs, q))
    && (forall q {:trigger h.trans[q]} :: q in h.trans ==> forall t {:trigger t in h.trans[q]} :: t in h.trans[q] <==>
         RowInClosure(g, pairs, q, t))
  }

  ghost predicate InClosure(g: Graph, pairs: set<StatePair>, q: State) {
    q in g.accept || exists p :: (q, p) in pairs && p in g.accept
  }

  ghost predicate RowInClosure(g: Graph, pairs: set<StatePair>, q: State, t: Transition) {
    t in g.Out(q) || exists p :: (q, p) in pairs && t in g.Out(p)
  }

  /** While the pairs are taken one after the other: nothing beyond the closure, everything of the pairs taken. */
  ghost predicate Growing(g: Graph, pairs: set<StatePair>, taken: set<StatePair>, h: Graph) {
    && h.initial == g.initial && h.trans.Keys == g.trans.Keys
    && (forall q {:trigger q in h.accept} :: q in h.accept ==> InClosure(g, pairs, q))
    && (forall q {:trigger InClosure(g, taken, q)} :: InClosure(g, taken, q) ==> q in h.accept)
    && (forall q, t {:trigger t in h.trans[q]} :: q in h.trans && t in h.trans[q] ==> RowInClosure(g, pairs, q, t))
    && (forall q, t {:trigger RowInClosure(g, taken, q, t)} :: q in h.trans && RowInClosure(g, taken, q, t) ==>
         t in h.trans[q])
  }

  lemma ClosureThrough(g: Graph, pairs: set<StatePair>, p: StatePair)
    requires Transitive(pairs) && p in pairs
    ensures InClosure(g, pairs, p.1) ==> InClosure(g, pairs, p.0)
    ensures forall t {:trigger RowInClosure(g, pairs, p.1, t)} :: RowInClosure(g, pairs, p.1, t) ==>
        RowInClosure(g, pairs, p.0, t)
  {
  }

  /** addEpsilon from p.0 to p.1, with whatever transitions p.1 has by now. */
  lemma TakePair(g: Graph, pairs: set<StatePair>, taken: set<StatePair>, h: Graph, p: StatePair, h': Graph)
    requires Transitive(pairs) && p in pairs && Growing(g, pairs, taken, h) && p.0 in h.trans && p.1 in h.trans
    requires h' == Graph(h.initial, if p.1 in h.accept then h.accept + {p.0}
        else h.accept, h.trans[p.0 := h.trans[p.0] + h.trans[p.1]])
    ensures Growing(g, pairs, taken + {p}, h')
  {
    ClosureThrough(g, pairs, p);
    forall q | InClosure(g, taken + {p}, q) ensures q in h'.accept {
      if !InClosure(g, taken, q) {
        assert q == p.0 && p.1 in g.accept;
        assert InClosure(g, taken, p.1);
      }
    }
    forall q, t | q in h'.trans && RowInClosure(g, taken + {p}, q, t) ensures t in h'.trans[q] {
      if !RowInClosure(g, taken, q, t) {
        assert q == p.0 && t in g.Out(p.1);
        assert RowInClosure(g, taken, p.1, t);
      }
    }
  }

  lemma StartGrowing(g: Graph, pairs: set<StatePair>)
    requires g.Valid()
    ensures Growing(g, pairs, {}, g)
  {
  }

  lemma EndGrowing(g: Graph, pairs: set<StatePair>, h: Graph)
    requires g.Valid() && Growing(g, pairs, pairs, h) && Within(pairs, g.trans.Keys)
    ensures HasClosure(g, pairs, h) && h.Valid()
  {
    forall q, t | q in h.trans && t in h.trans[q] ensures t.min <= t.max && t.to in h.trans {
      assert RowInClosure(g, pairs, q, t);
    }
    forall q | q in h.accept ensures q in h.trans {
      assert InClosure(g, pairs, q);
    }
  }

  /** The graph with all pairs added has the right languages of the automaton with epsilon transitions. */
  lemma ClosureAccepts(g: Graph, pairs0: set<StatePair>, pairs: set<StatePair>, h: Graph, q: State, w: Word)
    requires g.Valid() && HasClosure(g, pairs, h) && Transitive(pairs) && Sound(pairs0, pairs)
        && Within(pairs, g.trans.Keys) && q in g.trans
    ensures h.Accepts(q, w) <==> EpsilonAccepts(g, pairs0, q, w)
  {
    if h.Accepts(q, w) {
      ClosureTraces(g, pairs0, pairs, h, q, w);
    }
    if moves :| Label(moves) == w && Traces(g, pairs0, q, moves) {
      TraceAccepted(g, pairs0, pairs, h, q, moves);
    }
  }

  lemma {:induction false} ClosureTraces(g: Graph, pairs0: set<StatePair>, pairs: set<StatePair>, h: Graph, q: State,
      w: Word)
    requires g.Valid() && HasClosure(g, pairs, h) && Sound(pairs0, pairs) && q in g.trans && h.Accepts(q, w)
    ensures EpsilonAccepts(g, pairs0, q, w)
    decreases |w|
  {
    if w == [] {
      var p := if q in g.accept then q else (var p :| (q, p) in pairs && p in g.accept; p);
      var path := PathOf(pairs0, pairs, q, p);
      assert Label([]) == [] && Traces(g, pairs0, p, []);
      AfterEpsilons(g, pairs0, q, path, p, w);
    } else {
      var r :| r in h.Succ(q, w[0]) && h.Accepts(r, w[1..]);
      var t :| t in h.Out(q) && t.Covers(w[0]) && t.to == r;
      assert RowInClosure(g, pairs, q, t);
      var p := if t in g.Out(q) then q else (var p :| (q, p) in pairs && t in g.Out(p); p);
      var path := PathOf(pairs0, pairs, q, p);
      ClosureTraces(g, pairs0, pairs, h, r, w[1..]);
      var moves :| Label(moves) == w[1..] && Traces(g, pairs0, r, moves);
      var moves' := [Read(w[0], r)] + moves;
      assert moves'[1..] == moves && Label(moves') == [w[0]] + w[1..] == w;
      assert Traces(g, pairs0, p, moves');
      AfterEpsilons(g, pairs0, q, path, p, w);
    }
  }

  lemma PathOf(pairs0: set<StatePair>, pairs: set<StatePair>, q: State, p: State) returns (path: seq<State>)
    requires Sound(pairs0, pairs) && (q == p || (q, p) in pairs)
    ensures Leads(pairs0, q, path, p)
  {
    if q == p {
      path := [];
    } else {
      assert LeadsTo(pairs0, q, p);
      path :| Leads(pairs0, q, path, p);
    }
  }

  lemma {:induction false} TraceAccepted(g: Graph, pairs0: set<StatePair>, pairs: set<StatePair>, h: Graph, q: State,
      moves: seq<Move>)
    requires g.Valid() && HasClosure(g, pairs, h) && Transitive(pairs) && pairs0 <= pairs && Within(pairs, g.trans.Keys)
        && q in g.trans && Traces(g, pairs0, q, moves)
    ensures h.Accepts(q, Label(moves))
    decreases |moves|
  {
    if moves != [] {
      var p := moves[0].to;
      var w := Label(moves);
      if moves[0].Eps? {
        assert (q, p) in pairs;
        TraceAccepted(g, pairs0, pairs, h, p, moves[1..]);
        ClosureThrough(g, pairs, (q, p));
        if w != [] {
          assert forall t :: t in h.trans[p] ==> t in h.trans[q];
          assert h.Succ(p, w[0]) <= h.Succ(q, w[0]);
        }
      } else {
        var t :| t in g.Out(q) && t.Covers(moves[0].c) && t.to == p;
        assert RowInClosure(g, pairs, q, t);
        assert p in h.Succ(q, w[0]);
        TraceAccepted(g, pairs0, pairs, h, p, moves[1..]);
        assert w[1..] == Label(moves[1..]);
      }
    }
  }

  /** Every state has in h exactly the acceptance and the transitions of the states that the pairs lead to in g. */
  ghost predicate IsClosure(g: Graph, pairs: set<StatePair>, h: Graph) {
    && h.initial == g.initial && h.trans.Keys == g.trans.Keys
    && (forall q {:trigger q in h.accept} :: q in h.trans ==>
         (q in h.accept <==> exists p :: p in g.accept && LeadsTo(pairs, q, p)))
    && (forall q, t {:trigger t in h.trans[q]} :: q in h.trans ==>
         (t in h.trans[q] <==> exists p {:trigger t in g.Out(p)} :: t in g.Out(p) && LeadsTo(pairs, q, p)))
  }

  lemma {:induction false} ClosedLeads(pairs0: set<StatePair>, pairs: set<StatePair>, q: State, path: seq<State>,
      p: State)
    requires Transitive(pairs) && Sound(pairs0, pairs) && Leads(pairs0, q, path, p)
    ensures q == p || (q, p) in pairs
    decreases |path|
  {
    if path != [] {
      ClosedLeads(pairs0, pairs, path[0], path[1..], p);
      assert (q, path[0]) in pairs;
    }
  }

  lemma ClosedLeadsTo(pairs0: set<StatePair>, pairs: set<StatePair>, q: State, p: State)
    requires Transitive(pairs) && Sound(pairs0, pairs)
    ensures LeadsTo(pairs0, q, p) <==> q == p || (q, p) in pairs
  {
    if path :| Leads(pairs0, q, path, p) {
      ClosedLeads(pairs0, pairs, q, path, p);
    }
    assert Leads(pairs0, q, [], q);
  }

  lemma ClosureIsExact(g: Graph, pairs0: set<StatePair>, pairs: set<StatePair>, h: Graph)
    requires HasClosure(g, pairs, h) && Transitive(pairs) && Sound(pairs0, pairs)
    ensures IsClosure(g, pairs0, h)
  {
    forall q | q in h.trans ensures q in h.accept <==> exists p :: p in g.accept && LeadsTo(pairs0, q, p) {
      forall p: State ensures LeadsTo(pairs0, q, p) <==> q == p || (q, p) in pairs {
        ClosedLeadsTo(pairs0, pairs, q, p);
      }
      assert InClosure(g, pairs, q) <==> exists p :: p in g.accept && LeadsTo(pairs0, q, p);
    }
    forall q, t | q in h.trans
        ensures t in h.trans[q] <==> exists p {:trigger t in g.Out(p)} :: t in g.Out(p) && LeadsTo(pairs0, q, p)
    {
      forall p: State ensures LeadsTo(pairs0, q, p) <==> q == p || (q, p) in pairs {
        ClosedLeadsTo(pairs0, pairs, q, p);
      }
      assert t in h.trans[q] <==> RowInClosure(g, pairs, q, t);
    }
  }

  /** Adds epsilon transitions: every state gets the acceptance and the transitions of the states they lead to, and so
      accepts what it accepts with them. */
  method AddEpsilons(a: Automaton, pairs: set<StatePair>)
    requires a.Valid() && Within(pairs, a.trans.Keys)
    modifies a
    ensures a.Valid() && !a.deterministic && a.initial == old(a.initial) && a.trans.Keys == old(a.trans.Keys)
        && a.nextId == old(a.nextId)
    ensures forall q, w :: q in a.trans ==>
        (a.Snapshot().Accepts(q, w) <==> EpsilonAccepts(old(a.Snapshot()), pairs, q, w))
    ensures forall q, t {:trigger t in a.trans[q]} :: q in a.trans && t in a.trans[q] ==>
        exists p :: p in old(a.trans) && t in old(a.trans)[p]
    ensures IsClosure(old(a.Snapshot()), pairs, a.Snapshot())
  {
    ghost var g := a.Snapshot();
    var closed := Close(pairs, a.trans.Keys);
    StartGrowing(g, closed);
    var todo := closed;
    while todo != {}
      invariant todo <= closed && Growing(g, closed, closed - todo, a.Snapshot())
      invariant a.nextId == old(a.nextId)
    {
      var p :| p in todo;
      ghost var h := a.Snapshot();
      assert closed - todo + {p} == closed - (todo - {p});
      assert (p.0, p.1) in closed;
      if p.1 in a.accept {
        a.accept := a.accept + {p.0};
      }
      a.trans := a.trans[p.0 := a.trans[p.0] + a.trans[p.1]];
      TakePair(g, closed, closed - todo, h, p, a.Snapshot());
      todo := todo - {p};
    }
    assert closed - todo == closed;
    EndGrowing(g, closed, a.Snapshot());
    a.deterministic := false;
    ClosureIsExact(g, pairs, closed, a.Snapshot());
    forall q, w | q in a.trans ensures a.Snapshot().Accepts(q, w) <==> EpsilonAccepts(g, pairs, q, w) {
      ClosureAccepts(g, pairs, closed, a.Snapshot(), q, w);
    }
  }
}
